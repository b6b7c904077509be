/**
 * Size humanisation (`human_readable_size`): pick the unit B, KB, MB, GB, TB, or PB past
 * them, then print the scaled size with one decimal. Dividing by 1024 is exact in binary
 * floating point, so the printed number is the exact quotient rounded to tenths, ties to even.
 */
module SizeFormat {
  import opened Wrappers
  import opened Strings

  /** The `ValueError` raised for a negative size. */
  datatype SizeError = NegativeSize

  const Units: seq<string> := ["B", "KB", "MB", "GB", "TB"]

  /** The unit of index `k`, with PB once the table is exhausted. */
  function UnitName(k: nat): string
    requires k <= 5
  {
    if k < 5 then Units[k] else "PB"
  }

  function Pow1024(k: nat): (r: nat)
    ensures r >= 1
  {
    if k == 0 then 1 else 1024 * Pow1024(k - 1)
  }

  lemma {:induction false} Pow1024Monotonic(j: nat, k: nat)
    requires j <= k
    ensures Pow1024(j) <= Pow1024(k)
    ensures j < k ==> Pow1024(j) < Pow1024(k)
    decreases k
  {
    if j < k {
      Pow1024Monotonic(j, k - 1);
    }
  }

  /** The first unit index, from `k` on, at which the scaled size drops below 1024; 5 (PB) if none. */
  function UnitFrom(n: nat, k: nat): (u: nat)
    requires k <= 5
    ensures k <= u <= 5
    ensures u < 5 ==> n < Pow1024(u + 1)
    ensures forall j :: k < j <= u ==> Pow1024(j) <= n
    decreases 5 - k
  {
    if k == 5 then 5 else if n < Pow1024(k + 1) then k else UnitFrom(n, k + 1)
  }

  /** The unit index of a size: the first `u` with `n < 1024^(u+1)`, or 5 when `n >= 1024^5`. */
  function UnitIndex(n: nat): (u: nat)
    ensures u <= 5
    ensures u < 5 ==> n < Pow1024(u + 1)
    ensures forall j :: 0 < j <= u ==> Pow1024(j) <= n
  {
    UnitFrom(n, 0)
  }

  /** The integer nearest to `a / b`, a tie going to the even one. */
  function RoundHalfEven(a: nat, b: nat): (q: nat)
    requires b > 0
    ensures 2 * (a - q * b) <= b && 2 * (q * b - a) <= b
    ensures (2 * (a - q * b) == b || 2 * (q * b - a) == b) ==> q % 2 == 0
  {
    var q, rem := a / b, a % b;
    DivisionStep(a, b);
    if 2 * rem < b || (2 * rem == b && q % 2 == 0) then q else q + 1
  }

  lemma DivisionStep(a: nat, b: nat)
    requires b > 0
    ensures a - (a / b) * b == a % b && (a / b + 1) * b == (a / b) * b + b
  {
  }

  /** A count of tenths printed as `f"{x:.1f}"` prints it: the units, a point, one digit. */
  function FormatTenths(t: nat): string {
    NatToString(t / 10) + "." + [DigitChar(t % 10)]
  }

  /** What `human_readable_size(n)` returns for a non-negative `n`. */
  function SizeText(n: nat): string {
    var u := UnitIndex(n);
    FormatTenths(RoundHalfEven(10 * n, Pow1024(u))) + " " + UnitName(u)
  }

  /** What `human_readable_size(size)` returns or raises. */
  function HumanReadable(size: int): (r: Result<string, SizeError>)
    ensures r.Err? <==> size < 0
  {
    if size < 0 then Err(NegativeSize) else Ok(SizeText(size))
  }

  /** `human_readable_size`: the loop over the units, scaling the size as it goes. The float
      `size` of the source is `n / scale` here, held exactly. */
  method HumanReadableSize(size: int) returns (r: Result<string, SizeError>)
    ensures r == HumanReadable(size)
  {
    if size < 0 {
      return Err(NegativeSize);
    }
    var units := Units;
    var i := 0;
    var scale := 1;
    while i < |units|
      invariant 0 <= i <= |units| == 5
      invariant scale == Pow1024(i)
      invariant UnitFrom(size, i) == UnitIndex(size)
    {
      if size < scale * 1024 {
        assert scale * 1024 == Pow1024(i + 1);
        assert units[i] == UnitName(i);
        return Ok(FormatTenths(RoundHalfEven(10 * size, scale)) + " " + units[i]);
      }
      scale := scale * 1024;
      i := i + 1;
    }
    assert UnitIndex(size) == 5;
    return Ok(FormatTenths(RoundHalfEven(10 * size, scale)) + " " + UnitName(5));
  }

  /** The printed text reads back as the count of tenths it was made from. */
  lemma FormatTenthsReadsBack(t: nat)
    ensures var s := FormatTenths(t);
            && |s| >= 3 && s[|s| - 2] == '.'
            && (forall i :: 0 <= i < |s| - 2 ==> IsDigit(s[i]))
            && 10 * DigitsValue(s[..|s| - 2]) + (s[|s| - 1] as int - '0' as int) == t
  {
    var s := FormatTenths(t);
    assert s[..|s| - 2] == NatToString(t / 10);
    NatToStringValue(t / 10);
  }

  /** The size text is the size in its unit, rounded to tenths, then that unit. */
  lemma SizeTextMeaning(n: nat)
    ensures var u := UnitIndex(n);
            exists t: nat :: SizeText(n) == FormatTenths(t) + " " + UnitName(u) &&
              2 * (10 * n - t * Pow1024(u)) <= Pow1024(u) && 2 * (t * Pow1024(u) - 10 * n) <= Pow1024(u)
  {
    var u := UnitIndex(n);
    var t := RoundHalfEven(10 * n, Pow1024(u));
    assert SizeText(n) == FormatTenths(t) + " " + UnitName(u);
  }

  lemma {:induction false} RoundExact(m: nat, b: nat)
    requires b > 0
    ensures RoundHalfEven(m * b, b) == m
  {
    var q := RoundHalfEven(m * b, b);
    if q < m {
      var d := m - q;
      assert m * b == q * b + d * b;
      AtLeastOnce(d, b);
    } else if q > m {
      var d := q - m;
      assert q * b == m * b + d * b;
      AtLeastOnce(d, b);
    }
  }

  lemma AtLeastOnce(d: nat, b: nat)
    requires d >= 1
    ensures d * b >= b
  {
    assert d * b == (d - 1) * b + b;
  }

  lemma UnitOfPower(k: nat)
    requires k <= 5
    ensures UnitIndex(Pow1024(k)) == k
  {
    var u := UnitIndex(Pow1024(k));
    if u < k {
      Pow1024Monotonic(u + 1, k);
    }
  }

  lemma FormatTen()
    ensures FormatTenths(10) == "1.0"
  {
    assert NatToString(1) == "1";
    assert DigitChar(0) == '0';
  }

  lemma SizeTextOf(n: nat, u: nat, t: nat)
    requires u <= 5 && UnitIndex(n) == u && RoundHalfEven(10 * n, Pow1024(u)) == t
    ensures SizeText(n) == FormatTenths(t) + " " + UnitName(u)
  {
  }

  /** `1024^k` bytes print as one of unit `k`, PB included. */
  lemma PowerOfUnit(k: nat)
    requires k <= 5
    ensures SizeText(Pow1024(k)) == "1.0 " + UnitName(k)
  {
    var n := Pow1024(k);
    UnitOfPower(k);
    RoundExact(10, n);
    SizeTextOf(n, k, 10);
    FormatTen();
    OneUnit(UnitName(k));
  }

  /** The text `1.0` and a space, then a unit name. */
  lemma OneUnit(x: string)
    ensures "1.0" + " " + x == "1.0 " + x
  {
  }

  /** The values of the test suite. */
  lemma SampleSizes()
    ensures SizeText(0) == "0.0 B"
    ensures SizeText(1023) == "1023.0 B"
    ensures SizeText(1124) == "1.1 KB"
  {
    SampleZero();
    SampleBelowKilo();
    SampleKilo();
  }

  lemma SampleZero()
    ensures SizeText(0) == "0.0 B"
  {
    assert Pow1024(1) == 1024;
    assert UnitIndex(0) == 0;
    assert RoundHalfEven(0, 1) == 0;
    assert NatToString(0) == "0" && DigitChar(0) == '0';
    SizeTextOf(0, 0, 0);
  }

  lemma SampleBelowKilo()
    ensures SizeText(1023) == "1023.0 B"
  {
    assert Pow1024(1) == 1024;
    assert UnitIndex(1023) == 0;
    assert RoundHalfEven(10230, 1) == 10230;
    assert NatToString(1023) == "1023" && DigitChar(0) == '0';
    SizeTextOf(1023, 0, 10230);
  }

  lemma SampleKilo()
    ensures SizeText(1124) == "1.1 KB"
  {
    assert Pow1024(1) == 1024 && Pow1024(2) == 1024 * 1024;
    assert UnitIndex(1124) == 1;
    assert RoundHalfEven(11240, 1024) == 11;
    assert NatToString(1) == "1" && DigitChar(1) == '1';
    SizeTextOf(1124, 1, 11);
  }
}
