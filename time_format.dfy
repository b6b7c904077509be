/**
 * The modification-time column of a detail line: a Unix timestamp in seconds rendered in UTC
 * as `strftime('%b %d %H:%M')` renders it, after `datetime.fromtimestamp(t, tz=timezone.utc)`.
 * The calendar is the proleptic Gregorian one; a timestamp whose year falls outside 1..9999
 * is refused, as `datetime` refuses it.
 */
module TimeFormat {
  import opened Wrappers
  import opened Strings

  /** The error `datetime` raises for a timestamp outside its years. */
  datatype TimeError = YearOutOfRange(year: int)

  /** A broken-down UTC time. */
  datatype Civil = Civil(year: int, month: int, day: int, hour: int, minute: int, second: int)

  predicate IsLeap(y: int) {
    y % 4 == 0 && (y % 100 != 0 || y % 400 == 0)
  }

  function DaysInYear(y: int): (d: nat)
    ensures d == 365 || d == 366
  {
    if IsLeap(y) then 366 else 365
  }

  /** Leap years up to `y`, offset by a constant; differences of these count leap years. */
  function Leaps(y: int): int {
    y / 4 - y / 100 + y / 400
  }

  /** The day number, counted from 1970-01-01, of January 1 of year `y`. */
  function YearStart(y: int): int {
    365 * (y - 1970) + Leaps(y - 1) - Leaps(1969)
  }

  lemma QuarterStep(y: int)
    ensures y / 4 - (y - 1) / 4 == if y % 4 == 0 then 1 else 0
  {
  }

  lemma CenturyStep(y: int)
    ensures y / 100 - (y - 1) / 100 == if y % 100 == 0 then 1 else 0
  {
  }

  lemma FourCenturyStep(y: int)
    ensures y / 400 - (y - 1) / 400 == if y % 400 == 0 then 1 else 0
  {
  }

  lemma DivisorChain(y: int)
    ensures y % 400 == 0 ==> y % 100 == 0
    ensures y % 100 == 0 ==> y % 4 == 0
  {
    if y % 400 == 0 {
      var k := y / 400;
      assert y == 100 * (4 * k);
      HundredMultiple(4 * k);
    }
    if y % 100 == 0 {
      var k := y / 100;
      assert y == 4 * (25 * k);
      FourMultiple(25 * k);
    }
  }

  lemma HundredMultiple(k: int)
    ensures (100 * k) % 100 == 0
  {
  }

  lemma FourMultiple(k: int)
    ensures (4 * k) % 4 == 0
  {
  }

  /** Year `y` adds one leap year to the count exactly when it is a leap year. */
  lemma LeapsStep(y: int)
    ensures Leaps(y) - Leaps(y - 1) == if IsLeap(y) then 1 else 0
  {
    QuarterStep(y);
    CenturyStep(y);
    FourCenturyStep(y);
    DivisorChain(y);
  }

  /** Consecutive years start a year's length apart. */
  lemma YearStartStep(y: int)
    ensures YearStart(y + 1) == YearStart(y) + DaysInYear(y)
  {
    LeapsStep(y);
  }

  lemma {:induction false} YearStartMonotonic(a: int, b: int)
    requires a < b
    ensures YearStart(a + 1) <= YearStart(b)
    decreases b - a
  {
    if a + 1 < b {
      YearStartMonotonic(a + 1, b);
      YearStartStep(a + 1);
    }
  }

  /** The year holding day `d`, searching upwards from `y`. */
  function YearUp(d: int, y: int): (r: int)
    requires YearStart(y) <= d
    ensures r >= y && YearStart(r) <= d < YearStart(r + 1)
    decreases d - YearStart(y)
  {
    YearStartStep(y);
    if d < YearStart(y + 1) then y else YearUp(d, y + 1)
  }

  /** The year holding day `d`, searching downwards from `y`. */
  function YearDown(d: int, y: int): (r: int)
    requires d < YearStart(y + 1)
    ensures r <= y && YearStart(r) <= d < YearStart(r + 1)
    decreases YearStart(y + 1) - d
  {
    YearStartStep(y);
    if YearStart(y) <= d then y else YearDown(d, y - 1)
  }

  /** The year holding day `d`. */
  function YearOf(d: int): (y: int)
    ensures YearStart(y) <= d < YearStart(y + 1)
  {
    if d >= 0 then YearUp(d, 1970) else YearDown(d, 1969)
  }

  /** Only one year holds a day. */
  lemma YearOfUnique(d: int, y: int)
    requires YearStart(y) <= d < YearStart(y + 1)
    ensures YearOf(d) == y
  {
    var r := YearOf(d);
    if r < y {
      YearStartMonotonic(r, y);
    } else if y < r {
      YearStartMonotonic(y, r);
    }
  }

  function DaysInMonth(y: int, m: int): (d: nat)
    requires 1 <= m <= 12
    ensures 28 <= d <= 31
  {
    if m == 2 then (if IsLeap(y) then 29 else 28)
    else if m == 4 || m == 6 || m == 9 || m == 11 then 30
    else 31
  }

  /** Days of year `y` before the first of month `m`; month 13 stands for the year's end. */
  function DaysBeforeMonth(y: int, m: int): nat
    requires 1 <= m <= 13
  {
    if m == 1 then 0 else DaysBeforeMonth(y, m - 1) + DaysInMonth(y, m - 1)
  }

  lemma DaysBeforeYearEnd(y: int)
    ensures DaysBeforeMonth(y, 13) == DaysInYear(y)
  {
    var feb := DaysInMonth(y, 2);
    assert DaysBeforeMonth(y, 2) == 31;
    assert DaysBeforeMonth(y, 3) == 31 + feb;
    assert DaysBeforeMonth(y, 4) == 62 + feb;
    assert DaysBeforeMonth(y, 5) == 92 + feb;
    assert DaysBeforeMonth(y, 6) == 123 + feb;
    assert DaysBeforeMonth(y, 7) == 153 + feb;
    assert DaysBeforeMonth(y, 8) == 184 + feb;
    assert DaysBeforeMonth(y, 9) == 215 + feb;
    assert DaysBeforeMonth(y, 10) == 245 + feb;
    assert DaysBeforeMonth(y, 11) == 276 + feb;
    assert DaysBeforeMonth(y, 12) == 306 + feb;
  }

  lemma {:induction false} DaysBeforeMonthMonotonic(y: int, a: int, b: int)
    requires 1 <= a < b <= 13
    ensures DaysBeforeMonth(y, a + 1) <= DaysBeforeMonth(y, b)
    decreases b - a
  {
    if a + 1 < b {
      DaysBeforeMonthMonotonic(y, a + 1, b);
    }
  }

  /** The month of year `y` holding day-of-year `doy`, searching upwards from `m`. */
  function MonthFrom(y: int, doy: int, m: int): (r: int)
    requires 1 <= m <= 12 && DaysBeforeMonth(y, m) <= doy < DaysInYear(y)
    ensures m <= r <= 12 && DaysBeforeMonth(y, r) <= doy < DaysBeforeMonth(y, r + 1)
    decreases 12 - m
  {
    DaysBeforeYearEnd(y);
    if doy < DaysBeforeMonth(y, m + 1) then m else MonthFrom(y, doy, m + 1)
  }

  /** Only one month holds a day of the year. */
  lemma MonthFromUnique(y: int, doy: int, m: int)
    requires 1 <= m <= 12 && DaysBeforeMonth(y, m) <= doy < DaysBeforeMonth(y, m + 1)
    ensures doy < DaysInYear(y) && MonthFrom(y, doy, 1) == m
  {
    DaysBeforeYearEnd(y);
    if m < 12 {
      DaysBeforeMonthMonotonic(y, m, 13);
    }
    var r := MonthFrom(y, doy, 1);
    if r < m {
      DaysBeforeMonthMonotonic(y, r, m);
    } else if m < r {
      DaysBeforeMonthMonotonic(y, m, r);
    }
  }

  /** A broken-down time that names an actual instant. */
  predicate ValidCivil(c: Civil) {
    && 1 <= c.month <= 12 && 1 <= c.day <= DaysInMonth(c.year, c.month)
    && 0 <= c.hour < 24 && 0 <= c.minute < 60 && 0 <= c.second < 60
  }

  /** The day number of a broken-down time, counted from 1970-01-01. */
  function CivilDay(c: Civil): int
    requires 1 <= c.month <= 12
  {
    YearStart(c.year) + DaysBeforeMonth(c.year, c.month) + c.day - 1
  }

  /** The seconds since midnight of a broken-down time. */
  function CivilSeconds(c: Civil): int {
    c.hour * 3600 + c.minute * 60 + c.second
  }

  /** The timestamp of a broken-down UTC time. */
  function FromCivil(c: Civil): int
    requires 1 <= c.month <= 12
  {
    CivilDay(c) * 86400 + CivilSeconds(c)
  }

  /** The year, month and day of day number `d`. */
  function DateOf(d: int): (r: (int, int, int))
    ensures 1 <= r.1 <= 12 && 1 <= r.2 <= DaysInMonth(r.0, r.1)
    ensures YearStart(r.0) + DaysBeforeMonth(r.0, r.1) + r.2 - 1 == d
  {
    DateIn(d, YearOf(d))
  }

  /** The month and day of day number `d`, which falls in year `y`. */
  function DateIn(d: int, y: int): (r: (int, int, int))
    requires YearStart(y) <= d < YearStart(y + 1)
    ensures r.0 == y && 1 <= r.1 <= 12 && 1 <= r.2 <= DaysInMonth(y, r.1)
    ensures YearStart(y) + DaysBeforeMonth(y, r.1) + r.2 - 1 == d
  {
    YearStartStep(y);
    var doy := d - YearStart(y);
    var m := MonthFrom(y, doy, 1);
    (y, m, doy - DaysBeforeMonth(y, m) + 1)
  }

  /** The UTC time of a timestamp: floor division into days and seconds of the day. */
  function ToCivil(t: int): (c: Civil)
    ensures ValidCivil(c)
    ensures FromCivil(c) == t
  {
    var d, s := t / 86400, t % 86400;
    var date := DateOf(d);
    var c := Civil(date.0, date.1, date.2, s / 3600, s % 3600 / 60, s % 60);
    JoinSeconds(s);
    assert CivilDay(c) == d && CivilSeconds(c) == s;
    c
  }

  lemma JoinSeconds(s: int)
    requires 0 <= s < 86400
    ensures 0 <= s / 3600 < 24 && 0 <= s % 3600 / 60 < 60 && 0 <= s % 60 < 60
    ensures (s / 3600) * 3600 + (s % 3600 / 60) * 60 + s % 60 == s
  {
  }

  lemma SplitDay(days: int, s: int)
    requires 0 <= s < 86400
    ensures (days * 86400 + s) / 86400 == days
    ensures (days * 86400 + s) % 86400 == s
  {
  }

  lemma SplitSeconds(h: int, m: int, sec: int)
    requires 0 <= h < 24 && 0 <= m < 60 && 0 <= sec < 60
    ensures var s := h * 3600 + m * 60 + sec;
            s / 3600 == h && s % 3600 / 60 == m && s % 60 == sec
  {
  }

  /** A valid broken-down time falls inside its month, inside its year. */
  lemma CivilDayBounds(c: Civil)
    requires ValidCivil(c)
    ensures var doy := CivilDay(c) - YearStart(c.year);
            && DaysBeforeMonth(c.year, c.month) <= doy < DaysBeforeMonth(c.year, c.month + 1)
            && doy < DaysInYear(c.year)
  {
    assert DaysBeforeMonth(c.year, c.month + 1) == DaysBeforeMonth(c.year, c.month) + DaysInMonth(c.year, c.month);
    MonthFromUnique(c.year, CivilDay(c) - YearStart(c.year), c.month);
  }

  /** The date of a valid broken-down time is determined by its day number. */
  lemma CivilDayPlace(c: Civil)
    requires ValidCivil(c)
    ensures DateOf(CivilDay(c)) == (c.year, c.month, c.day)
  {
    CivilDayBounds(c);
    YearStartStep(c.year);
    DateOfYear(CivilDay(c), c.year);
    MonthFromUnique(c.year, CivilDay(c) - YearStart(c.year), c.month);
    DateInMonth(CivilDay(c), c.year, c.month);
  }

  /** Once the year of a day is known, its date is found within that year. */
  lemma DateOfYear(d: int, y: int)
    requires YearStart(y) <= d < YearStart(y + 1)
    ensures DateOf(d) == DateIn(d, y)
  {
    YearOfUnique(d, y);
  }

  /** Once the month of a day is known, its day of the month follows. */
  lemma DateInMonth(d: int, y: int, m: int)
    requires YearStart(y) <= d < YearStart(y + 1) && d - YearStart(y) < DaysInYear(y)
    requires MonthFrom(y, d - YearStart(y), 1) == m
    ensures DateIn(d, y) == (y, m, d - YearStart(y) - DaysBeforeMonth(y, m) + 1)
  {
  }

  /** Distinct valid broken-down times have distinct timestamps. */
  lemma FromCivilInjective(c1: Civil, c2: Civil)
    requires ValidCivil(c1) && ValidCivil(c2) && FromCivil(c1) == FromCivil(c2)
    ensures c1 == c2
  {
    SplitDay(CivilDay(c1), CivilSeconds(c1));
    SplitDay(CivilDay(c2), CivilSeconds(c2));
    assert CivilDay(c1) == CivilDay(c2);
    SameDay(c1, c2);
    SplitSeconds(c1.hour, c1.minute, c1.second);
    SplitSeconds(c2.hour, c2.minute, c2.second);
  }

  lemma SameDay(c1: Civil, c2: Civil)
    requires ValidCivil(c1) && ValidCivil(c2) && CivilDay(c1) == CivilDay(c2)
    ensures c1.year == c2.year && c1.month == c2.month && c1.day == c2.day
  {
    CivilDayPlace(c1);
    CivilDayPlace(c2);
  }

  /** Every valid broken-down time is the time of its own timestamp. */
  lemma CivilRoundTrip(c: Civil)
    requires ValidCivil(c)
    ensures ToCivil(FromCivil(c)) == c
  {
    FromCivilInjective(ToCivil(FromCivil(c)), c);
  }

  const MonthNames: seq<string> :=
    ["Jan", "Feb", "Mar", "Apr", "May", "Jun", "Jul", "Aug", "Sep", "Oct", "Nov", "Dec"]

  /** A zero-padded two-digit field (`%d`, `%H`, `%M`). */
  function TwoDigits(n: nat): (s: string)
    requires n < 100
    ensures |s| == 2 && IsDigit(s[0]) && IsDigit(s[1])
    ensures 10 * (s[0] as int - '0' as int) + (s[1] as int - '0' as int) == n
  {
    [DigitChar(n / 10), DigitChar(n % 10)]
  }

  /** The `%b %d %H:%M` text of a month, day, hour and minute. */
  function TimeText(month: int, day: nat, hour: nat, minute: nat): (s: string)
    requires 1 <= month <= 12 && day < 100 && hour < 100 && minute < 100
    ensures |s| == 12 && s[3] == ' ' && s[6] == ' ' && s[9] == ':'
    ensures s[..3] == MonthNames[month - 1]
    ensures s[4..6] == TwoDigits(day) && s[7..9] == TwoDigits(hour) && s[10..] == TwoDigits(minute)
  {
    MonthNames[month - 1] + " " + TwoDigits(day) + " " + TwoDigits(hour) + ":" + TwoDigits(minute)
  }

  /** The time column for timestamp `t`, or the error when its year is out of range. */
  function FormatTime(t: int): (r: Result<string, TimeError>)
    ensures r.Err? <==> !(1 <= ToCivil(t).year <= 9999)
    ensures r.Err? ==> r.error == YearOutOfRange(ToCivil(t).year)
    ensures r.Ok? ==> |r.value| == 12 && r.value[3] == ' ' && r.value[6] == ' ' && r.value[9] == ':'
  {
    var c := ToCivil(t);
    if 1 <= c.year <= 9999 then Ok(TimeText(c.month, c.day, c.hour, c.minute)) else Err(YearOutOfRange(c.year))
  }

  /** The time column reads back as the month, day, hour and minute of the timestamp. */
  lemma FormatTimeReadsBack(t: int)
    requires FormatTime(t).Ok?
    ensures var s, c := FormatTime(t).value, ToCivil(t);
            && s[..3] == MonthNames[c.month - 1]
            && s[4..6] == TwoDigits(c.day) && s[7..9] == TwoDigits(c.hour) && s[10..] == TwoDigits(c.minute)
  {
    var c := ToCivil(t);
    var s := TimeText(c.month, c.day, c.hour, c.minute);
    assert FormatTime(t).value == s;
  }

  /** The instants `datetime` accepts: 0001-01-01 00:00:00 through 9999-12-31 23:59:59. */
  lemma TimestampRange(t: int)
    ensures FormatTime(t).Ok? <==> -62135596800 <= t <= 253402300799
  {
    var d := t / 86400;
    assert ToCivil(t).year == YearOf(d);
    YearRange(d);
  }

  /** The days of years 1 through 9999. */
  lemma YearRange(d: int)
    ensures 1 <= YearOf(d) <= 9999 <==> -719162 <= d < 2932897
  {
    var y := YearOf(d);
    assert YearStart(1) == -719162 && YearStart(10000) == 2932897;
    if y < 1 {
      YearStartMonotonic(y, 1);
    } else if y > 9999 {
      YearStartMonotonic(9999, y);
    } else {
      if y > 1 { YearStartMonotonic(1, y); }
      if y < 9999 { YearStartMonotonic(y, 9999); }
      YearStartStep(9999);
    }
  }

  /** The time column of a valid broken-down time within the year range. */
  lemma FormatCivil(t: int, c: Civil)
    requires ValidCivil(c) && 1 <= c.year <= 9999 && FromCivil(c) == t
    ensures FormatTime(t) == Ok(TimeText(c.month, c.day, c.hour, c.minute))
  {
    CivilRoundTrip(c);
  }

  lemma EpochCivil(t: int)
    requires t == 0
    ensures ToCivil(t) == Civil(1970, 1, 1, 0, 0, 0)
  {
  }

  lemma EpochFields(t: int)
    requires t == 0
    ensures FormatTime(t) == Ok(TimeText(1, 1, 0, 0))
  {
    EpochCivil(t);
  }

  lemma EpochText()
    ensures TimeText(1, 1, 0, 0) == "Jan 01 00:00"
  {
    assert TwoDigits(0) == "00" && TwoDigits(1) == "01";
  }

  /** The epoch itself, which is also the time shown for a record without one. The epoch
      lemmas take the timestamp as a parameter equal to 0, so that they apply directly to a
      defaulted field such as `TimeOf(n)`. */
  lemma SampleEpoch(t: int)
    requires t == 0
    ensures FormatTime(t) == Ok("Jan 01 00:00")
  {
    EpochFields(t);
    EpochText();
  }

  /** One second before the epoch: floor division makes it the last minute of 1969. */
  lemma SampleBeforeEpoch()
    ensures FormatTime(-1) == Ok("Dec 31 23:59")
  {
    var c := Civil(1969, 12, 31, 23, 59, 59);
    LastSecondOf1969();
    FormatCivil(-1, c);
    TextOfLastMinute();
  }

  lemma LastSecondOf1969()
    ensures FromCivil(Civil(1969, 12, 31, 23, 59, 59)) == -1
  {
    assert YearStart(1969) == -365;
    assert DaysBeforeMonth(1969, 12) == 334;
  }

  lemma TextOfLastMinute()
    ensures TimeText(12, 31, 23, 59) == "Dec 31 23:59"
  {
    assert TwoDigits(31) == "31" && TwoDigits(23) == "23" && TwoDigits(59) == "59";
  }

  /** A leap day of a year divisible by 400. */
  lemma SampleLeapDay()
    ensures FormatTime(FromCivil(Civil(2000, 2, 29, 12, 34, 56))) == Ok("Feb 29 12:34")
  {
    var leap := Civil(2000, 2, 29, 12, 34, 56);
    assert ValidCivil(leap);
    FormatCivil(FromCivil(leap), leap);
    TextOfLeapDay();
  }

  lemma TextOfLeapDay()
    ensures TimeText(2, 29, 12, 34) == "Feb 29 12:34"
  {
    assert TwoDigits(29) == "29" && TwoDigits(12) == "12" && TwoDigits(34) == "34";
  }

  /** The first instant of year 10000 is refused. */
  lemma SampleYearTooLarge()
    ensures FormatTime(FromCivil(Civil(10000, 1, 1, 0, 0, 0))) == Err(YearOutOfRange(10000))
  {
    CivilRoundTrip(Civil(10000, 1, 1, 0, 0, 0));
  }
}
