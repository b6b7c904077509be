/**
 * Sorting (`sort_directory_contents`): Python's `sorted(items, key=lambda x: x[sort_by],
 * reverse=reverse)`. The sort is stable in both directions, and fails with `KeyError` when
 * any item lacks the key.
 */
module ContentSorter {
  import opened Wrappers
  import opened Seqs
  import opened Strings
  import opened Nodes

  /** The two keys the command line can ask for (`-t` selects the time). */
  datatype SortKey = Name | TimeModified

  /** The `KeyError` raised when an item lacks the sort key; it carries the key. */
  datatype SortError = KeyError(key: string)

  /** The dictionary key of a sort key. */
  function KeyName(k: SortKey): string {
    match k
    case Name => "name"
    case TimeModified => "time_modified"
  }

  predicate HasKey(n: Node, k: SortKey) {
    match k
    case Name => n.name.Some?
    case TimeModified => n.timeModified.Some?
  }

  predicate AllHaveKey(s: seq<Node>, k: SortKey) {
    forall x :: x in s ==> HasKey(x, k)
  }

  /** The two items carry the same value under the key (or both lack it). */
  predicate SameKey(a: Node, b: Node, k: SortKey) {
    match k
    case Name => a.name == b.name
    case TimeModified => a.timeModified == b.timeModified
  }

  /** `a[k] <= b[k]`: strings by code point, timestamps as integers. */
  predicate KeyLe(a: Node, b: Node, k: SortKey) {
    match k
    case Name => a.name.Some? && b.name.Some? && LexLe(a.name.value, b.name.value)
    case TimeModified =>
      a.timeModified.Some? && b.timeModified.Some? && a.timeModified.value <= b.timeModified.value
  }

  /** `a` may stand before `b` in the output: non-decreasing keys, or non-increasing ones when reversed. */
  predicate InOrder(a: Node, b: Node, k: SortKey, reverse: bool) {
    if reverse then KeyLe(b, a, k) else KeyLe(a, b, k)
  }

  ghost predicate Sorted(s: seq<Node>, k: SortKey, reverse: bool) {
    forall i, j :: 0 <= i < j < |s| ==> InOrder(s[i], s[j], k, reverse)
  }

  /** The items of `s` whose key equals that of `y`, in their order in `s`. */
  function Ties(s: seq<Node>, k: SortKey, y: Node): seq<Node>
    decreases |s|
  {
    if s == [] then [] else (if SameKey(s[0], y, k) then [s[0]] else []) + Ties(s[1..], k, y)
  }

  /** Stability: every group of equal keys appears in `r` in the order it has in `s`. */
  ghost predicate KeepsTieOrder(r: seq<Node>, s: seq<Node>, k: SortKey) {
    forall y :: Ties(r, k, y) == Ties(s, k, y)
  }

  lemma InOrderTotal(a: Node, b: Node, k: SortKey, reverse: bool)
    requires HasKey(a, k) && HasKey(b, k)
    ensures InOrder(a, b, k, reverse) || InOrder(b, a, k, reverse)
  {
    if k == Name {
      LexLessTotal(a.name.value, b.name.value);
    }
  }

  lemma InOrderTransitive(a: Node, b: Node, c: Node, k: SortKey, reverse: bool)
    requires InOrder(a, b, k, reverse) && InOrder(b, c, k, reverse)
    ensures InOrder(a, c, k, reverse)
  {
    if k == Name {
      var x, y, z := a.name.value, b.name.value, c.name.value;
      if reverse {
        if z != y && y != x {
          LexLessTransitive(z, y, x);
        }
      } else {
        if x != y && y != z {
          LexLessTransitive(x, y, z);
        }
      }
    }
  }

  lemma InOrderBothWays(a: Node, b: Node, k: SortKey, reverse: bool)
    requires InOrder(a, b, k, reverse) && InOrder(b, a, k, reverse)
    ensures SameKey(a, b, k)
  {
    if k == Name {
      LexLessAsymmetric(a.name.value, b.name.value);
    }
  }

  /** Python's insertion of `x` ahead of the sorted `l`: it goes before the first item it may
      precede, so it stays ahead of the items whose key equals its own. */
  function Insert(x: Node, l: seq<Node>, k: SortKey, reverse: bool): (r: seq<Node>)
    ensures multiset(r) == multiset{x} + multiset(l)
    decreases |l|
  {
    if l == [] || InOrder(x, l[0], k, reverse) then [x] + l
    else
      assert l == [l[0]] + l[1..];
      [l[0]] + Insert(x, l[1..], k, reverse)
  }

  /** A stable insertion sort: the tail is sorted, then the head is inserted into it. */
  function InsertionSort(s: seq<Node>, k: SortKey, reverse: bool): (r: seq<Node>)
    ensures multiset(r) == multiset(s)
    decreases |s|
  {
    if s == [] then []
    else
      assert s == [s[0]] + s[1..];
      Insert(s[0], InsertionSort(s[1..], k, reverse), k, reverse)
  }

  lemma {:induction false} InsertSorted(x: Node, l: seq<Node>, k: SortKey, reverse: bool)
    requires HasKey(x, k) && AllHaveKey(l, k) && Sorted(l, k, reverse)
    ensures Sorted(Insert(x, l, k, reverse), k, reverse)
    decreases |l|
  {
    var r := Insert(x, l, k, reverse);
    if l == [] {
    } else if InOrder(x, l[0], k, reverse) {
      forall j | 1 <= j < |r| ensures InOrder(x, r[j], k, reverse) {
        if j > 1 {
          InOrderTransitive(x, l[0], l[j - 1], k, reverse);
        }
      }
    } else {
      InOrderTotal(x, l[0], k, reverse);
      var rest := Insert(x, l[1..], k, reverse);
      InsertSorted(x, l[1..], k, reverse);
      forall j | 0 <= j < |rest| ensures InOrder(l[0], rest[j], k, reverse) {
        assert rest[j] in multiset(rest);
        if rest[j] != x {
          assert rest[j] in l[1..];
        }
      }
    }
  }

  lemma {:induction false} InsertTies(x: Node, l: seq<Node>, k: SortKey, reverse: bool, y: Node)
    requires HasKey(x, k)
    ensures Ties(Insert(x, l, k, reverse), k, y) == (if SameKey(x, y, k) then [x] else []) + Ties(l, k, y)
    decreases |l|
  {
    var hx := if SameKey(x, y, k) then [x] else [];
    if l == [] || InOrder(x, l[0], k, reverse) {
      TiesOfHead([x] + l, k, y);
      assert ([x] + l)[1..] == l;
    } else {
      var rest := Insert(x, l[1..], k, reverse);
      InsertTies(x, l[1..], k, reverse, y);
      TiesOfHead([l[0]] + rest, k, y);
      assert ([l[0]] + rest)[1..] == rest;
      TiesOfHead(l, k, y);
      var h0 := if SameKey(l[0], y, k) then [l[0]] else [];
      assert !SameKey(x, l[0], k);
      SwapEmpty(h0, hx, Ties(l[1..], k, y));
    }
  }

  /** The insertion sort returns a sorted permutation of its input that keeps equal keys in
      input order. */
  lemma {:induction false} InsertionSortCorrect(s: seq<Node>, k: SortKey, reverse: bool)
    requires AllHaveKey(s, k)
    ensures Sorted(InsertionSort(s, k, reverse), k, reverse)
    ensures KeepsTieOrder(InsertionSort(s, k, reverse), s, k)
    decreases |s|
  {
    if s != [] {
      var rest := InsertionSort(s[1..], k, reverse);
      InsertionSortCorrect(s[1..], k, reverse);
      assert forall x :: x in rest ==> x in multiset(s[1..]);
      InsertSorted(s[0], rest, k, reverse);
      forall y ensures Ties(InsertionSort(s, k, reverse), k, y) == Ties(s, k, y) {
        InsertTies(s[0], rest, k, reverse, y);
      }
    }
  }

  /** `sort_directory_contents(items, sort_by, reverse)`. */
  function SortDirectoryContents(items: seq<Node>, sortBy: SortKey, reverse: bool): (r: Result<seq<Node>, SortError>)
    ensures r.Err? <==> exists x :: x in items && !HasKey(x, sortBy)
    ensures r.Err? ==> r.error == KeyError(KeyName(sortBy))
    ensures r.Ok? ==> multiset(r.value) == multiset(items)
    ensures r.Ok? ==> Sorted(r.value, sortBy, reverse)
    ensures r.Ok? ==> KeepsTieOrder(r.value, items, sortBy)
  {
    if AllHaveKey(items, sortBy) then
      InsertionSortCorrect(items, sortBy, reverse);
      Ok(InsertionSort(items, sortBy, reverse))
    else Err(KeyError(KeyName(sortBy)))
  }

  lemma {:induction false} TiesAppend(a: seq<Node>, b: seq<Node>, k: SortKey, y: Node)
    ensures Ties(a + b, k, y) == Ties(a, k, y) + Ties(b, k, y)
    decreases |a|
  {
    if a == [] {
      assert a + b == b;
    } else {
      TiesAppend(a[1..], b, k, y);
      assert (a + b)[1..] == a[1..] + b;
      TiesOfHead(a + b, k, y);
      TiesOfHead(a, k, y);
      var h := if SameKey(a[0], y, k) then [a[0]] else [];
      AppendAssociative(h, Ties(a[1..], k, y), Ties(b, k, y));
    }
  }

  lemma {:induction false} TiesReverse(s: seq<Node>, k: SortKey, y: Node)
    ensures Ties(Reverse(s), k, y) == Reverse(Ties(s, k, y))
    decreases |s|
  {
    if s != [] {
      TiesReverse(s[1..], k, y);
      TiesAppend(Reverse(s[1..]), [s[0]], k, y);
      var head := if SameKey(s[0], y, k) then [s[0]] else [];
      ReverseAppend(head, Ties(s[1..], k, y));
      assert Ties([s[0]], k, y) == head + Ties([], k, y);
    }
  }

  lemma FirstIsLeast(t: seq<Node>, x: Node, k: SortKey, reverse: bool)
    requires AllHaveKey(t, k) && Sorted(t, k, reverse) && x in t
    ensures InOrder(t[0], x, k, reverse)
  {
    var i :| 0 <= i < |t| && t[i] == x;
    if i == 0 {
      InOrderTotal(x, x, k, reverse);
    }
  }

  lemma SortedTail(t: seq<Node>, k: SortKey, reverse: bool)
    requires t != [] && Sorted(t, k, reverse)
    ensures Sorted(t[1..], k, reverse)
  {
    forall i, j | 0 <= i < j < |t| - 1 ensures InOrder(t[1..][i], t[1..][j], k, reverse) {
      assert t[1..][i] == t[i + 1] && t[1..][j] == t[j + 1];
    }
  }

  lemma TiesOfHead(t: seq<Node>, k: SortKey, y: Node)
    requires t != []
    ensures Ties(t, k, y) == (if SameKey(t[0], y, k) then [t[0]] else []) + Ties(t[1..], k, y)
  {
  }

  /** Two sorted arrangements of the same items that order every group of equal keys alike
      are the same sequence. */
  lemma {:induction false} SortedArrangementUnique(t1: seq<Node>, t2: seq<Node>, k: SortKey, reverse: bool)
    requires AllHaveKey(t1, k) && multiset(t1) == multiset(t2)
    requires Sorted(t1, k, reverse) && Sorted(t2, k, reverse)
    requires KeepsTieOrder(t1, t2, k)
    ensures t1 == t2
    decreases |t1|
  {
    if t1 == [] {
      assert |multiset(t2)| == 0;
    } else {
      assert t1[0] in multiset(t2);
      var a, b := t1[0], t2[0];
      assert b in multiset(t1);
      FirstIsLeast(t1, b, k, reverse);
      FirstIsLeast(t2, a, k, reverse);
      InOrderBothWays(a, b, k, reverse);
      TiesOfHead(t1, k, a);
      TiesOfHead(t2, k, a);
      assert Ties(t1, k, a) == Ties(t2, k, a);
      assert Ties(t1, k, a)[0] == a && Ties(t2, k, a)[0] == b;
      HeadsAgree(t1, t2, k);
      SortedTail(t1, k, reverse);
      SortedTail(t2, k, reverse);
      SortedArrangementUnique(t1[1..], t2[1..], k, reverse);
      assert t1 == [a] + t1[1..] && t2 == [a] + t2[1..];
    }
  }

  /** With the heads equal, the tails are again the same items with the same tie order. */
  lemma HeadsAgree(t1: seq<Node>, t2: seq<Node>, k: SortKey)
    requires t1 != [] && t2 != [] && t1[0] == t2[0]
    requires multiset(t1) == multiset(t2) && KeepsTieOrder(t1, t2, k)
    ensures multiset(t1[1..]) == multiset(t2[1..]) && KeepsTieOrder(t1[1..], t2[1..], k)
  {
    MultisetTail(t1, t2);
    forall y ensures Ties(t1[1..], k, y) == Ties(t2[1..], k, y) {
      TailTies(t1, t2, k, y);
    }
  }

  lemma TailTies(t1: seq<Node>, t2: seq<Node>, k: SortKey, y: Node)
    requires t1 != [] && t2 != [] && t1[0] == t2[0] && Ties(t1, k, y) == Ties(t2, k, y)
    ensures Ties(t1[1..], k, y) == Ties(t2[1..], k, y)
  {
    TiesOfHead(t1, k, y);
    TiesOfHead(t2, k, y);
    var h := if SameKey(t1[0], y, k) then [t1[0]] else [];
    DropPrefix(h, Ties(t1[1..], k, y));
    DropPrefix(h, Ties(t2[1..], k, y));
  }

  /** Any sorted permutation of the items that keeps equal keys in input order is the result
      of the sort: the contract above determines the output completely. */
  lemma SortIsUnique(items: seq<Node>, t: seq<Node>, sortBy: SortKey, reverse: bool)
    requires AllHaveKey(items, sortBy)
    requires multiset(t) == multiset(items) && Sorted(t, sortBy, reverse) && KeepsTieOrder(t, items, sortBy)
    ensures SortDirectoryContents(items, sortBy, reverse) == Ok(t)
  {
    var r := SortDirectoryContents(items, sortBy, reverse).value;
    assert forall x :: x in t ==> x in multiset(items);
    SortedArrangementUnique(t, r, sortBy, reverse);
  }

  /** Sorting an already sorted list returns it unchanged. */
  lemma SortIdempotent(items: seq<Node>, sortBy: SortKey, reverse: bool)
    requires SortDirectoryContents(items, sortBy, reverse).Ok?
    ensures var once := SortDirectoryContents(items, sortBy, reverse).value;
            SortDirectoryContents(once, sortBy, reverse) == Ok(once)
  {
    var once := SortDirectoryContents(items, sortBy, reverse).value;
    assert forall x :: x in once ==> x in multiset(items);
    SortIsUnique(once, once, sortBy, reverse);
  }

  lemma ReverseSorted(s: seq<Node>, k: SortKey)
    requires Sorted(s, k, false)
    ensures Sorted(Reverse(s), k, true)
  {
    var r := Reverse(s);
    forall i, j | 0 <= i < j < |r| ensures InOrder(r[i], r[j], k, true) {
      assert r[i] == s[|s| - 1 - i] && r[j] == s[|s| - 1 - j];
    }
  }

  /** `reverse=True` sorts as CPython does it: reverse the input, sort ascending, reverse
      again. Equal keys therefore keep their input order in both directions. */
  lemma SortDescending(items: seq<Node>, sortBy: SortKey)
    requires AllHaveKey(items, sortBy)
    ensures SortDirectoryContents(items, sortBy, true) ==
            Ok(Reverse(SortDirectoryContents(Reverse(items), sortBy, false).value))
  {
    ReverseMultiset(items);
    assert forall x :: x in Reverse(items) ==> x in multiset(items);
    var ascending := SortDirectoryContents(Reverse(items), sortBy, false).value;
    var u := Reverse(ascending);
    ReverseMultiset(ascending);
    ReverseSorted(ascending, sortBy);
    forall y ensures Ties(u, sortBy, y) == Ties(items, sortBy, y) {
      TiesReverse(ascending, sortBy, y);
      TiesReverse(items, sortBy, y);
      ReverseInvolutive(Ties(items, sortBy, y));
    }
    SortIsUnique(items, u, sortBy, true);
  }

  /** Two different records with the same name. */
  function TiedFirst(): Node { Node(Some("x"), None, None, Some(1), None) }
  function TiedSecond(): Node { Node(Some("x"), None, None, Some(2), None) }

  /** Two items with the same name: the descending sort keeps them in input order, so it is
      not the ascending sort read backwards. */
  lemma ReversedAscendingIsNotDescending()
    ensures SortDirectoryContents([TiedFirst(), TiedSecond()], Name, true) == Ok([TiedFirst(), TiedSecond()])
    ensures Reverse(SortDirectoryContents([TiedFirst(), TiedSecond()], Name, false).value) == [TiedSecond(), TiedFirst()]
  {
    var a, b := TiedFirst(), TiedSecond();
    assert [a, b][1..] == [b];
    assert InsertionSort([b], Name, true) == [b];
    assert InsertionSort([b], Name, false) == [b];
    assert InsertionSort([a, b], Name, false) == [a, b];
    assert Reverse([a, b]) == [b, a];
  }

  /** Three items where the second precedes the first and the first the third. */
  lemma SortMiddleFirst(x: Node, y: Node, z: Node, k: SortKey, reverse: bool)
    requires InOrder(y, z, k, reverse) && !InOrder(x, y, k, reverse) && InOrder(x, z, k, reverse)
    ensures InsertionSort([x, y, z], k, reverse) == [y, x, z]
  {
    SortThree(x, y, z, k, reverse);
    SortPair(y, z, k, reverse);
    InsertPast(x, y, z, k, reverse);
    SortPair(x, z, k, reverse);
    Displays(y, x, z);
  }

  /** Three items where the third precedes the other two and the first the second. */
  lemma SortLastFirst(x: Node, y: Node, z: Node, k: SortKey, reverse: bool)
    requires !InOrder(y, z, k, reverse) && !InOrder(x, z, k, reverse) && InOrder(x, y, k, reverse)
    ensures InsertionSort([x, y, z], k, reverse) == [z, x, y]
  {
    SortThree(x, y, z, k, reverse);
    SortPair(y, z, k, reverse);
    InsertPast(x, z, y, k, reverse);
    SortPair(x, y, k, reverse);
    Displays(z, x, y);
  }

  lemma SortOne(z: Node, k: SortKey, reverse: bool)
    ensures InsertionSort([z], k, reverse) == [z]
  {
    Displays(z, z, z);
  }

  /** Two items come out in order: as they are, or swapped. */
  lemma SortPair(y: Node, z: Node, k: SortKey, reverse: bool)
    ensures InsertionSort([y, z], k, reverse) == Insert(y, [z], k, reverse)
    ensures Insert(y, [z], k, reverse) == if InOrder(y, z, k, reverse) then [y, z] else [z, y]
  {
    SortOne(z, k, reverse);
    Displays(y, z, z);
    Displays(z, y, y);
  }

  lemma SortThree(x: Node, y: Node, z: Node, k: SortKey, reverse: bool)
    ensures InsertionSort([x, y, z], k, reverse) == Insert(x, InsertionSort([y, z], k, reverse), k, reverse)
  {
    Displays(x, y, z);
  }

  /** An item that may not precede the head of a two-item list goes after it. */
  lemma InsertPast(x: Node, y: Node, z: Node, k: SortKey, reverse: bool)
    requires !InOrder(x, y, k, reverse)
    ensures Insert(x, [y, z], k, reverse) == [y] + Insert(x, [z], k, reverse)
  {
    Displays(y, z, z);
  }

  /** When every item has the key, the sort returns the insertion sort. */
  lemma SortOfKeyed(x: Node, y: Node, z: Node, k: SortKey, reverse: bool, r: seq<Node>)
    requires HasKey(x, k) && HasKey(y, k) && HasKey(z, k) && InsertionSort([x, y, z], k, reverse) == r
    ensures SortDirectoryContents([x, y, z], k, reverse) == Ok(r)
  {
    assert AllHaveKey([x, y, z], k);
  }

  /** How the three names of the test suite compare. */
  lemma SampleNamesOrder()
    ensures LexLe("fileA", "fileB") && LexLe("fileB", "fileC") && LexLe("fileA", "fileC")
    ensures !LexLe("fileB", "fileA") && !LexLe("fileC", "fileB") && !LexLe("fileC", "fileA")
  {
    assert LexLess("fileA", "fileB") && LexLess("fileB", "fileC") && LexLess("fileA", "fileC");
    LexLessAsymmetric("fileA", "fileB");
    LexLessAsymmetric("fileB", "fileC");
    LexLessAsymmetric("fileA", "fileC");
    assert "fileA" != "fileB" by { assert "fileA"[4] != "fileB"[4]; }
    assert "fileC" != "fileB" by { assert "fileC"[4] != "fileB"[4]; }
    assert "fileC" != "fileA" by { assert "fileC"[4] != "fileA"[4]; }
  }

  /** The items of the test suite, listed as fileB, fileA, fileC. */
  function FileA(): Node { Node(Some("fileA"), None, None, Some(200), None) }
  function FileB(): Node { Node(Some("fileB"), None, None, Some(100), None) }
  function FileC(): Node { Node(Some("fileC"), None, None, Some(50), None) }

  lemma SampleByName()
    ensures SortDirectoryContents([FileB(), FileA(), FileC()], Name, false) == Ok([FileA(), FileB(), FileC()])
  {
    SampleNamesOrder();
    SortMiddleFirst(FileB(), FileA(), FileC(), Name, false);
    SortOfKeyed(FileB(), FileA(), FileC(), Name, false, [FileA(), FileB(), FileC()]);
  }

  lemma SampleByNameReversed()
    ensures SortDirectoryContents([FileB(), FileA(), FileC()], Name, true) == Ok([FileC(), FileB(), FileA()])
  {
    SampleNamesOrder();
    SortLastFirst(FileB(), FileA(), FileC(), Name, true);
    SortOfKeyed(FileB(), FileA(), FileC(), Name, true, [FileC(), FileB(), FileA()]);
  }

  lemma SampleByTime()
    ensures SortDirectoryContents([FileB(), FileA(), FileC()], TimeModified, false) == Ok([FileC(), FileB(), FileA()])
  {
    SortLastFirst(FileB(), FileA(), FileC(), TimeModified, false);
    SortOfKeyed(FileB(), FileA(), FileC(), TimeModified, false, [FileC(), FileB(), FileA()]);
  }

  lemma SampleByTimeReversed()
    ensures SortDirectoryContents([FileB(), FileA(), FileC()], TimeModified, true) == Ok([FileA(), FileB(), FileC()])
  {
    SortMiddleFirst(FileB(), FileA(), FileC(), TimeModified, true);
    SortOfKeyed(FileB(), FileA(), FileC(), TimeModified, true, [FileA(), FileB(), FileC()]);
  }

  lemma SampleMissingKey()
    ensures SortDirectoryContents([], Name, false) == Ok([])
    ensures SortDirectoryContents([Node(Some("fileA"), None, None, None, None),
                                   Node(None, None, None, Some(100), None)], Name, false)
            == Err(KeyError("name"))
  {
    var items := [Node(Some("fileA"), None, None, None, None), Node(None, None, None, Some(100), None)];
    assert items[1] in items && !HasKey(items[1], Name);
  }
}
