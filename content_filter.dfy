/**
 * Content filtering (`filter_directory_contents`): drop hidden entries unless asked not
 * to, then keep only files or only directories when a type filter is given.
 */
module ContentFilter {
  import opened Wrappers
  import opened Seqs
  import opened Nodes

  /** The values `--filter` accepts. */
  datatype FileType = File | Dir

  /** `item.get('name') and not item['name'].startswith('.')`. */
  predicate Visible(n: Node) {
    n.name.Some? && n.name.value != "" && n.name.value[0] != '.'
  }

  predicate OfType(n: Node, t: FileType) {
    match t
    case File => IsFile(n)
    case Dir => IsDir(n)
  }

  /** Whether an item survives both stages of the filter. */
  predicate Admitted(n: Node, filterType: Option<FileType>, includeHidden: bool) {
    (includeHidden || Visible(n)) && (filterType.None? || OfType(n, filterType.value))
  }

  /** The condition of the type comprehension (`'contents' not in item`, `'contents' in item`). */
  function TypeTest(t: FileType): Node -> bool {
    x => OfType(x, t)
  }

  /** Both conditions of the filter as one. */
  function AdmitTest(filterType: Option<FileType>, includeHidden: bool): Node -> bool {
    x => Admitted(x, filterType, includeHidden)
  }

  /** The conjunction of two conditions. */
  function Both(p: Node -> bool, q: Node -> bool): Node -> bool {
    x => p(x) && q(x)
  }

  /** `[item for item in items if p(item)]`. */
  function Keep(items: seq<Node>, p: Node -> bool): seq<Node>
    decreases |items|
  {
    if items == [] then []
    else (if p(items[0]) then [items[0]] else []) + Keep(items[1..], p)
  }

  /** A comprehension keeps, in order, exactly the items satisfying its condition, each as
      often as it occurs. */
  lemma {:induction false} KeepProperties(items: seq<Node>, p: Node -> bool)
    ensures var r := Keep(items, p);
            && (forall x :: x in r <==> x in items && p(x))
            && (forall x :: multiset(r)[x] == if p(x) then multiset(items)[x] else 0)
            && IsSubsequence(r, items)
    decreases |items|
  {
    if items != [] {
      KeepProperties(items[1..], p);
      var rest := Keep(items[1..], p);
      assert items == [items[0]] + items[1..];
      assert multiset(items) == multiset{items[0]} + multiset(items[1..]);
      if p(items[0]) {
        assert ([items[0]] + rest)[1..] == rest;
      } else {
        assert [] + rest == rest;
      }
    }
  }

  /** The directory's `contents`, or `[]` when it has none (`directory.get('contents', [])`). */
  function ContentsOf(dir: Node): seq<Node> {
    if dir.contents.Some? then dir.contents.value else []
  }

  /** `filter_directory_contents(directory, filter_type, include_hidden)`. */
  function FilterDirectoryContents(dir: Node, filterType: Option<FileType>, includeHidden: bool): (r: seq<Node>)
    ensures IsFile(dir) ==> r == []
    ensures IsSubsequence(r, ContentsOf(dir)) && |r| <= |ContentsOf(dir)|
    ensures forall x :: x in r <==> x in ContentsOf(dir) && Admitted(x, filterType, includeHidden)
    ensures forall x :: multiset(r)[x] ==
              if Admitted(x, filterType, includeHidden) then multiset(ContentsOf(dir))[x] else 0
    ensures includeHidden && filterType.None? ==> r == ContentsOf(dir)
  {
    var contents := ContentsOf(dir);
    var shown := if includeHidden then contents else Keep(contents, Visible);
    var r := if filterType.None? then shown else Keep(shown, TypeTest(filterType.value));
    KeepProperties(contents, Visible);
    KeepProperties(shown, TypeTest(filterType.GetOr(File)));
    SubsequenceReflexive(contents);
    SubsequenceReflexive(shown);
    SubsequenceTransitive(r, shown, contents);
    SubsequenceLength(r, contents);
    r
  }

  /** Two successive comprehensions are one comprehension with both conditions. */
  lemma {:induction false} KeepKeep(items: seq<Node>, p: Node -> bool, q: Node -> bool)
    ensures Keep(Keep(items, p), q) == Keep(items, Both(p, q))
    decreases |items|
  {
    if items != [] {
      KeepKeep(items[1..], p, q);
      var rest := Keep(items[1..], p);
      if p(items[0]) {
        assert ([items[0]] + rest)[0] == items[0] && ([items[0]] + rest)[1..] == rest;
      } else {
        assert [] + rest == rest;
      }
    }
  }

  /** Keeping everything the condition accepts changes nothing. */
  lemma {:induction false} KeepAll(items: seq<Node>, p: Node -> bool)
    requires forall x :: x in items ==> p(x)
    ensures Keep(items, p) == items
    decreases |items|
  {
    if items != [] {
      KeepAll(items[1..], p);
      assert items == [items[0]] + items[1..];
    }
  }

  /** Comprehensions whose conditions agree on every item are equal. */
  lemma {:induction false} KeepEquivalent(items: seq<Node>, p: Node -> bool, q: Node -> bool)
    requires forall x :: p(x) == q(x)
    ensures Keep(items, p) == Keep(items, q)
    decreases |items|
  {
    if items != [] {
      KeepEquivalent(items[1..], p, q);
    }
  }

  /** The filter is a single pass that keeps, in order, exactly the admitted items. */
  lemma {:induction false} FilterIsOnePass(dir: Node, filterType: Option<FileType>, includeHidden: bool)
    ensures FilterDirectoryContents(dir, filterType, includeHidden) ==
            Keep(ContentsOf(dir), AdmitTest(filterType, includeHidden))
  {
    var contents := ContentsOf(dir);
    var admit := AdmitTest(filterType, includeHidden);
    if includeHidden {
      if filterType.None? {
        KeepAll(contents, admit);
      } else {
        KeepEquivalent(contents, TypeTest(filterType.value), admit);
      }
    } else {
      if filterType.None? {
        KeepEquivalent(contents, Visible, admit);
      } else {
        var test := TypeTest(filterType.value);
        KeepKeep(contents, Visible, test);
        KeepEquivalent(contents, Both(Visible, test), admit);
      }
    }
  }

  /** Applying the type filter before the hidden filter gives the same list. */
  lemma {:induction false} FilterOrderIrrelevant(items: seq<Node>, t: FileType)
    ensures Keep(Keep(items, Visible), TypeTest(t)) == Keep(Keep(items, TypeTest(t)), Visible)
  {
    var test := TypeTest(t);
    KeepKeep(items, Visible, test);
    KeepKeep(items, test, Visible);
    KeepEquivalent(items, Both(Visible, test), Both(test, Visible));
  }

  /** Filtering a directory that holds only the result of a filter gives that result back. */
  lemma {:induction false} FilterIdempotent(dir: Node, filterType: Option<FileType>, includeHidden: bool)
    ensures var once := FilterDirectoryContents(dir, filterType, includeHidden);
            FilterDirectoryContents(dir.(contents := Some(once)), filterType, includeHidden) == once
  {
    var once := FilterDirectoryContents(dir, filterType, includeHidden);
    FilterIsOnePass(dir.(contents := Some(once)), filterType, includeHidden);
    KeepAll(once, AdmitTest(filterType, includeHidden));
  }

  /** The directory of the test suite: file1 (a directory), file2, .hidden_file. */
  function SampleDirectory(): Node {
    Node(None, None, None, None, Some([
      Node(Some("file1"), None, None, None, Some([])),
      Node(Some("file2"), None, None, None, None),
      Node(Some(".hidden_file"), None, None, None, None)]))
  }

  lemma SampleFilters()
    ensures FilterDirectoryContents(SampleDirectory(), None, false) == SampleDirectory().contents.value[..2]
    ensures FilterDirectoryContents(SampleDirectory(), None, true) == SampleDirectory().contents.value
    ensures FilterDirectoryContents(SampleDirectory(), Some(File), false) == [SampleDirectory().contents.value[1]]
    ensures FilterDirectoryContents(SampleDirectory(), Some(Dir), false) == [SampleDirectory().contents.value[0]]
    ensures FilterDirectoryContents(Node(None, None, None, None, None), None, false) == []
  {
    var c := SampleDirectory().contents.value;
    var shown := Keep(c, Visible);
    assert shown == [c[0], c[1]];
    assert [c[0], c[1]][1..] == [c[1]];
    assert Keep([c[1]], TypeTest(File)) == [c[1]];
    assert Keep([c[1]], TypeTest(Dir)) == [];
  }
}
