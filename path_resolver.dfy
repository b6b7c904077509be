/**
 * Path resolution (`get_target_item`): walk a `/`-separated relative path down from the
 * root, taking at each step the first child whose name equals the segment.
 */
module PathResolver {
  import opened Wrappers
  import opened Strings
  import opened Nodes

  /** `item.get('name') and item['name'] == part`: a missing or empty name never matches. */
  predicate NameMatches(n: Node, part: string) {
    n.name.Some? && n.name.value != "" && n.name.value == part
  }

  /** The position of the first item named `part`, as found by `next(...)` over the list. */
  function FirstMatch(items: seq<Node>, part: string): (r: Option<nat>)
    ensures r.Some? ==> r.value < |items| && NameMatches(items[r.value], part)
    ensures r.Some? ==> forall j :: 0 <= j < r.value ==> !NameMatches(items[j], part)
    ensures r.None? ==> forall j :: 0 <= j < |items| ==> !NameMatches(items[j], part)
    decreases |items|
  {
    if items == [] then None
    else if NameMatches(items[0], part) then Some(0)
    else match FirstMatch(items[1..], part)
      case None => None
      case Some(i) => Some(i + 1)
  }

  /** A file cannot be descended into, nor a directory without a child named `part`. */
  predicate CannotDescend(n: Node, part: string) {
    IsFile(n) || forall j :: 0 <= j < |n.contents.value| ==> !NameMatches(n.contents.value[j], part)
  }

  /** One step of the walk: descend into the first child named `part`, if `n` is a directory. */
  function Step(n: Node, part: string): (r: Option<Node>)
    ensures r.None? <==> CannotDescend(n, part)
    ensures r.Some? ==> IsDir(n) && r.value in n.contents.value && NameMatches(r.value, part)
    ensures r.Some? ==> exists i :: 0 <= i < |n.contents.value| && r.value == n.contents.value[i] &&
                          forall j :: 0 <= j < i ==> !NameMatches(n.contents.value[j], part)
  {
    if n.contents.None? then None
    else match FirstMatch(n.contents.value, part)
      case None => None
      case Some(i) => Some(n.contents.value[i])
  }

  /** The node reached from `n` by following `parts` in order, or None. */
  function Walk(n: Node, parts: seq<string>): Option<Node>
    decreases |parts|
  {
    if parts == [] then Some(n)
    else match Step(n, parts[0])
      case None => None
      case Some(m) => Walk(m, parts[1..])
  }

  /** What `get_target_item(root, path)` returns. */
  function Resolve(root: Node, path: string): Option<Node> {
    if path == "" then Some(root) else Walk(root, Split(path, '/'))
  }

  /** `get_target_item`: the loop over the segments, reassigning `current`. */
  method GetTargetItem(root: Node, path: string) returns (r: Option<Node>)
    ensures r == Resolve(root, path)
    ensures path == "" ==> r == Some(root)
  {
    if path == "" {
      return Some(root);
    }
    var parts := Split(path, '/');
    var current := root;
    var i := 0;
    while i < |parts|
      invariant 0 <= i <= |parts|
      invariant Walk(root, parts) == Walk(current, parts[i..])
    {
      assert parts[i..][0] == parts[i] && parts[i..][1..] == parts[i + 1..];
      if current.contents.None? {
        return None;
      }
      var found := FirstMatch(current.contents.value, parts[i]);
      if found.None? {
        return None;
      }
      current := current.contents.value[found.value];
      i := i + 1;
    }
    return Some(current);
  }

  /** Walking `a + b` is walking `a`, then `b` from where `a` ended. */
  lemma {:induction false} WalkAppend(n: Node, a: seq<string>, b: seq<string>)
    ensures Walk(n, a + b) == match Walk(n, a) case None => None case Some(m) => Walk(m, b)
    decreases |a|
  {
    if a == [] {
      assert a + b == b;
    } else {
      assert (a + b)[0] == a[0] && (a + b)[1..] == a[1..] + b;
      match Step(n, a[0])
      case None =>
      case Some(m) => WalkAppend(m, a[1..], b);
    }
  }

  /** A successful walk ends at a node `|parts|` levels down, named by the last segment. */
  lemma {:induction false} WalkResult(n: Node, parts: seq<string>, t: Node)
    requires Walk(n, parts) == Some(t)
    ensures DescendantAt(t, n, |parts|)
    ensures parts != [] ==> parts[|parts| - 1] != "" && t.name == Some(parts[|parts| - 1])
    decreases |parts|
  {
    if parts != [] {
      var i := FirstMatch(n.contents.value, parts[0]).value;
      var m := n.contents.value[i];
      WalkResult(m, parts[1..], t);
    }
  }

  /** A walk fails when a segment names no child, or tries to descend through a file. */
  lemma {:induction false} WalkFailure(n: Node, a: seq<string>, part: string, b: seq<string>)
    ensures Walk(n, a) == None ==> Walk(n, a + b) == None
    ensures (match Walk(n, a) case None => false case Some(m) => CannotDescend(m, part))
            ==> Walk(n, a + [part] + b) == None
  {
    WalkAppend(n, a, b);
    WalkAppend(n, a, [part] + b);
    assert a + [part] + b == a + ([part] + b);
    assert ([part] + b)[0] == part;
  }

  /** An empty segment never matches, because an empty or missing name never matches. */
  lemma {:induction false} WalkEmptySegment(n: Node, parts: seq<string>)
    requires "" in parts
    ensures Walk(n, parts) == None
    decreases |parts|
  {
    if parts[0] != "" {
      match Step(n, parts[0])
      case None =>
      case Some(m) => WalkEmptySegment(m, parts[1..]);
    }
  }

  /** The empty path resolves to the root itself. */
  lemma ResolveEmpty(root: Node)
    ensures Resolve(root, "") == Some(root)
  {
  }

  /** Appending `/seg` to a non-empty path takes one more step from the node it resolved to. */
  lemma {:induction false} ResolveChild(root: Node, path: string, seg: string)
    requires path != "" && '/' !in seg
    ensures Resolve(root, path + "/" + seg) ==
            match Resolve(root, path) case None => None case Some(m) => Step(m, seg)
  {
    SplitAppend(path, seg, '/');
    SplitWithoutSeparator(seg, '/');
    WalkAppend(root, Split(path, '/'), [seg]);
    match Resolve(root, path)
    case None =>
    case Some(m) =>
      assert Walk(m, [seg]) == match Step(m, seg) case None => None case Some(c) => Walk(c, []);
  }

  /** A path with an empty segment (`a//b`, a trailing `/`, a leading `/`) resolves to None. */
  lemma {:induction false} ResolveEmptySegment(root: Node, a: string, b: string)
    ensures Resolve(root, a + "//" + b) == None
    ensures Resolve(root, a + "/") == None
    ensures Resolve(root, "/" + b) == None
  {
    SplitAppend(a, "/" + b, '/');
    assert a + "//" + b == a + ['/'] + ("/" + b);
    SplitAppend("", b, '/');
    assert "/" + b == [] + ['/'] + b;
    assert Split("/" + b, '/')[0] == "";
    assert "" in Split(a + "//" + b, '/');
    WalkEmptySegment(root, Split(a + "//" + b, '/'));
    SplitAppend(a, "", '/');
    assert a + "/" == a + ['/'] + "";
    assert Split(a + "/", '/')[|Split(a + "/", '/')| - 1] == "";
    WalkEmptySegment(root, Split(a + "/", '/'));
    WalkEmptySegment(root, Split("/" + b, '/'));
  }

  /** A successful non-empty path ends at a node named by its last segment. */
  lemma {:induction false} ResolveResult(root: Node, path: string, t: Node)
    requires Resolve(root, path) == Some(t)
    ensures DescendantAt(t, root, if path == "" then 0 else |Split(path, '/')|)
    ensures path != "" ==> var parts := Split(path, '/'); t.name == Some(parts[|parts| - 1])
  {
    if path != "" {
      WalkResult(root, Split(path, '/'), t);
    }
  }

  /** The tree of the test suite, and what resolution returns on it. */
  function SampleTree(): Node {
    Node(Some(""), None, None, None, Some([
      Node(Some("dir1"), None, None, None, Some([
        Node(Some("file1"), None, None, None, None),
        Node(Some("file2"), None, None, None, None)])),
      Node(Some("dir2"), None, None, None, Some([
        Node(Some("file3"), None, None, None, None)])),
      Node(Some("file4"), None, None, None, None)]))
  }

  /** A non-empty path joined from separator-free segments is split into exactly those
      segments, and resolving it walks them in order (an empty segment among them then fails
      the walk, by `WalkEmptySegment`). */
  lemma ResolveSegments(root: Node, parts: seq<string>)
    requires parts != [] && Join(parts, '/') != ""
    requires forall i :: 0 <= i < |parts| ==> '/' !in parts[i]
    ensures Resolve(root, Join(parts, '/')) == Walk(root, parts)
  {
    SplitJoin(parts, '/');
  }

  /** Two siblings share the name `a`; the first one is a file and the second a directory. */
  function TwinTree(): Node {
    Node(Some(""), None, None, None, Some([
      Node(Some("a"), None, Some(1), None, None),
      Node(Some("a"), None, None, None, Some([
        Node(Some("x"), None, None, None, None)]))]))
  }

  /** Resolution takes the first of two siblings with the same name, so `a/x` does not
      reach the child of the second `a`. */
  lemma SampleFirstOfTwins()
    ensures Resolve(TwinTree(), "a") == Some(TwinTree().contents.value[0])
    ensures Resolve(TwinTree(), "a/x") == None
  {
    SplitWithoutSeparator("a", '/');
    SplitWithoutSeparator("x", '/');
    SplitAppend("a", "x", '/');
    assert "a/x" == "a" + ['/'] + "x";
    assert FirstMatch(TwinTree().contents.value, "a") == Some(0);
    assert Step(TwinTree(), "a") == Some(TwinTree().contents.value[0]);
  }

  /** A path of two separator-free segments splits into them. */
  lemma SplitTwo(a: string, b: string)
    requires '/' !in a && '/' !in b
    ensures Split(a + "/" + b, '/') == [a, b]
  {
    SplitWithoutSeparator(a, '/');
    SplitWithoutSeparator(b, '/');
    SplitAppend(a, b, '/');
  }

  /** A path of three separator-free segments splits into them. */
  lemma SplitThree(a: string, b: string, c: string)
    requires '/' !in a && '/' !in b && '/' !in c
    ensures Split(a + "/" + b + "/" + c, '/') == [a, b, c]
  {
    SplitTwo(b, c);
    SplitWithoutSeparator(a, '/');
    SplitAppend(a, b + "/" + c, '/');
    assert a + "/" + b + "/" + c == a + ['/'] + (b + "/" + c);
    assert [a] + [b, c] == [a, b, c];
  }

  /** The assertions of the test suite on its sample tree. */
  lemma SampleWalks()
    ensures Resolve(SampleTree(), "") == Some(SampleTree())
    ensures Resolve(SampleTree(), "dir1/file1") == Some(Node(Some("file1"), None, None, None, None))
    ensures Resolve(SampleTree(), "dir2") == Some(SampleTree().contents.value[1])
    ensures Resolve(SampleTree(), "dir1/nonexistent_file") == None
    ensures Resolve(SampleTree(), "nonexistent_dir") == None
    ensures Resolve(SampleTree(), "dir1/nonexistent_dir/file") == None
    ensures Resolve(SampleTree(), "file4/file_inside") == None
    ensures Resolve(SampleTree(), "dir1/dir2/file5") == None
  {
    SampleFile1();
    SampleDir2();
    SampleMissingFile();
    SampleMissingAtTop();
    SampleMissingDir();
    SampleThroughFile();
    SampleDirInDir();
  }

  lemma SampleFile1()
    ensures Resolve(SampleTree(), "dir1/file1") == Some(Node(Some("file1"), None, None, None, None))
  {
    SplitFile1();
    WalksFound();
  }

  lemma SplitFile1()
    ensures Split("dir1/file1", '/') == ["dir1", "file1"]
  {
    assert "dir1" + "/" + "file1" == "dir1/file1";
    SplitTwo("dir1", "file1");
  }

  lemma SampleMissingFile()
    ensures Resolve(SampleTree(), "dir1/nonexistent_file") == None
  {
    SplitMissingFile();
    WalksMissingFile();
  }

  lemma SplitMissingFile()
    ensures Split("dir1/nonexistent_file", '/') == ["dir1", "nonexistent_file"]
  {
    assert "dir1" + "/" + "nonexistent_file" == "dir1/nonexistent_file";
    SplitTwo("dir1", "nonexistent_file");
  }

  lemma SampleMissingDir()
    ensures Resolve(SampleTree(), "dir1/nonexistent_dir/file") == None
  {
    SplitMissingDir();
    WalksMissingDir();
  }

  lemma SplitMissingDir()
    ensures Split("dir1/nonexistent_dir/file", '/') == ["dir1", "nonexistent_dir", "file"]
  {
    assert "dir1" + "/" + "nonexistent_dir" + "/" + "file" == "dir1/nonexistent_dir/file";
    SplitThree("dir1", "nonexistent_dir", "file");
  }

  lemma SampleThroughFile()
    ensures Resolve(SampleTree(), "file4/file_inside") == None
  {
    SplitThroughFile();
    WalksThroughFile();
  }

  lemma SplitThroughFile()
    ensures Split("file4/file_inside", '/') == ["file4", "file_inside"]
  {
    assert "file4" + "/" + "file_inside" == "file4/file_inside";
    SplitTwo("file4", "file_inside");
  }

  lemma SampleDirInDir()
    ensures Resolve(SampleTree(), "dir1/dir2/file5") == None
  {
    SplitDirInDir();
    WalksDirInDir();
  }

  lemma SplitDirInDir()
    ensures Split("dir1/dir2/file5", '/') == ["dir1", "dir2", "file5"]
  {
    assert "dir1" + "/" + "dir2" + "/" + "file5" == "dir1/dir2/file5";
    SplitThree("dir1", "dir2", "file5");
  }

  lemma SampleDir2()
    ensures Resolve(SampleTree(), "dir2") == Some(SampleTree().contents.value[1])
  {
    SplitWithoutSeparator("dir2", '/');
    WalksFound();
  }

  lemma SampleMissingAtTop()
    ensures Resolve(SampleTree(), "nonexistent_dir") == None
  {
    SplitWithoutSeparator("nonexistent_dir", '/');
    WalksMissingAtTop();
  }

  // The same cases on the split segments.

  lemma WalksFound()
    ensures Walk(SampleTree(), ["dir1", "file1"]) == Some(Node(Some("file1"), None, None, None, None))
    ensures Walk(SampleTree(), ["dir2"]) == Some(SampleTree().contents.value[1])
  {
  }

  lemma WalksMissingFile()
    ensures Walk(SampleTree(), ["dir1", "nonexistent_file"]) == None
  {
  }

  lemma WalksMissingDir()
    ensures Walk(SampleTree(), ["dir1", "nonexistent_dir", "file"]) == None
  {
  }

  lemma WalksDirInDir()
    ensures Walk(SampleTree(), ["dir1", "dir2", "file5"]) == None
  {
  }

  lemma WalksMissingAtTop()
    ensures Walk(SampleTree(), ["nonexistent_dir"]) == None
  {
  }

  lemma WalksThroughFile()
    ensures Walk(SampleTree(), ["file4", "file_inside"]) == None
  {
  }
}
