/**
 * One record of the in-memory tree. Every key of the JSON object is optional; having a
 * `contents` key makes the record a directory, even when the list is empty.
 */
module Nodes {
  import opened Wrappers

  datatype Node = Node(
    name: Option<string>,
    permissions: Option<string>,
    size: Option<int>,
    timeModified: Option<int>,
    contents: Option<seq<Node>>)

  /** `'contents' in item`. */
  predicate IsDir(n: Node) {
    n.contents.Some?
  }

  /** `'contents' not in item`. */
  predicate IsFile(n: Node) {
    n.contents.None?
  }

  /** The name used for display, `item.get('name', 'UNKNOWN')`. */
  function DisplayName(n: Node): string {
    n.name.GetOr("UNKNOWN")
  }

  /** `t` is reached from `n` by descending exactly `depth` levels. */
  ghost predicate DescendantAt(t: Node, n: Node, depth: nat)
    decreases depth
  {
    if depth == 0 then t == n
    else n.contents.Some? &&
         exists i :: 0 <= i < |n.contents.value| && DescendantAt(t, n.contents.value[i], depth - 1)
  }
}
