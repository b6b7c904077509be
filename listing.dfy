/**
 * The listing decision of `main` and the rendering of `print_directory_items`: resolve the
 * target; report a missing one; show a file target on its own; otherwise filter the
 * directory's contents, sort what is left, and render it compactly or in detail.
 */
module Listing {
  import opened Wrappers
  import opened Seqs
  import opened Strings
  import opened Nodes
  import opened PathResolver
  import opened ContentFilter
  import opened ContentSorter
  import opened DetailFormat

  /** The parsed command line: `-A`, `-l`, `-r`, `-t`, `--filter` and the target path,
      which is `""` when omitted. */
  datatype Flags = Flags(
    all: bool, long: bool, reverse: bool, byTime: bool, filter: Option<FileType>, target: string)

  /** Why a listing produced no items. */
  datatype ListingError = TargetNotFound | SortFailed(sort: SortError)

  /** Why the output stopped: the listing failed, or an item's detail line did. */
  datatype Failure = ListingFailed(listing: ListingError) | DetailLineFailed(detail: DetailError)

  /** The lines written to standard output, and the failure that ended the run, if any. */
  datatype Output = Output(lines: seq<string>, failure: Option<Failure>)

  /** The message the run exits with when the target cannot be resolved. */
  const NotFoundMessage := "Error: Target item not found."

  /** The message `sys.exit` prints for a failure `main` handles; the other failures are
      exceptions that escape `main`, and their tracebacks are not modelled. */
  function ExitMessage(f: Failure): (m: Option<string>)
    ensures m.Some? <==> f == ListingFailed(TargetNotFound)
    ensures m.Some? ==> m.value == NotFoundMessage
  {
    if f == ListingFailed(TargetNotFound) then Some(NotFoundMessage) else None
  }

  /** The key `-t` selects. */
  function SortKeyFor(byTime: bool): (k: SortKey)
    ensures KeyName(k) == if byTime then "time_modified" else "name"
  {
    if byTime then TimeModified else Name
  }

  /** The children of directory `dir` to show: filtered, then sorted. */
  function DirectoryItems(dir: Node, flags: Flags): (r: Result<seq<Node>, ListingError>)
    ensures r.Err? ==> r.error.SortFailed?
    ensures r.Ok? ==> multiset(r.value) == multiset(FilterDirectoryContents(dir, flags.filter, flags.all))
  {
    var shown := FilterDirectoryContents(dir, flags.filter, flags.all);
    match SortDirectoryContents(shown, SortKeyFor(flags.byTime), flags.reverse)
    case Err(e) => Err(SortFailed(e))
    case Ok(sorted) => Ok(sorted)
  }

  /** The items `main` hands to `print_directory_items`, or why there are none. */
  function ItemsToShow(root: Node, flags: Flags): (r: Result<seq<Node>, ListingError>)
    ensures r == Err(TargetNotFound) <==> Resolve(root, flags.target).None?
    ensures r.Ok? ==> match Resolve(root, flags.target)
                      case None => false
                      case Some(t) => IsFile(t) ==> r.value == [t]
  {
    match Resolve(root, flags.target)
    case None => Err(TargetNotFound)
    case Some(target) => if IsFile(target) then Ok([target]) else DirectoryItems(target, flags)
  }

  /** The displayed names, `UNKNOWN` standing for a missing one. */
  function Names(items: seq<Node>): (r: seq<string>)
    ensures |r| == |items| && forall i :: 0 <= i < |items| ==> r[i] == DisplayName(items[i])
  {
    seq(|items|, i requires 0 <= i < |items| => DisplayName(items[i]))
  }

  /** The compact rendering: the names on one line, separated by single spaces. */
  function CompactLine(items: seq<Node>): string {
    Join(Names(items), ' ')
  }

  /** The detail rendering: one line per item, in order, up to the first item whose line
      cannot be formatted, and that item's error. */
  function DetailLines(items: seq<Node>): (r: (seq<string>, Option<DetailError>))
    ensures |r.0| <= |items|
    ensures forall i :: 0 <= i < |r.0| ==> FormatFileDetails(items[i]) == Ok(r.0[i])
    ensures r.1.None? ==> |r.0| == |items|
    ensures r.1.Some? ==> |r.0| < |items| && FormatFileDetails(items[|r.0|]) == Err(r.1.value)
    decreases |items|
  {
    if items == [] then ([], None)
    else match FormatFileDetails(items[0])
      case Err(e) => ([], Some(e))
      case Ok(line) =>
        var rest := DetailLines(items[1..]);
        LinesShift(items, FormatFileDetails, line, rest.0);
        ([line] + rest.0, rest.1)
  }

  /** Lines matching the tail of a list, after one matching its head, match the whole list. */
  lemma LinesShift<R, E>(items: seq<Node>, format: Node -> Result<R, E>, line: R, rest: seq<R>)
    requires items != [] && format(items[0]) == Ok(line) && |rest| < |items|
    requires forall i :: 0 <= i < |rest| ==> format(items[1..][i]) == Ok(rest[i])
    ensures forall i :: 0 <= i < |rest| + 1 ==> format(items[i]) == Ok(([line] + rest)[i])
  {
    forall i | 0 <= i < |rest| + 1
      ensures format(items[i]) == Ok(([line] + rest)[i])
    {
      if i > 0 {
        assert items[i] == items[1..][i - 1];
      }
    }
  }

  /** `print_directory_items(items, show_detailed_info=long)`. */
  function Render(items: seq<Node>, long: bool): (r: Output)
    ensures !long ==> |r.lines| == 1 && r.failure.None?
    ensures long ==> |r.lines| <= |items| && (r.failure.None? ==> |r.lines| == |items|)
    ensures r.failure.Some? ==> r.failure.value.DetailLineFailed?
  {
    if long then
      var (lines, failed) := DetailLines(items);
      Output(lines, if failed.Some? then Some(DetailLineFailed(failed.value)) else None)
    else Output([CompactLine(items)], None)
  }

  /** One run of the listing. */
  function Run(root: Node, flags: Flags): (r: Output)
    ensures r.failure.Some? && r.failure.value.ListingFailed? ==> r.lines == []
    ensures r.failure.Some? && r.failure.value.ListingFailed? <==> ItemsToShow(root, flags).Err?
  {
    match ItemsToShow(root, flags)
    case Err(e) => Output([], Some(ListingFailed(e)))
    case Ok(items) => Render(items, flags.long)
  }

  /** The run fails on the target exactly when the path does not resolve, and then it prints
      nothing. */
  lemma NotFoundAborts(root: Node, flags: Flags)
    ensures Run(root, flags).failure == Some(ListingFailed(TargetNotFound)) <==> Resolve(root, flags.target).None?
    ensures Resolve(root, flags.target).None? ==> Run(root, flags).lines == []
    ensures Resolve(root, flags.target).None? ==> ExitMessage(Run(root, flags).failure.value) == Some(NotFoundMessage)
  {
    if Resolve(root, flags.target).Some? {
      match ItemsToShow(root, flags)
      case Err(e) =>
        assert e.SortFailed?;
      case Ok(items) =>
        var (lines, failed) := DetailLines(items);
    }
  }

  /** A file target is listed alone, so `-A`, `--filter`, `-t` and `-r` change nothing. */
  lemma FileTargetListedAlone(root: Node, flags: Flags, target: Node, other: Flags)
    requires Resolve(root, flags.target) == Some(target) && IsFile(target)
    requires other.target == flags.target
    ensures ItemsToShow(root, flags) == Ok([target])
    ensures ItemsToShow(root, other) == ItemsToShow(root, flags)
  {
  }

  /** A directory target lists exactly its admitted children, each as often as it occurs,
      in order of the selected key (reversed by `-r`), ties in their original order; or it
      fails naming the key when an admitted child lacks it. */
  lemma DirectoryListing(root: Node, flags: Flags, target: Node)
    requires Resolve(root, flags.target) == Some(target) && IsDir(target)
    ensures var k := SortKeyFor(flags.byTime);
            var shown := FilterDirectoryContents(target, flags.filter, flags.all);
            && (ItemsToShow(root, flags).Err? <==>
                  exists x :: x in ContentsOf(target) && Admitted(x, flags.filter, flags.all) && !HasKey(x, k))
            && (ItemsToShow(root, flags).Err? ==> ItemsToShow(root, flags) == Err(SortFailed(KeyError(KeyName(k)))))
            && (ItemsToShow(root, flags).Ok? ==>
                  var items := ItemsToShow(root, flags).value;
                  && multiset(items) == multiset(shown)
                  && (forall x :: x in items <==> x in ContentsOf(target) && Admitted(x, flags.filter, flags.all))
                  && Sorted(items, k, flags.reverse)
                  && KeepsTieOrder(items, shown, k))
  {
    var k := SortKeyFor(flags.byTime);
    var shown := FilterDirectoryContents(target, flags.filter, flags.all);
    var sorted := SortDirectoryContents(shown, k, flags.reverse);
    if sorted.Ok? {
      forall x
        ensures x in sorted.value <==> x in shown
      {
        assert x in sorted.value <==> x in multiset(sorted.value);
        assert x in shown <==> x in multiset(shown);
      }
    }
  }

  /** Filtering comes first: the listing is the sort of the filtered children, so it equals
      sorting with the filter applied in a single pass, and a child the filter drops can
      never make the sort fail. */
  lemma FilterThenSort(root: Node, flags: Flags, target: Node)
    requires Resolve(root, flags.target) == Some(target) && IsDir(target)
    ensures var k := SortKeyFor(flags.byTime);
            var once := Keep(ContentsOf(target), AdmitTest(flags.filter, flags.all));
            ItemsToShow(root, flags) == (
              match SortDirectoryContents(once, k, flags.reverse)
              case Err(e) => Err(SortFailed(e))
              case Ok(s) => Ok(s))
  {
    FilterIsOnePass(target, flags.filter, flags.all);
  }

  /** An omitted target path lists the root itself. */
  lemma EmptyPathListsRoot(root: Node, flags: Flags)
    requires flags.target == ""
    ensures IsFile(root) ==> ItemsToShow(root, flags) == Ok([root])
    ensures IsDir(root) ==> ItemsToShow(root, flags) == DirectoryItems(root, flags)
  {
    ResolveEmpty(root);
  }

  /** The compact line splits back into the displayed names when none holds a space. */
  lemma CompactLineSplitsBack(items: seq<Node>)
    requires items != []
    requires forall i :: 0 <= i < |items| ==> ' ' !in DisplayName(items[i])
    ensures Split(CompactLine(items), ' ') == Names(items)
  {
    SplitJoin(Names(items), ' ');
  }

  /** The compact rendering is one line and never fails; the detail rendering writes one
      line per item until the first item it cannot format, where the run stops. */
  lemma RenderShape(items: seq<Node>, long: bool)
    ensures !long ==> Render(items, long) == Output([CompactLine(items)], None)
    ensures long ==> (
              var out := Render(items, long);
              && |out.lines| <= |items|
              && (forall i :: 0 <= i < |out.lines| ==> FormatFileDetails(items[i]) == Ok(out.lines[i]))
              && (out.failure.None? <==> forall i :: 0 <= i < |items| ==> FormatFileDetails(items[i]).Ok?)
              && (out.failure.Some? ==> out.failure.value == DetailLineFailed(FormatFileDetails(items[|out.lines|]).error)))
  {
    if long {
      var (lines, failed) := DetailLines(items);
      if failed.Some? {
        assert !FormatFileDetails(items[|lines|]).Ok?;
      }
    }
  }

  /** An empty directory lists as one empty line, or, with `-l`, as no line at all. */
  lemma EmptyDirectory(root: Node, flags: Flags, d: Node)
    requires Resolve(root, flags.target) == Some(d) && d.contents == Some([])
    ensures Run(root, flags) == Output(if flags.long then [] else [""], None)
  {
    assert FilterDirectoryContents(d, flags.filter, flags.all) == [];
    assert Names([]) == [];
  }
}
