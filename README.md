# pyls listing core in Dafny

`pyls` is an `ls` look-alike. It lists a file system that is stored as a nested JSON
document instead of reading a disk. This project models the listing core of that program:

- resolving the relative target path against the tree (`get_target_item`);
- filtering a directory's children by visibility and type (`filter_directory_contents`);
- sorting them by name or modification time, optionally reversed (`sort_directory_contents`);
- rendering them as one compact line or as one detail line per item (`print_directory_items`,
  `format_file_details`, `human_readable_size`);
- the decision `main` makes after parsing its flags: report a missing target, show a file
  target on its own, or filter, sort and render a directory.

In the model, a JSON record of the tree is a `Node`. Each of its keys is an optional field, and
having `contents` at all makes the record a directory. A raised exception is an `Err` value
of a `Result`, and the lines the run prints are the `lines` of an `Output`. The failure that
ends a run is the `failure` of that `Output`.

The modules follow the program's structure:

- `Wrappers` holds `Option` and `Result`.
- `Seqs` and `Strings` hold generic sequence facts, `str.split`, `str.join`, the order on
  `str`, `str(n)` and `str.ljust`.
- `Nodes` holds the tree.
- `PathResolver`, `ContentFilter`, `ContentSorter`, `SizeFormat`, `TimeFormat` and
  `DetailFormat` model the functions of `pyls/utils.py`.
- `Listing` models the listing part of `pyls/__main__.py` and `print_directory_items`.

`get_target_item` and `human_readable_size` are loops in the source. They are modelled as
methods with `while` loops, proved equal to the functions `Resolve` and `HumanReadable`. The rest
of the core builds values and is modelled as functions, with lemmas about them.

Some choices in the model:

- **Sorting.** Python's `sorted` is modelled as a stable insertion sort. Its contract says the
  result is a permutation of the input, is sorted, and keeps every group of equal keys in
  input order. `SortIsUnique` proves that this contract fixes the output completely.
- **Size.** `size /= 1024` divides exactly in binary floating point, so the printed number is
  the exact quotient rounded to tenths with ties to even. That is how `f"{x:.1f}"` rounds an
  exact binary value.
- **Time.** `datetime.fromtimestamp(t, tz=timezone.utc)` is modelled as floor division into
  days and seconds, then a proleptic Gregorian calendar. Years outside 1..9999 are an error,
  as `datetime` raises one.

Three behaviours of the program are easy to overlook. The model states each one:

- **Descending order.** `reverse=True` keeps records with equal keys in their input order,
  so it is not the ascending sort reversed. The two results differ when two different
  records share a key.
  - `SortDescending` proves the relation that does hold: reverse the input, sort ascending,
    reverse again.
  - `ReversedAscendingIsNotDescending` shows two different records with the same name on
    which the ascending sort reversed and `reverse=True` give different orders.
- **Partial output.** `print_directory_items` prints the detail lines one at a time. An item
  whose line cannot be formatted raises after the lines of the items before it are already
  written. `DetailLines` and `RenderShape` state this.
- **Shifting columns.** `{size:<6}` only pads, so the columns after the size move right when
  the size text is longer than six characters (`1023.0 B`). `FixedColumns` states the column
  positions when the size text fits in six characters.

## Model

| member | source | states |
|---|---|---|
| PathResolver.GetTargetItem | pyls/utils.py:113-141 | the loop returns exactly what `Resolve` says: the root for the empty path, otherwise the walk of the split path, or None |
| PathResolver.Walk | pyls/utils.py:128-137 | the definition of the walk over the split path; `WalkResult`, `WalkFailure`, `WalkAppend` and `WalkEmptySegment` state its properties |
| PathResolver.Resolve | pyls/utils.py:125-141 | the definition of `get_target_item`'s result; `GetTargetItem` is proved to return it, and the `Resolve` lemmas below state its properties |
| PathResolver.FirstMatch | pyls/utils.py:132 | the index found is the first child whose name is present, non-empty and equal to the segment; None means no child matches |
| PathResolver.Step | pyls/utils.py:131-136 | one step fails exactly when the node is a file or has no matching child; on success it is the first matching child of a directory |
| PathResolver.WalkAppend | pyls/utils.py:128-137 | walking `a + b` is walking `a`, then `b` from where `a` ended |
| PathResolver.WalkResult | pyls/utils.py:128-137 | a successful walk ends `|parts|` levels down, at a node named by the last segment |
| PathResolver.WalkFailure | pyls/utils.py:131-136 | once a prefix fails, or stops at a node it cannot descend from, every longer path fails |
| PathResolver.WalkEmptySegment | pyls/utils.py:132 | a path with an empty segment never resolves, because an empty name never matches |
| PathResolver.ResolveEmpty | pyls/utils.py:125-126 | the empty path resolves to the root |
| PathResolver.ResolveChild | pyls/utils.py:128-137 | resolving `path/seg` takes one more step from what `path` resolved to |
| PathResolver.ResolveEmptySegment | pyls/utils.py:128-137 | `a//b`, a trailing `/` and a leading `/` all resolve to None |
| PathResolver.ResolveResult | pyls/utils.py:128-137 | a resolved non-empty path ends at a descendant named by its last segment, as deep as the path has segments |
| PathResolver.ResolveSegments | pyls/utils.py:128-137 | a path joined from any number of separator-free segments resolves by walking exactly those segments |
| PathResolver.SampleWalks | pyls/tests/test_utils.py:100-145 | `get_target_item` on the test suite's tree: `''`, `dir1/file1` and `dir2` are found, the five other paths are not |
| PathResolver.SampleFirstOfTwins | pyls/utils.py:132 | of two siblings named `a`, `a` resolves to the first, and `a/x` is not found because the first is a file |
| ContentFilter.Visible | pyls/utils.py:84-85 | the definition of the hidden test: a present, non-empty name not starting with `.`; `FilterDirectoryContents` states what it admits |
| ContentFilter.Keep | pyls/utils.py:85-91 | the definition of a list comprehension; `KeepProperties` states what it keeps |
| ContentFilter.FilterDirectoryContents | pyls/utils.py:66-93 | the result keeps, in order, exactly the admitted children, each as often as it occurs; a file yields `[]`; `-A` without `--filter` returns the children unchanged |
| ContentFilter.KeepProperties | pyls/utils.py:85-91 | a list comprehension keeps exactly the items satisfying its condition, with their multiplicity and order |
| ContentFilter.KeepKeep | pyls/utils.py:84-91 | two successive comprehensions equal one comprehension with both conditions |
| ContentFilter.FilterIsOnePass | pyls/utils.py:84-91 | the two-stage filter equals one pass with the combined admission test |
| ContentFilter.FilterOrderIrrelevant | pyls/utils.py:84-91 | the hidden filter and the type filter commute |
| ContentFilter.FilterIdempotent | pyls/utils.py:66-93 | filtering the filtered children again changes nothing |
| ContentFilter.SampleFilters | pyls/tests/test_utils.py:27-52 | the five filter cases of the test suite |
| ContentSorter.Insert | pyls/utils.py:43 | inserting an item into a list adds exactly that item; `InsertionSortCorrect` states the order it produces |
| ContentSorter.InsertionSort | pyls/utils.py:43 | the sort keeps exactly the items it is given; `InsertionSortCorrect` and `SortIsUnique` state that it is the stable sort |
| ContentSorter.SortDirectoryContents | pyls/utils.py:42-46 | fails with `KeyError` naming the key exactly when some item lacks it; otherwise returns a sorted permutation that keeps equal keys in input order |
| ContentSorter.InsertionSortCorrect | pyls/utils.py:43 | the insertion sort is sorted and stable on items that all have the key |
| ContentSorter.SortedArrangementUnique | pyls/utils.py:43 | two sorted, stable arrangements of the same items are equal |
| ContentSorter.SortIsUnique | pyls/utils.py:43 | any sorted, stable permutation of the items is the sort's result |
| ContentSorter.SortIdempotent | pyls/utils.py:43 | sorting a sorted list returns it unchanged |
| ContentSorter.SortDescending | pyls/utils.py:43 | `reverse=True` equals reverse, sort ascending, reverse |
| ContentSorter.ReversedAscendingIsNotDescending | pyls/utils.py:43 | with two equal names, the ascending sort reversed differs from `reverse=True` |
| ContentSorter.TiesReverse | pyls/utils.py:43 | reversing a list reverses each of its groups of equal keys |
| ContentSorter.SampleByName | pyls/tests/test_utils.py:67-68 | `fileB, fileA, fileC` sorts by name to `fileA, fileB, fileC` |
| ContentSorter.SampleByTime | pyls/tests/test_utils.py:70-71 | sorted by time, the order is 50, 100, 200 |
| ContentSorter.SampleByNameReversed | pyls/tests/test_utils.py:73-74 | reversed by name, the order is `fileC, fileB, fileA` |
| ContentSorter.SampleByTimeReversed | pyls/tests/test_utils.py:76-77 | reversed by time, the order is 200, 100, 50 |
| ContentSorter.SampleMissingKey | pyls/tests/test_utils.py:79-86 | an item without a name raises `KeyError('name')`; the empty list sorts to itself |
| SizeFormat.HumanReadableSize | pyls/utils.py:144-168 | the loop over the units returns exactly `HumanReadable(size)` |
| SizeFormat.HumanReadable | pyls/utils.py:161-162 | raises exactly for a negative size |
| SizeFormat.SizeText | pyls/utils.py:164-168 | the definition of the text for a non-negative size; `SizeTextMeaning` and `PowerOfUnit` state what it says |
| SizeFormat.UnitIndex | pyls/utils.py:164-168 | the unit is the first whose next power of 1024 exceeds the size, or PB past TB |
| SizeFormat.RoundHalfEven | pyls/utils.py:166 | the result is within half of the exact quotient, and even on a tie |
| SizeFormat.FormatTenthsReadsBack | pyls/utils.py:166 | the printed number reads back as the count of tenths it was made from |
| SizeFormat.SizeTextMeaning | pyls/utils.py:164-168 | the text is a count of tenths within half a tenth of the scaled size, then the unit |
| SizeFormat.UnitOfPower | pyls/utils.py:164-168 | `1024^k` bytes fall in unit `k` |
| SizeFormat.PowerOfUnit | pyls/tests/test_utils.py:7-13 | `1024^k` bytes print as `1.0` of unit `k`, KB through PB |
| SizeFormat.SampleSizes | pyls/tests/test_utils.py:6-9 | 0, 1023 and 1124 bytes print as in the test suite |
| TimeFormat.LeapsStep | pyls/utils.py:108 | the leap-year count increases by one exactly at a Gregorian leap year |
| TimeFormat.YearOfUnique | pyls/utils.py:108 | a day number lies in exactly one year |
| TimeFormat.MonthFromUnique | pyls/utils.py:108 | a day of the year lies in exactly one month |
| TimeFormat.DateOf | pyls/utils.py:108 | the year, month and day of a day number form a valid date that counts back to that day number |
| TimeFormat.ToCivil | pyls/utils.py:108 | the broken-down UTC time is valid and converts back to the timestamp |
| TimeFormat.FromCivilInjective | pyls/utils.py:108 | distinct valid broken-down times have distinct timestamps |
| TimeFormat.CivilRoundTrip | pyls/utils.py:108 | every valid broken-down time is the time of its own timestamp |
| TimeFormat.TwoDigits | pyls/utils.py:108 | two decimal digits that read back as the number |
| TimeFormat.TimeText | pyls/utils.py:108 | `%b %d %H:%M` is twelve characters: month name, day, hour, minute in fixed places |
| TimeFormat.FormatTime | pyls/utils.py:108 | fails exactly when the year is outside 1..9999, with that year; otherwise twelve characters |
| TimeFormat.FormatTimeReadsBack | pyls/utils.py:108 | the time column reads back as the month, day, hour and minute of the timestamp |
| TimeFormat.TimestampRange | pyls/utils.py:108 | formatting succeeds exactly for timestamps -62135596800 through 253402300799 |
| TimeFormat.SampleEpoch | pyls/utils.py:108 | the default timestamp 0 prints as `Jan 01 00:00` |
| TimeFormat.SampleBeforeEpoch | pyls/utils.py:108 | timestamp -1 prints as `Dec 31 23:59` |
| TimeFormat.SampleLeapDay | pyls/utils.py:108 | 2000-02-29 12:34 prints as `Feb 29 12:34` |
| TimeFormat.SampleYearTooLarge | pyls/utils.py:108 | the first instant of year 10000 is refused with that year |
| Strings.Split | pyls/utils.py:128 | `str.split` yields at least one piece, and no piece holds the separator |
| Strings.JoinSplit | pyls/utils.py:128 | joining the pieces of a split gives the string back |
| Strings.SplitJoin | pyls/utils.py:63 | splitting a join of separator-free pieces gives the pieces back |
| Strings.LexLessMeaning | pyls/utils.py:43 | `str` order is a proper prefix, or a smaller code point where the strings first differ |
| Strings.LexLessTotal | pyls/utils.py:43 | any two strings are equal or ordered one way |
| Strings.LexLessIrreflexive | pyls/utils.py:43 | no string is less than itself |
| Strings.LexLessTransitive | pyls/utils.py:43 | the order on strings is transitive |
| Strings.NatToStringValue | pyls/utils.py:166 | the decimal numeral reads back as the number |
| Strings.PadRight | pyls/utils.py:110 | `ljust`: the string, then spaces up to the width, never truncated |
| DetailFormat.FormatFileDetails | pyls/utils.py:96-110 | fails exactly on a negative size (checked first) or a time outside the years; the defaults stand in for missing fields |
| DetailFormat.DetailLineFields | pyls/utils.py:110 | the line is the permissions, two spaces, the size padded to six, two spaces, the time, two spaces, the name |
| DetailFormat.DetailLayout | pyls/utils.py:106-110 | a formatted line is the detail line of the node's field texts |
| DetailFormat.FixedColumns | pyls/utils.py:110 | with ten-character permissions and a size of at most six characters, the time is at columns 20-31 and the name from column 34 |
| DetailFormat.SampleDefaults | pyls/utils.py:106-110 | a record, file or directory, with only the name `notes` prints `----------  0.0 B   Jan 01 00:00  notes` |
| Listing.DirectoryItems | pyls/__main__.py:60-62 | a directory's items are some order of its filtered children, or a sort failure; `DirectoryListing` states which order |
| Listing.ItemsToShow | pyls/__main__.py:51-62 | the items fail with target-not-found exactly when the path does not resolve; a file target is shown alone |
| Listing.Run | pyls/__main__.py:51-63 | a run that fails before rendering prints nothing, and it fails that way exactly when there are no items to show |
| Listing.ExitMessage | pyls/__main__.py:53-54 | exactly the target-not-found failure exits with `Error: Target item not found.` |
| Listing.Render | pyls/utils.py:49-63 | the compact rendering is one line that never fails; the detail rendering writes at most one line per item, all of them unless a line fails |
| Listing.CompactLine | pyls/utils.py:63 | the definition of the compact line: the displayed names joined by spaces; `CompactLineSplitsBack` states that it splits back |
| Listing.SortKeyFor | pyls/__main__.py:61 | `-t` sorts by `time_modified`, otherwise by `name` |
| Listing.Names | pyls/utils.py:63 | one displayed name per item, `UNKNOWN` for a missing one |
| Listing.DetailLines | pyls/utils.py:59-61 | the lines of the leading items that format, then the error of the first that does not |
| Listing.NotFoundAborts | pyls/__main__.py:51-54 | the run fails with target-not-found exactly when the path does not resolve; it then prints nothing and exits with `Error: Target item not found.` |
| Listing.FileTargetListedAlone | pyls/__main__.py:57-58 | a file target is listed alone, whatever `-A`, `--filter`, `-t` and `-r` say |
| Listing.DirectoryListing | pyls/__main__.py:59-62 | a directory lists exactly its admitted children, sorted and stable, or fails naming the key an admitted child lacks |
| Listing.FilterThenSort | pyls/__main__.py:60-62 | the listing is the sort of a single filtering pass, so a dropped child cannot make the sort fail |
| Listing.EmptyPathListsRoot | pyls/__main__.py:33 | an omitted target lists the root |
| Listing.CompactLineSplitsBack | pyls/utils.py:63 | the compact line splits back into the names when none holds a space |
| Listing.RenderShape | pyls/utils.py:59-63 | the compact rendering is one line; the detail rendering prints up to the first failing item and fails there |
| Listing.EmptyDirectory | pyls/utils.py:59-63 | any target that resolves to an empty directory prints one empty line, or no line at all with `-l` |

## Left out

- `load_json_file` and the `--path` option: reading and decoding the JSON file is I/O. The tree
  is a parameter, and the three load failures that `main` turns into exit messages are not
  modelled.
- Argument parsing, logging, `print` and `sys.exit` are not modelled. The parsed flags are the
  `Flags` datatype; the printed lines and the failure that ends the run are the `Output`.
  The exit status and the traceback printed for an uncaught exception are not modelled.
- The `TypeError` cases that come from dynamic typing are not modelled. These are a non-integer
  size, a `contents` key whose value is `null`, and a name or timestamp of the wrong type or
  of mixed types in a sort. Every `Node` field has its one type. A JSON `true` size, which
  `isinstance` accepts as an `int`, is not modelled either.
- The sort accepts only the two keys the command line can select. An arbitrary `sort_by`
  string is not modelled.
- HumanReadableSize: computes the exact quotient. Python's `size /= 1024` rounds once the size
  exceeds 2^53 bytes, and an integer too large for a float raises `OverflowError`; the model
  does neither.
- FormatTime: assumes the C locale for the `%b` month names. It uses the limits of
  `datetime` (years 1..9999) and not the narrower `time_t` limits some platforms impose on
  `fromtimestamp`.
