/**
 * One line of the long (`-l`) listing: permissions, size, modification time and name,
 * separated by two spaces, with permissive defaults for missing fields.
 */
module DetailFormat {
  import opened Wrappers
  import opened Strings
  import opened Nodes
  import opened SizeFormat
  import opened TimeFormat

  /** What can go wrong while formatting one item; the size is formatted first. */
  datatype DetailError = SizeFailed(size: SizeError) | TimeFailed(time: TimeError)

  /** The permissions column, ten dashes when absent. */
  function Permissions(n: Node): string {
    n.permissions.GetOr("----------")
  }

  /** The size in bytes, 0 when absent. */
  function SizeOf(n: Node): int {
    n.size.GetOr(0)
  }

  /** The modification timestamp, the epoch when absent. */
  function TimeOf(n: Node): int {
    n.timeModified.GetOr(0)
  }

  /** `format_file_details`. */
  function FormatFileDetails(n: Node): (r: Result<string, DetailError>)
    ensures r.Err? <==> SizeOf(n) < 0 || FormatTime(TimeOf(n)).Err?
    ensures SizeOf(n) < 0 ==> r == Err(SizeFailed(NegativeSize))
    ensures SizeOf(n) >= 0 && FormatTime(TimeOf(n)).Err? ==> r == Err(TimeFailed(FormatTime(TimeOf(n)).error))
  {
    match HumanReadable(SizeOf(n))
    case Err(e) => Err(SizeFailed(e))
    case Ok(size) =>
      match FormatTime(TimeOf(n))
      case Err(e) => Err(TimeFailed(e))
      case Ok(time) => Ok(Permissions(n) + "  " + PadRight(size, 6) + "  " + time + "  " + DisplayName(n))
  }

  /** The detail line of the given field texts. */
  function DetailLine(perm: string, size: string, time: string, name: string): string {
    perm + "  " + PadRight(size, 6) + "  " + time + "  " + name
  }

  /** A detail line, field by field: the permissions, the size left-justified in at least six
      columns, the time, the name, each pair two spaces apart. */
  lemma {:induction false} DetailLineFields(perm: string, size: string, time: string, name: string)
    requires |time| == 12
    ensures var line := DetailLine(perm, size, time, name);
            var w := if |size| >= 6 then |size| else 6;
            && |line| == |perm| + w + |name| + 18
            && line[..|perm|] == perm
            && line[|perm|..|perm| + 2] == "  "
            && line[|perm| + 2..|perm| + 2 + |size|] == size
            && (forall i :: |perm| + 2 + |size| <= i < |perm| + w + 2 ==> line[i] == ' ')
            && line[|perm| + w + 2..|perm| + w + 4] == "  "
            && line[|perm| + w + 4..|perm| + w + 16] == time
            && line[|perm| + w + 16..|perm| + w + 18] == "  "
            && line[|perm| + w + 18..] == name
  {
    var col := PadRight(size, 6);
    var w := |col|;
    var line := DetailLine(perm, size, time, name);
    var head := perm + "  " + col;
    var tail := "  " + time + "  " + name;
    assert line == head + tail;
    assert line[..|head|] == head && line[|head|..] == tail;
    assert head[|perm| + 2..] == col;
    assert head[|perm| + 2..|perm| + 2 + |size|] == col[..|size|];
    forall i | |perm| + 2 + |size| <= i < |perm| + w + 2
      ensures line[i] == ' '
    {
      assert line[i] == head[i] == col[i - |perm| - 2];
    }
    assert tail[2..14] == time && tail[16..] == name;
  }

  /** The line of a node is the detail line of its field texts. */
  lemma DetailLayout(n: Node)
    requires FormatFileDetails(n).Ok?
    ensures SizeOf(n) >= 0 && FormatTime(TimeOf(n)).Ok?
    ensures FormatFileDetails(n).value ==
            DetailLine(Permissions(n), SizeText(SizeOf(n)), FormatTime(TimeOf(n)).value, DisplayName(n))
  {
  }

  /** With ten-character permissions and a size text of at most six characters, the columns
      line up: the time starts at column 20 and the name at column 34. */
  lemma FixedColumns(n: Node)
    requires FormatFileDetails(n).Ok?
    requires |Permissions(n)| == 10 && |SizeText(SizeOf(n))| <= 6
    ensures var line := FormatFileDetails(n).value;
            line[20..32] == FormatTime(TimeOf(n)).value && line[34..] == DisplayName(n)
  {
    DetailLayout(n);
    DetailLineFields(Permissions(n), SizeText(SizeOf(n)), FormatTime(TimeOf(n)).value, DisplayName(n));
  }

  /** A record with no permissions, size or time: every default shows. Whether the record is
      a file or a directory does not matter. */
  lemma SampleDefaults(n: Node)
    requires n.name == Some("notes") && n.permissions.None? && n.size.None? && n.timeModified.None?
    ensures FormatFileDetails(n) == Ok("----------  0.0 B   Jan 01 00:00  notes")
  {
    assert SizeOf(n) == 0 && TimeOf(n) == 0 && Permissions(n) == "----------" && DisplayName(n) == "notes";
    SampleZero();
    assert HumanReadable(SizeOf(n)) == Ok("0.0 B");
    SampleEpoch(TimeOf(n));
    FieldTexts(n, "0.0 B", "Jan 01 00:00");
    DefaultsLine();
  }

  /** The line of a node whose size and time format successfully. */
  lemma FieldTexts(n: Node, size: string, time: string)
    requires HumanReadable(SizeOf(n)) == Ok(size) && FormatTime(TimeOf(n)) == Ok(time)
    ensures FormatFileDetails(n) == Ok(DetailLine(Permissions(n), size, time, DisplayName(n)))
  {
  }

  lemma DefaultsLine()
    ensures DetailLine("----------", "0.0 B", "Jan 01 00:00", "notes") == "----------  0.0 B   Jan 01 00:00  notes"
  {
    assert PadRight("0.0 B", 6) == "0.0 B ";
  }
}
