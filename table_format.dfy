/** Column alignment of a `|`-delimited table (`alignOutputTableColumnWidths`).
    Every row is split on `|` into trimmed fields; each column gets the width
    of its longest field; every row but the second is rebuilt with its fields
    padded to those widths, and the second row becomes a dash separator. */
module TableFormat {
  import opened Text

  const Pipe: string := "|"
  const CellSeparator: string := " | "

  /** `line.split("|").map((col) => col.trim())` */
  function Fields(line: string): seq<string> {
    var parts := Split(line, Pipe);
    seq(|parts|, i requires 0 <= i < |parts| => Trim(parts[i]))
  }

  /** Each field is trimmed and holds no `|`. */
  lemma FieldsAreClean(line: string)
    ensures |Fields(line)| >= 1
    ensures forall i :: 0 <= i < |Fields(line)| ==> '|' !in Fields(line)[i] && IsTrimmed(Fields(line)[i])
  {
    var parts := Split(line, Pipe);
    SplitPartsAvoidSeparator(line, '|');
    forall i | 0 <= i < |parts| ensures '|' !in Trim(parts[i]) {
      assert parts[i] in parts;
      TrimAvoids(parts[i], '|');
    }
  }

  function Max(a: nat, b: nat): nat {
    if a < b then b else a
  }

  /** `columnWidths[i] || 0`: a column the array does not reach yet counts as 0. */
  function WidthAt(widths: seq<nat>, i: nat): nat {
    if i < |widths| then widths[i] else 0
  }

  /** What the inner `forEach` does to the widths for one line's fields. */
  function Widen(widths: seq<nat>, fields: seq<string>): seq<nat> {
    seq(Max(|widths|, |fields|), i requires 0 <= i =>
      Max(WidthAt(widths, i), if i < |fields| then |fields[i]| else 0))
  }

  /** The trimmed fields of every line. */
  function FieldRows(lines: seq<string>): seq<seq<string>> {
    seq(|lines|, j requires 0 <= j < |lines| => Fields(lines[j]))
  }

  /** Widths over rows of fields, folding `Widen` from the first row on. */
  function WidthsOf(rows: seq<seq<string>>): seq<nat>
    decreases |rows|
  {
    if rows == [] then [] else Widen(WidthsOf(rows[..|rows| - 1]), rows[|rows| - 1])
  }

  /** The width vector after the outer `forEach` has visited every line. */
  function ColumnWidths(lines: seq<string>): seq<nat> {
    WidthsOf(FieldRows(lines))
  }

  lemma {:induction false} WidthsOfAreMaxima(rows: seq<seq<string>>)
    ensures forall j :: 0 <= j < |rows| ==> |rows[j]| <= |WidthsOf(rows)|
    ensures forall j, i :: 0 <= j < |rows| && 0 <= i < |rows[j]| ==> |rows[j][i]| <= WidthsOf(rows)[i]
    ensures forall i :: 0 <= i < |WidthsOf(rows)| ==>
      exists j :: 0 <= j < |rows| && i < |rows[j]| && |rows[j][i]| == WidthsOf(rows)[i]
    decreases |rows|
  {
    if rows != [] {
      var n := |rows| - 1;
      var init := rows[..n];
      WidthsOfAreMaxima(init);
      var w0 := WidthsOf(init);
      var last := rows[n];
      var w := WidthsOf(rows);
      assert w == Widen(w0, last);
      forall j | 0 <= j < |rows| ensures |rows[j]| <= |w| {
        if j < n {
          assert rows[j] == init[j];
        }
      }
      forall j, i | 0 <= j < |rows| && 0 <= i < |rows[j]|
        ensures |rows[j][i]| <= w[i]
      {
        if j < n {
          assert rows[j] == init[j];
          assert |init[j][i]| <= w0[i];
        }
        assert w[i] == Max(WidthAt(w0, i), if i < |last| then |last[i]| else 0);
      }
      forall i | 0 <= i < |w|
        ensures exists j :: 0 <= j < |rows| && i < |rows[j]| && |rows[j][i]| == w[i]
      {
        if i < |last| && w[i] == |last[i]| {
          assert 0 <= n < |rows| && i < |rows[n]|;
        } else {
          var j :| 0 <= j < |init| && i < |init[j]| && |init[j][i]| == w0[i];
          assert init[j] == rows[j];
        }
      }
    } else {
      assert WidthsOf(rows) == [];
    }
  }

  /** Width `i` is the largest length of field `i` over the lines that have a
      field `i` (the second line included), and there are exactly as many
      widths as the line with the most fields has fields. */
  lemma ColumnWidthsAreMaxima(lines: seq<string>)
    ensures forall j :: 0 <= j < |lines| ==> |Fields(lines[j])| <= |ColumnWidths(lines)|
    ensures forall j, i :: 0 <= j < |lines| && 0 <= i < |Fields(lines[j])| ==>
      |Fields(lines[j])[i]| <= ColumnWidths(lines)[i]
    ensures forall i :: 0 <= i < |ColumnWidths(lines)| ==>
      exists j :: 0 <= j < |lines| && i < |Fields(lines[j])| && |Fields(lines[j])[i]| == ColumnWidths(lines)[i]
  {
    var rows := FieldRows(lines);
    WidthsOfAreMaxima(rows);
    forall j | 0 <= j < |lines| ensures |Fields(lines[j])| <= |ColumnWidths(lines)| {
      assert rows[j] == Fields(lines[j]);
    }
    forall j, i | 0 <= j < |lines| && 0 <= i < |Fields(lines[j])|
      ensures |Fields(lines[j])[i]| <= ColumnWidths(lines)[i]
    {
      assert rows[j] == Fields(lines[j]);
      assert |rows[j][i]| <= WidthsOf(rows)[i];
    }
    forall i | 0 <= i < |ColumnWidths(lines)|
      ensures exists j :: 0 <= j < |lines| && i < |Fields(lines[j])| && |Fields(lines[j])[i]| == ColumnWidths(lines)[i]
    {
      var j :| 0 <= j < |rows| && i < |rows[j]| && |rows[j][i]| == WidthsOf(rows)[i];
      assert rows[j] == Fields(lines[j]);
    }
  }

  lemma ColumnWidthsSnoc(lines: seq<string>, l: nat)
    requires l < |lines|
    ensures ColumnWidths(lines[..l + 1]) == Widen(ColumnWidths(lines[..l]), Fields(lines[l]))
  {
    var rows := FieldRows(lines[..l + 1]);
    assert rows[..l] == FieldRows(lines[..l]);
    assert rows[l] == Fields(lines[l]);
  }

  /** The inner `forEach`: every width raised to the length of the line's
      field in that column, the vector extended where the line is longer. */
  method RaiseColumnWidths(widths: seq<nat>, columns: seq<string>) returns (columnWidths: seq<nat>)
    ensures columnWidths == Widen(widths, columns)
  {
    columnWidths := widths;
    for colIndex := 0 to |columns|
      invariant |columnWidths| == Max(|widths|, colIndex)
      invariant forall i :: 0 <= i < |columnWidths| ==>
        columnWidths[i] == Max(WidthAt(widths, i), if i < colIndex then |columns[i]| else 0)
    {
      if colIndex < |columnWidths| {
        columnWidths := columnWidths[colIndex := Max(columnWidths[colIndex], |columns[colIndex]|)];
      } else {
        columnWidths := columnWidths + [|columns[colIndex]|];
      }
    }
  }

  /** The widths as the source computes them: one pass over the lines, and
      for each line one pass over its fields. */
  method ComputeColumnWidths(lines: seq<string>) returns (columnWidths: seq<nat>)
    ensures columnWidths == ColumnWidths(lines)
  {
    columnWidths := [];
    for l := 0 to |lines|
      invariant columnWidths == ColumnWidths(lines[..l])
    {
      var columns := Fields(lines[l]);
      columnWidths := RaiseColumnWidths(columnWidths, columns);
      ColumnWidthsSnoc(lines, l);
    }
    assert lines[..|lines|] == lines;
  }

  /** The part of the separator one column contributes: nothing for a
      zero width, otherwise `width + 2` dashes closed by `|`. */
  function Segment(width: nat): string {
    if width == 0 then [] else Repeat('-', width + 2) + Pipe
  }

  function SeparatorLine(widths: seq<nat>): string
    decreases |widths|
  {
    if widths == [] then Pipe
    else SeparatorLine(widths[..|widths| - 1]) + Segment(widths[|widths| - 1])
  }

  /** Total length of the separator's segments: `width + 3` per nonzero width. */
  function SegmentsLength(widths: seq<nat>): nat
    decreases |widths|
  {
    if widths == [] then 0
    else SegmentsLength(widths[..|widths| - 1]) + |Segment(widths[|widths| - 1])|
  }

  function NonzeroCount(widths: seq<nat>): nat
    decreases |widths|
  {
    if widths == [] then 0
    else NonzeroCount(widths[..|widths| - 1]) + (if widths[|widths| - 1] == 0 then 0 else 1)
  }

  /** The separator starts with `|`, holds only `|` and `-`, has one `|`
      more than there are nonzero widths, and its length is one plus
      `width + 3` for every nonzero width. */
  lemma {:induction false} SeparatorLineShape(widths: seq<nat>)
    ensures |SeparatorLine(widths)| == 1 + SegmentsLength(widths)
    ensures SeparatorLine(widths)[0] == '|'
    ensures forall k :: 0 <= k < |SeparatorLine(widths)| ==>
      SeparatorLine(widths)[k] == '|' || SeparatorLine(widths)[k] == '-'
    ensures Count(SeparatorLine(widths), '|') == 1 + NonzeroCount(widths)
  {
    SeparatorLineLength(widths);
    SeparatorLineChars(widths);
    SeparatorLineBars(widths);
  }

  lemma {:induction false} SeparatorLineLength(widths: seq<nat>)
    ensures |SeparatorLine(widths)| == 1 + SegmentsLength(widths)
    decreases |widths|
  {
    if widths != [] {
      SeparatorLineLength(widths[..|widths| - 1]);
    }
  }

  predicate IsRuleChar(c: char) {
    c == '|' || c == '-'
  }

  lemma {:induction false} SeparatorLineChars(widths: seq<nat>)
    ensures |SeparatorLine(widths)| >= 1 && SeparatorLine(widths)[0] == '|'
    ensures forall k :: 0 <= k < |SeparatorLine(widths)| ==> IsRuleChar(SeparatorLine(widths)[k])
    decreases |widths|
  {
    if widths != [] {
      var init := widths[..|widths| - 1];
      var front := SeparatorLine(init);
      var seg := Segment(widths[|widths| - 1]);
      SeparatorLineChars(init);
      assert SeparatorLine(widths) == front + seg;
      forall k | 0 <= k < |seg| ensures IsRuleChar(seg[k]) {
      }
      RuleCharsAppend(front, seg);
    }
  }

  lemma RuleCharsAppend(a: string, b: string)
    requires |a| >= 1 && a[0] == '|'
    requires forall k :: 0 <= k < |a| ==> IsRuleChar(a[k])
    requires forall k :: 0 <= k < |b| ==> IsRuleChar(b[k])
    ensures (a + b)[0] == '|'
    ensures forall k :: 0 <= k < |a + b| ==> IsRuleChar((a + b)[k])
  {
    forall k | 0 <= k < |a + b| ensures IsRuleChar((a + b)[k]) {
      if k >= |a| {
        assert (a + b)[k] == b[k - |a|];
      }
    }
  }

  lemma {:induction false} SeparatorLineBars(widths: seq<nat>)
    ensures Count(SeparatorLine(widths), '|') == 1 + NonzeroCount(widths)
    decreases |widths|
  {
    if widths != [] {
      var init := widths[..|widths| - 1];
      var w := widths[|widths| - 1];
      SeparatorLineBars(init);
      CountAppend(SeparatorLine(init), Segment(w), '|');
      SegmentBars(w);
    }
  }

  lemma SegmentBars(w: nat)
    ensures Count(Segment(w), '|') == if w == 0 then 0 else 1
  {
    if w != 0 {
      var dashes := Repeat('-', w + 2);
      CountAppend(dashes, Pipe, '|');
      assert '|' !in dashes;
      assert Count(Pipe, '|') == 1;
    }
  }

  /** The separator as the source builds it: a loop appending to a string. */
  method BuildSeparatorLine(columnWidths: seq<nat>) returns (separatingLine: string)
    ensures separatingLine == SeparatorLine(columnWidths)
  {
    separatingLine := Pipe;
    for i := 0 to |columnWidths|
      invariant separatingLine == SeparatorLine(columnWidths[..i])
    {
      SeparatorLineSnoc(columnWidths, i);
      if columnWidths[i] == 0 {
        continue;
      }
      separatingLine := separatingLine + Repeat('-', columnWidths[i] + 2);
      separatingLine := separatingLine + Pipe;
    }
    assert columnWidths[..|columnWidths|] == columnWidths;
  }

  lemma SeparatorLineSnoc(widths: seq<nat>, i: nat)
    requires i < |widths|
    ensures SeparatorLine(widths[..i + 1]) == SeparatorLine(widths[..i]) + Segment(widths[i])
    ensures widths[i] == 0 ==> SeparatorLine(widths[..i + 1]) == SeparatorLine(widths[..i])
  {
    assert widths[..i + 1][..i] == widths[..i];
    if widths[i] == 0 {
      assert SeparatorLine(widths[..i]) + [] == SeparatorLine(widths[..i]);
    }
  }

  /** `columns.map((col, index) => col.padEnd(columnWidths[index]))` */
  function PaddedFields(fields: seq<string>, widths: seq<nat>): seq<string> {
    seq(|fields|, i requires 0 <= i < |fields| => PadEnd(fields[i], WidthAt(widths, i)))
  }

  /** One row rebuilt: padded fields joined with `" | "`, then
      `substring(1, length - 1)`. */
  function RebuildLine(line: string, widths: seq<nat>): string {
    RebuildRow(Fields(line), widths)
  }

  function RebuildRow(fields: seq<string>, widths: seq<nat>): string {
    var joined := Join(PaddedFields(fields, widths), CellSeparator);
    Substring(joined, 1, |joined| - 1)
  }

  /** The `lines.map(...)` of the source: every row rebuilt, the second one
      left empty for the separator. */
  function EqualizedLines(lines: seq<string>, widths: seq<nat>): seq<string> {
    seq(|lines|, i requires 0 <= i < |lines| => if i == 1 then [] else RebuildLine(lines[i], widths))
  }

  /** `rows[1] = row` on a JavaScript array: it replaces the second element,
      or extends a shorter array to two elements (a hole at index 0, which
      `join` renders as the empty string). */
  function SetSecond(rows: seq<string>, row: string): seq<string> {
    if |rows| >= 2 then rows[1 := row]
    else if |rows| == 1 then rows + [row]
    else [[], row]
  }

  function AlignedTable(lines: seq<string>): seq<string> {
    var widths := ColumnWidths(lines);
    SetSecond(EqualizedLines(lines, widths), SeparatorLine(widths))
  }

  /** `alignOutputTableColumnWidths(lines)`. The input is a sequence value,
      so the caller's rows are left as they were. */
  method AlignOutputTableColumnWidths(lines: seq<string>) returns (equalizedLines: seq<string>)
    ensures equalizedLines == AlignedTable(lines)
    ensures |equalizedLines| == if |lines| < 2 then 2 else |lines|
    ensures equalizedLines[1] == SeparatorLine(ColumnWidths(lines))
  {
    var columnWidths := ComputeColumnWidths(lines);
    var separatingLine := BuildSeparatorLine(columnWidths);
    equalizedLines := EqualizedLines(lines, columnWidths);
    equalizedLines := SetSecond(equalizedLines, separatingLine);
  }

  /** The shape of the aligned table: at least two rows, the separator at
      index 1, and every other row rebuilt from its own line and the widths
      alone; an empty input gets an empty first row. */
  lemma AlignedTableShape(lines: seq<string>)
    ensures |AlignedTable(lines)| == if |lines| < 2 then 2 else |lines|
    ensures AlignedTable(lines)[1] == SeparatorLine(ColumnWidths(lines))
    ensures forall k :: 0 <= k < |lines| && k != 1 ==>
      AlignedTable(lines)[k] == RebuildLine(lines[k], ColumnWidths(lines))
    ensures lines == [] ==> AlignedTable(lines)[0] == []
  {
  }

  /** In every rebuilt row, field `i` is padded with trailing spaces to
      exactly width `i`: its trimmed content comes first, spaces after. */
  lemma RebuiltFieldsPadded(lines: seq<string>, k: nat)
    requires k < |lines|
    ensures var fields := Fields(lines[k]);
      var widths := ColumnWidths(lines);
      var padded := PaddedFields(fields, widths);
      |padded| == |fields| <= |widths|
      && forall i :: 0 <= i < |fields| ==>
        |padded[i]| == widths[i] && padded[i][..|fields[i]|] == fields[i]
        && forall j :: |fields[i]| <= j < widths[i] ==> padded[i][j] == ' '
  {
    ColumnWidthsAreMaxima(lines);
    var fields := Fields(lines[k]);
    var widths := ColumnWidths(lines);
    FieldsAreClean(lines[k]);
    assert |fields| - 1 < |widths|;
  }

  /** The inner cells of a rebuilt row, each with one space on either side. */
  function Spaced(cells: seq<string>): seq<string> {
    seq(|cells|, i requires 0 <= i < |cells| => " " + cells[i] + " ")
  }

  /** `"|" + " c1 |" + " c2 |" + ...`: a row whose border fields are empty. */
  function Bordered(cells: seq<string>): string {
    Join([[]] + Spaced(cells) + [[]], Pipe)
  }

  /** Sum of `|c| + 3` over the cells. */
  function CellsLength(cells: seq<string>): nat
    decreases |cells|
  {
    if cells == [] then 0 else |cells[0]| + 3 + CellsLength(cells[1..])
  }

  lemma {:induction false} JoinSpacedCells(cells: seq<string>)
    ensures " " + Join(cells + [[]], CellSeparator) == Join(Spaced(cells) + [[]], Pipe) + " "
    ensures |Join(Spaced(cells) + [[]], Pipe)| == CellsLength(cells)
    decreases |cells|
  {
    if cells == [] {
      assert cells + [[]] == [[]];
      assert Spaced(cells) + [[]] == [[]];
    } else {
      var c := cells[0];
      var rest := cells[1..];
      JoinSpacedCells(rest);
      var plain := Join(rest + [[]], CellSeparator);
      var spaced := Join(Spaced(rest) + [[]], Pipe);
      assert (cells + [[]])[1..] == rest + [[]];
      assert |cells + [[]]| >= 2 && (cells + [[]])[0] == c;
      assert Join(cells + [[]], CellSeparator) == c + CellSeparator + plain;
      assert Spaced(cells)[0] == " " + c + " ";
      assert (Spaced(cells) + [[]])[1..] == Spaced(rest) + [[]];
      assert Join(Spaced(cells) + [[]], Pipe) == " " + c + " " + Pipe + spaced;
      assert " " + plain == spaced + " ";
      calc {
        Join(Spaced(cells) + [[]], Pipe) + " ";
        " " + c + " " + Pipe + (spaced + " ");
        " " + c + " " + Pipe + (" " + plain);
        " " + (c + CellSeparator + plain);
      }
    }
  }

  /** Joining padded fields with `" | "` when the border fields are empty:
      a space around the bordered row. */
  lemma JoinWithEmptyBorders(cells: seq<string>)
    ensures Join([[]] + cells + [[]], CellSeparator) == " " + Bordered(cells) + " "
    ensures |Bordered(cells)| == 1 + CellsLength(cells)
  {
    JoinSpacedCells(cells);
    var plain := Join(cells + [[]], CellSeparator);
    var spaced := Join(Spaced(cells) + [[]], Pipe);
    JoinAfterEmpty(cells + [[]], CellSeparator);
    assert [[]] + cells + [[]] == [[]] + (cells + [[]]);
    JoinAfterEmpty(Spaced(cells) + [[]], Pipe);
    assert [[]] + Spaced(cells) + [[]] == [[]] + (Spaced(cells) + [[]]);
    SpacesAroundPipe(plain, spaced);
  }

  /** An empty first part contributes only the separator. */
  lemma JoinAfterEmpty(parts: seq<string>, sep: string)
    requires |parts| >= 1
    ensures Join([[]] + parts, sep) == sep + Join(parts, sep)
  {
    JoinCons([], parts, sep);
  }

  lemma SpacesAroundPipe(plain: string, spaced: string)
    requires " " + plain == spaced + " "
    ensures CellSeparator + plain == " " + (Pipe + spaced) + " "
  {
    assert CellSeparator + plain == " " + Pipe + (" " + plain);
    assert " " + (Pipe + spaced) + " " == " " + Pipe + (spaced + " ");
  }

  /** A bordered row splits on `|` into its spaced cells between two empty
      border parts. */
  lemma SplitBordered(cells: seq<string>)
    requires forall i :: 0 <= i < |cells| ==> '|' !in cells[i]
    ensures Split(Bordered(cells), Pipe) == [[]] + Spaced(cells) + [[]]
  {
    var pieces := [[]] + Spaced(cells) + [[]];
    forall i | 0 <= i < |pieces| ensures '|' !in pieces[i] {
      if 0 < i < |pieces| - 1 {
        assert pieces[i] == " " + cells[i - 1] + " ";
      }
    }
    SplitJoin(pieces, '|');
  }

  /** A trimmed field padded with whitespace and given one space on either
      side trims back to the field. */
  lemma TrimSpacedCell(field: string, cell: string)
    requires IsTrimmed(field)
    requires |field| <= |cell| && cell[..|field|] == field && AllWhitespace(cell[|field|..])
    ensures Trim(" " + cell + " ") == field
  {
    var spaces := cell[|field|..];
    assert cell == field + spaces;
    assert " " + cell + " " == " " + field + (spaces + " ");
    TrimWrapped(" ", field, spaces + " ");
  }

  /** Cells that are trimmed fields padded with whitespace, written as a
      bordered row, split and trim back to the fields with the two empty
      borders. */
  lemma FieldsOfBordered(inner: seq<string>, cells: seq<string>)
    requires |inner| == |cells|
    requires forall i :: 0 <= i < |cells| ==> '|' !in cells[i] && IsTrimmed(inner[i])
    requires forall i :: 0 <= i < |cells| ==>
      |inner[i]| <= |cells[i]| && cells[i][..|inner[i]|] == inner[i] && AllWhitespace(cells[i][|inner[i]|..])
    ensures Fields(Bordered(cells)) == [[]] + inner + [[]]
  {
    SplitBordered(cells);
    var pieces := [[]] + Spaced(cells) + [[]];
    var fields := [[]] + inner + [[]];
    forall i | 0 <= i < |pieces| ensures Trim(pieces[i]) == fields[i] {
      if 0 < i < |pieces| - 1 {
        assert pieces[i] == " " + cells[i - 1] + " ";
        TrimSpacedCell(inner[i - 1], cells[i - 1]);
      } else {
        assert pieces[i] == [];
        TrimWrapped([], [], []);
      }
    }
  }

  /** A row whose border fields are empty and whose border columns have
      width 0 is rebuilt as the bordered row of its inner padded fields. */
  lemma RebuildRowBordered(fields: seq<string>, widths: seq<nat>)
    requires |fields| >= 2 && fields[0] == [] && fields[|fields| - 1] == []
    requires WidthAt(widths, 0) == 0 && WidthAt(widths, |fields| - 1) == 0
    ensures RebuildRow(fields, widths) == Bordered(PaddedFields(fields, widths)[1..|fields| - 1])
    ensures |RebuildRow(fields, widths)| ==
      1 + CellsLength(PaddedFields(fields, widths)[1..|fields| - 1])
  {
    var n := |fields|;
    var padded := PaddedFields(fields, widths);
    var cells := padded[1..n - 1];
    assert padded[0] == [] && padded[n - 1] == [];
    EmptyBorders(padded);
    JoinWithEmptyBorders(cells);
    var joined := Join(padded, CellSeparator);
    assert joined == " " + Bordered(cells) + " ";
    DropEnds(joined);
    assert joined[1..|joined| - 1] == Bordered(cells);
  }

  /** Rebuilding clean fields (trimmed, without `|`) whose borders are empty
      and sit in width-0 columns: splitting the row on `|` and trimming gives
      the fields back. */
  lemma RebuildRowRoundTrip(fields: seq<string>, widths: seq<nat>)
    requires |fields| >= 2 && fields[0] == [] && fields[|fields| - 1] == []
    requires forall i :: 0 <= i < |fields| ==> '|' !in fields[i] && IsTrimmed(fields[i])
    requires WidthAt(widths, 0) == 0 && WidthAt(widths, |fields| - 1) == 0
    ensures Fields(RebuildRow(fields, widths)) == fields
  {
    var n := |fields|;
    var inner := fields[1..n - 1];
    var cells := PaddedFields(fields, widths)[1..n - 1];
    RebuildRowBordered(fields, widths);
    InnerCellsPadded(fields, widths);
    FieldsOfBordered(inner, cells);
    EmptyBorders(fields);
  }

  /** Parts whose first and last are empty: the inner parts between two
      empty ones. */
  lemma EmptyBorders(parts: seq<string>)
    requires |parts| >= 2 && parts[0] == [] && parts[|parts| - 1] == []
    ensures parts == [[]] + parts[1..|parts| - 1] + [[]]
  {
  }

  /** The inner padded fields are the inner fields followed by whitespace. */
  lemma InnerCellsPadded(fields: seq<string>, widths: seq<nat>)
    requires |fields| >= 2
    requires forall i :: 0 <= i < |fields| ==> '|' !in fields[i] && IsTrimmed(fields[i])
    ensures var inner := fields[1..|fields| - 1];
      var cells := PaddedFields(fields, widths)[1..|fields| - 1];
      forall i :: 0 <= i < |cells| ==>
        '|' !in cells[i] && IsTrimmed(inner[i]) &&
        |inner[i]| <= |cells[i]| && cells[i][..|inner[i]|] == inner[i] &&
        AllWhitespace(cells[i][|inner[i]|..])
  {
    var n := |fields|;
    var inner := fields[1..n - 1];
    var cells := PaddedFields(fields, widths)[1..n - 1];
    forall i | 0 <= i < |cells|
      ensures '|' !in cells[i] && IsTrimmed(inner[i])
      ensures |inner[i]| <= |cells[i]| && cells[i][..|inner[i]|] == inner[i]
      ensures AllWhitespace(cells[i][|inner[i]|..])
    {
      assert cells[i] == PadEnd(fields[i + 1], WidthAt(widths, i + 1));
      PaddedCell(fields[i + 1], WidthAt(widths, i + 1));
    }
  }

  /** A field without `|`, padded: still without `|`, the field followed by
      whitespace. */
  lemma PaddedCell(field: string, width: nat)
    requires '|' !in field
    ensures '|' !in PadEnd(field, width)
    ensures |field| <= |PadEnd(field, width)| && PadEnd(field, width)[..|field|] == field
    ensures AllWhitespace(PadEnd(field, width)[|field|..])
  {
    var cell := PadEnd(field, width);
    forall k | 0 <= k < |cell| ensures cell[k] != '|' {
      if k < |field| {
        assert cell[k] == cell[..|field|][k];
      }
    }
  }

  /** A row whose two border fields are empty and whose border columns have
      width 0 is rebuilt as a bordered row: splitting it on `|` and trimming
      gives its fields back, and its length is one plus `|cell| + 3` per
      inner cell. */
  lemma RebuildLineRoundTrip(line: string, widths: seq<nat>)
    requires |Fields(line)| >= 2
    requires Fields(line)[0] == [] && Fields(line)[|Fields(line)| - 1] == []
    requires WidthAt(widths, 0) == 0 && WidthAt(widths, |Fields(line)| - 1) == 0
    ensures Fields(RebuildLine(line, widths)) == Fields(line)
    ensures |RebuildLine(line, widths)| ==
      1 + CellsLength(PaddedFields(Fields(line), widths)[1..|Fields(line)| - 1])
  {
    FieldsAreClean(line);
    RebuildRowBordered(Fields(line), widths);
    RebuildRowRoundTrip(Fields(line), widths);
  }

  /** All rows split into the same number `n >= 2` of fields, the first and
      last of which are empty: the shape the program's own rows have. */
  predicate Uniform(lines: seq<string>, n: nat) {
    n >= 2 && forall k :: 0 <= k < |lines| ==>
      |Fields(lines[k])| == n && Fields(lines[k])[0] == [] && Fields(lines[k])[n - 1] == []
  }

  /** Rows of `n` fields with empty borders give `n` widths, the two border
      widths 0. */
  lemma UniformRowWidths(rows: seq<seq<string>>, n: nat)
    requires n >= 2 && |rows| >= 1
    requires forall j :: 0 <= j < |rows| ==> |rows[j]| == n
    requires forall j :: 0 <= j < |rows| ==> rows[j][0] == [] && rows[j][n - 1] == []
    ensures |WidthsOf(rows)| == n
    ensures WidthsOf(rows)[0] == 0 && WidthsOf(rows)[n - 1] == 0
  {
    WidthsOfAreMaxima(rows);
    var w := WidthsOf(rows);
    assert n <= |w| by {
      assert |rows[0]| == n;
    }
    var top := |w| - 1;
    var j0 :| 0 <= j0 < |rows| && top < |rows[j0]| && |rows[j0][top]| == w[top];
    assert |w| <= n;
    var j1 :| 0 <= j1 < |rows| && 0 < |rows[j1]| && |rows[j1][0]| == w[0];
    assert rows[j1][0] == [];
    var j2 :| 0 <= j2 < |rows| && n - 1 < |rows[j2]| && |rows[j2][n - 1]| == w[n - 1];
    assert rows[j2][n - 1] == [];
  }

  /** A uniform table's widths: one per field, the border columns 0. */
  lemma UniformWidths(lines: seq<string>, n: nat)
    requires Uniform(lines, n) && |lines| >= 1
    ensures |ColumnWidths(lines)| == n
    ensures ColumnWidths(lines)[0] == 0 && ColumnWidths(lines)[n - 1] == 0
  {
    var rows := FieldRows(lines);
    forall j | 0 <= j < |rows|
      ensures |rows[j]| == n && rows[j][0] == [] && rows[j][n - 1] == []
    {
      assert rows[j] == Fields(lines[j]);
    }
    UniformRowWidths(rows, n);
  }

  /** In a uniform table every aligned row other than the separator splits
      back into exactly the fields its line had. */
  lemma AlignedRowsRoundTrip(lines: seq<string>, n: nat, k: nat)
    requires Uniform(lines, n)
    requires k < |lines| && k != 1
    ensures Fields(AlignedTable(lines)[k]) == Fields(lines[k])
  {
    UniformWidths(lines, n);
    AlignedTableShape(lines);
    RebuildLineRoundTrip(lines[k], ColumnWidths(lines));
  }

  lemma {:induction false} SegmentsLengthCons(w: nat, widths: seq<nat>)
    ensures SegmentsLength([w] + widths) == |Segment(w)| + SegmentsLength(widths)
    decreases |widths|
  {
    if widths == [] {
      assert ([w] + widths)[..0] == [];
    } else {
      var init := widths[..|widths| - 1];
      assert ([w] + widths)[..|widths|] == [w] + init;
      SegmentsLengthCons(w, init);
    }
  }

  lemma {:induction false} CellsMatchSegments(cells: seq<string>, widths: seq<nat>)
    requires |cells| == |widths|
    requires forall i :: 0 <= i < |cells| ==> widths[i] != 0 && |cells[i]| == widths[i]
    ensures CellsLength(cells) == SegmentsLength(widths)
    decreases |cells|
  {
    if cells != [] {
      CellsMatchSegments(cells[1..], widths[1..]);
      assert widths == [widths[0]] + widths[1..];
      SegmentsLengthCons(widths[0], widths[1..]);
    } else {
      assert widths == [];
    }
  }

  /** A row of `n` fields whose borders are empty, rebuilt against `n`
      widths that are 0 at the borders, nonzero inside and no narrower than
      the fields, is exactly as long as the separator for those widths. */
  lemma RowMatchesSeparator(fields: seq<string>, widths: seq<nat>)
    requires |fields| == |widths| >= 2
    requires fields[0] == [] && fields[|fields| - 1] == []
    requires widths[0] == 0 && widths[|widths| - 1] == 0
    requires forall i :: 0 < i < |widths| - 1 ==> widths[i] != 0 && |fields[i]| <= widths[i]
    ensures |RebuildRow(fields, widths)| == |SeparatorLine(widths)|
  {
    var n := |widths|;
    var cells := PaddedFields(fields, widths)[1..n - 1];
    var inner := widths[1..n - 1];
    RebuildRowBordered(fields, widths);
    forall i | 0 <= i < |cells| ensures inner[i] != 0 && |cells[i]| == inner[i] {
      assert cells[i] == PadEnd(fields[i + 1], widths[i + 1]);
    }
    CellsMatchSegments(cells, inner);
    SeparatorLineShape(widths);
    assert widths[..n - 1] == [0] + inner;
    SegmentsLengthCons(0, inner);
  }

  /** In a uniform table whose inner columns all have nonzero width, every
      aligned row has the separator's length, `1 + sum (width + 3)` over the
      inner columns. */
  lemma AlignedRowsMatchSeparator(lines: seq<string>, n: nat, k: nat)
    requires Uniform(lines, n) && |lines| >= 1
    requires forall i :: 0 < i < n - 1 ==> WidthAt(ColumnWidths(lines), i) != 0
    requires k < |AlignedTable(lines)|
    ensures |AlignedTable(lines)[k]| == |SeparatorLine(ColumnWidths(lines))|
  {
    AlignedRow(lines, k);
    if k != 1 {
      UniformWidths(lines, n);
      LineMatchesSeparator(lines, n, k);
    }
  }

  lemma LineMatchesSeparator(lines: seq<string>, n: nat, k: nat)
    requires k < |lines| && |Fields(lines[k])| == n
    requires Fields(lines[k])[0] == [] && Fields(lines[k])[n - 1] == []
    requires |ColumnWidths(lines)| == n >= 2
    requires ColumnWidths(lines)[0] == 0 && ColumnWidths(lines)[n - 1] == 0
    requires forall i :: 0 < i < n - 1 ==> WidthAt(ColumnWidths(lines), i) != 0
    ensures |RebuildRow(Fields(lines[k]), ColumnWidths(lines))| == |SeparatorLine(ColumnWidths(lines))|
  {
    var w := ColumnWidths(lines);
    var fields := Fields(lines[k]);
    FieldsFitWidths(lines, k);
    forall i | 0 < i < n - 1 ensures w[i] != 0 && |fields[i]| <= w[i] {
      assert WidthAt(w, i) == w[i];
    }
    RowMatchesSeparator(fields, w);
  }

  /** Row `k` of the aligned table: the separator at index 1, every other
      row rebuilt from the line's fields. */
  lemma AlignedRow(lines: seq<string>, k: nat)
    requires k < |AlignedTable(lines)|
    ensures |AlignedTable(lines)| == if |lines| < 2 then 2 else |lines|
    ensures k == 1 ==> AlignedTable(lines)[k] == SeparatorLine(ColumnWidths(lines))
    ensures k != 1 && k < |lines| ==> AlignedTable(lines)[k] == RebuildRow(Fields(lines[k]), ColumnWidths(lines))
  {
    AlignedTableShape(lines);
  }

  /** Every line's fields fit the column widths. */
  lemma FieldsFitWidths(lines: seq<string>, k: nat)
    requires k < |lines|
    ensures |Fields(lines[k])| <= |ColumnWidths(lines)|
    ensures forall i :: 0 <= i < |Fields(lines[k])| ==> |Fields(lines[k])[i]| <= ColumnWidths(lines)[i]
  {
    ColumnWidthsAreMaxima(lines);
  }
}
