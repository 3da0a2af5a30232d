/** The text processing of `generateOutputFile`: the input file's text is
    cut into lines, every line is looked up as a game name, the lines whose
    lookup succeeds become list or table rows, a table is aligned, and the
    rows are joined into the output file's text. Reading and writing the
    files is left to the caller; the lookup is a parameter. */
module OutputGeneration {
  import opened Wrappers
  import opened Text
  import opened FetchUtils
  import opened PriceLookup
  import opened TableFormat

  datatype OutputFormat = List | Table

  const Header: string := "| Game Name | Official Price | Keyshops Price |"

  /** The line break of the input: `"\r\n"` as soon as a `\r` occurs
      anywhere, `"\n"` otherwise. */
  function LineBreak(text: string): string {
    if '\r' in text then "\r\n" else "\n"
  }

  /** The input cut into lines at every occurrence of the chosen line
      break: no line holds the break, and joining the lines with it gives
      the text back. */
  function SplitLines(text: string): (lines: seq<string>)
    ensures |lines| >= 1
    ensures forall k, i: nat :: 0 <= k < |lines| ==> !OccursAt(lines[k], LineBreak(text), i)
    ensures Join(lines, LineBreak(text)) == text
  {
    JoinSplit(text, LineBreak(text));
    SplitPartsAvoidFactor(text, LineBreak(text));
    Split(text, LineBreak(text))
  }

  /** Without a `\r` the text is cut at every `\n`, so no line holds one. */
  lemma LinesWithoutCarriageReturn(text: string)
    requires '\r' !in text
    ensures forall k :: 0 <= k < |SplitLines(text)| ==>
      '\n' !in SplitLines(text)[k] && '\r' !in SplitLines(text)[k]
  {
    SplitPartsAvoidSeparator(text, '\n');
    var lines := SplitLines(text);
    forall k | 0 <= k < |lines| ensures '\n' !in lines[k] && '\r' !in lines[k] {
      assert lines[k] in lines;
      ViewLineInText(text, k);
    }
  }

  /** Every character of a line occurs in the text. */
  lemma ViewLineInText(text: string, k: nat)
    requires k < |SplitLines(text)|
    ensures forall c :: c in SplitLines(text)[k] ==> c in text
  {
    var lines := SplitLines(text);
    JoinedPartsInText(lines, LineBreak(text), k);
  }

  lemma {:induction false} JoinedPartsInText(parts: seq<string>, sep: string, k: nat)
    requires k < |parts|
    ensures forall c :: c in parts[k] ==> c in Join(parts, sep)
    decreases |parts|
  {
    if |parts| > 1 {
      var rest := Join(parts[1..], sep);
      assert Join(parts, sep) == parts[0] + sep + rest;
      if k == 0 {
        forall c | c in parts[0] ensures c in Join(parts, sep) {
          var i :| 0 <= i < |parts[0]| && parts[0][i] == c;
          assert Join(parts, sep)[i] == c;
        }
      } else {
        JoinedPartsInText(parts[1..], sep, k - 1);
        forall c | c in parts[k] ensures c in Join(parts, sep) {
          assert c in rest;
          var i :| 0 <= i < |rest| && rest[i] == c;
          assert Join(parts, sep)[|parts[0] + sep| + i] == c;
        }
      }
    }
  }

  /** `line.startsWith("-") ? line.substring(1, line.length) : line`: a
      leading hyphen, and only that one character, is dropped. */
  function GameNameOf(line: string): (name: string)
    ensures |line| > 0 && line[0] == '-' ==> line == "-" + name
    ensures !(|line| > 0 && line[0] == '-') ==> name == line
  {
    if |line| > 0 && line[0] == '-' then Substring(line, 1, |line|) else line
  }

  function ListRow(name: string, official: string, keyshops: string): string {
    "- " + name + " -> " + official + " | " + keyshops
  }

  function TableRow(name: string, official: string, keyshops: string): string {
    "| " + name + " | " + official + " | " + keyshops + " |"
  }

  function FormatRow(format: OutputFormat, name: string, price: (string, string)): string {
    match format
    case List => ListRow(name, price.0, price.1)
    case Table => TableRow(name, price.0, price.1)
  }

  /** One line's contribution: its row when the lookup of its game name
      succeeds, nothing otherwise. */
  function RowFor(format: OutputFormat, scrape: Scraper, line: string): seq<string> {
    var name := GameNameOf(line);
    match GetGamePrice(scrape, name)
    case None => []
    case Some(price) => [FormatRow(format, name, price)]
  }

  /** A filter-map over lines: what `rowFor` gives for each line, in input
      order. */
  function Collect(rowFor: string -> seq<string>, lines: seq<string>): seq<string>
    decreases |lines|
  {
    if lines == [] then []
    else Collect(rowFor, lines[..|lines| - 1]) + rowFor(lines[|lines| - 1])
  }

  /** Collecting over two stretches of lines is collecting over each, in order. */
  lemma {:induction false} CollectAppend(rowFor: string -> seq<string>, a: seq<string>, b: seq<string>)
    ensures Collect(rowFor, a + b) == Collect(rowFor, a) + Collect(rowFor, b)
    decreases |b|
  {
    if b == [] {
      assert a + b == a;
    } else {
      var init := b[..|b| - 1];
      var row := rowFor(b[|b| - 1]);
      assert (a + b)[..|a + b| - 1] == a + init;
      assert (a + b)[|a + b| - 1] == b[|b| - 1];
      CollectAppend(rowFor, a, init);
      var ra := Collect(rowFor, a);
      var ri := Collect(rowFor, init);
      assert Collect(rowFor, a + b) == ra + ri + row;
      assert ra + ri + row == ra + (ri + row);
    }
  }

  function RowFn(format: OutputFormat, scrape: Scraper): string -> seq<string> {
    line => RowFor(format, scrape, line)
  }

  /** The rows of the loop, line by line in input order. */
  function Rows(format: OutputFormat, scrape: Scraper, lines: seq<string>): seq<string> {
    Collect(RowFn(format, scrape), lines)
  }

  lemma RowsSnoc(format: OutputFormat, scrape: Scraper, lines: seq<string>)
    requires lines != []
    ensures Rows(format, scrape, lines)
      == Rows(format, scrape, lines[..|lines| - 1]) + RowFor(format, scrape, lines[|lines| - 1])
  {
  }

  predicate Priced(scrape: Scraper, line: string) {
    GetGamePrice(scrape, GameNameOf(line)).Some?
  }

  /** Number of lines whose lookup succeeds. */
  function PricedCount(scrape: Scraper, lines: seq<string>): (n: nat)
    ensures n <= |lines|
    decreases |lines|
  {
    if lines == [] then 0
    else PricedCount(scrape, lines[..|lines| - 1]) + (if Priced(scrape, lines[|lines| - 1]) then 1 else 0)
  }

  /** `outputLines` after the loop: the header in table mode, then the rows. */
  function OutputLines(format: OutputFormat, scrape: Scraper, lines: seq<string>): seq<string> {
    (if format == Table then [Header] else []) + Rows(format, scrape, lines)
  }

  /** `processedOutputLines`: the table is aligned, a list kept as it is. */
  function ProcessedLines(format: OutputFormat, scrape: Scraper, lines: seq<string>): seq<string> {
    if format == Table then AlignedTable(OutputLines(format, scrape, lines))
    else OutputLines(format, scrape, lines)
  }

  /** The text written to the output file. */
  function OutputText(inputFile: string, format: OutputFormat, scrape: Scraper): string {
    Join(ProcessedLines(format, scrape, SplitLines(inputFile)), "\n")
  }

  /** `generateOutputFile` from the input text to the output text. */
  method GenerateOutputFile(inputFile: string, outputFormat: OutputFormat, scrape: Scraper)
    returns (outputText: string)
    ensures outputText == OutputText(inputFile, outputFormat, scrape)
  {
    var lines: seq<string>;
    if '\r' in inputFile {
      lines := Split(inputFile, "\r\n");
    } else {
      lines := Split(inputFile, "\n");
    }
    assert lines == SplitLines(inputFile);

    var outputLines: seq<string> := [];
    if outputFormat == Table {
      outputLines := outputLines + [Header];
    }

    for i := 0 to |lines|
      invariant outputLines == OutputLines(outputFormat, scrape, lines[..i])
    {
      OutputLinesSnoc(outputFormat, scrape, lines, i);
      var line := lines[i];
      var gameName := line;
      if |line| > 0 && line[0] == '-' {
        gameName := Substring(line, 1, |line|);
      }
      var gamePrice := GetGamePrice(scrape, gameName);
      if gamePrice.None? {
        continue;
      }
      var (officialPrice, keyshopsPrice) := gamePrice.value;
      if outputFormat == List {
        outputLines := outputLines + ["- " + gameName + " -> " + officialPrice + " | " + keyshopsPrice];
      } else {
        outputLines := outputLines + ["| " + gameName + " | " + officialPrice + " | " + keyshopsPrice + " |"];
      }
    }
    assert lines[..|lines|] == lines;

    var processedOutputLines := outputLines;
    if outputFormat == Table {
      processedOutputLines := AlignOutputTableColumnWidths(outputLines);
    }
    outputText := Join(processedOutputLines, "\n");
  }

  lemma OutputLinesSnoc(format: OutputFormat, scrape: Scraper, lines: seq<string>, i: nat)
    requires i < |lines|
    ensures OutputLines(format, scrape, lines[..i + 1])
      == OutputLines(format, scrape, lines[..i]) + RowFor(format, scrape, lines[i])
  {
    var prefix := lines[..i + 1];
    assert prefix[..|prefix| - 1] == lines[..i];
    assert prefix[|prefix| - 1] == lines[i];
    var header: seq<string> := if format == Table then [Header] else [];
    var rows := Rows(format, scrape, lines[..i]);
    var row := RowFor(format, scrape, lines[i]);
    RowsSnoc(format, scrape, prefix);
    assert header + (rows + row) == (header + rows) + row;
  }

  /** The rows of two stretches of input are the rows of each, in order:
      the loop is a stable filter-map. */
  lemma RowsAppend(format: OutputFormat, scrape: Scraper, a: seq<string>, b: seq<string>)
    ensures Rows(format, scrape, a + b) == Rows(format, scrape, a) + Rows(format, scrape, b)
  {
    CollectAppend(RowFn(format, scrape), a, b);
  }

  /** One row per line whose lookup succeeds, none for the others. */
  lemma {:induction false} RowsCount(format: OutputFormat, scrape: Scraper, lines: seq<string>)
    ensures |Rows(format, scrape, lines)| == PricedCount(scrape, lines)
    decreases |lines|
  {
    if lines != [] {
      RowsCount(format, scrape, lines[..|lines| - 1]);
      RowsSnoc(format, scrape, lines);
    }
  }

  /** A blank line and a lone hyphen name nothing, so they never give a row. */
  lemma BlankLinesSkipped(format: OutputFormat, scrape: Scraper, line: string)
    requires line == [] || line == "-"
    ensures GameNameOf(line) == []
    ensures RowFor(format, scrape, line) == []
  {
  }

  /** List mode: no header, one `- name -> official | keyshops` line per
      success. */
  lemma ListOutput(scrape: Scraper, lines: seq<string>)
    ensures ProcessedLines(List, scrape, lines) == Rows(List, scrape, lines)
    ensures |ProcessedLines(List, scrape, lines)| == PricedCount(scrape, lines)
    ensures forall k :: 0 <= k < |Rows(List, scrape, lines)| ==>
      |Rows(List, scrape, lines)[k]| >= 2 && Rows(List, scrape, lines)[k][..2] == "- "
  {
    RowsCount(List, scrape, lines);
    assert OutputLines(List, scrape, lines) == [] + Rows(List, scrape, lines);
    ListRowsDashed(scrape, lines);
  }

  lemma {:induction false} ListRowsDashed(scrape: Scraper, lines: seq<string>)
    ensures forall k :: 0 <= k < |Rows(List, scrape, lines)| ==>
      |Rows(List, scrape, lines)[k]| >= 2 && Rows(List, scrape, lines)[k][..2] == "- "
    decreases |lines|
  {
    if lines != [] {
      var init := lines[..|lines| - 1];
      var line := lines[|lines| - 1];
      ListRowsDashed(scrape, init);
      var before := Rows(List, scrape, init);
      var rows := Rows(List, scrape, lines);
      RowsSnoc(List, scrape, lines);
      match GetGamePrice(scrape, GameNameOf(line))
      case None =>
        assert rows == before;
      case Some(price) =>
        var row := ListRow(GameNameOf(line), price.0, price.1);
        assert rows == before + [row];
        ListRowDashed(GameNameOf(line), price.0, price.1);
        forall k | 0 <= k < |rows| ensures |rows[k]| >= 2 && rows[k][..2] == "- " {
          if k < |before| {
            assert rows[k] == before[k];
          }
        }
    }
  }

  lemma ListRowDashed(name: string, official: string, keyshops: string)
    ensures |ListRow(name, official, keyshops)| >= 2 && ListRow(name, official, keyshops)[..2] == "- "
  {
    var row := ListRow(name, official, keyshops);
    assert row == "- " + (name + " -> " + official + " | " + keyshops);
  }

  /** Table mode before alignment: the header, then one
      `| name | official | keyshops |` row per success. */
  lemma TableLines(scrape: Scraper, lines: seq<string>)
    ensures OutputLines(Table, scrape, lines) == [Header] + Rows(Table, scrape, lines)
    ensures |OutputLines(Table, scrape, lines)| == 1 + PricedCount(scrape, lines)
  {
    RowsCount(Table, scrape, lines);
  }

  /** Table mode after alignment. The output keeps the line count (at least
      two), its second line is the dash separator, the first is the aligned
      header, and from the third on every line is the aligned row of the
      game at the same place before alignment. */
  lemma TableOutput(scrape: Scraper, lines: seq<string>)
    ensures var pre := OutputLines(Table, scrape, lines);
      var out := ProcessedLines(Table, scrape, lines);
      var widths := ColumnWidths(pre);
      |out| == (if |pre| < 2 then 2 else |pre|)
      && out[0] == RebuildLine(Header, widths)
      && out[1] == SeparatorLine(widths)
      && (forall k :: 0 <= k < |out[1]| ==> out[1][k] == '|' || out[1][k] == '-')
      && forall k :: 1 <= k < |Rows(Table, scrape, lines)| ==>
        out[k + 1] == RebuildLine(Rows(Table, scrape, lines)[k], widths)
  {
    var pre := OutputLines(Table, scrape, lines);
    TableLines(scrape, lines);
    AlignedAfterHeader(Header, Rows(Table, scrape, lines));
    SeparatorLineShape(ColumnWidths(pre));
  }

  /** What the aligner makes of a header followed by rows. */
  lemma AlignedAfterHeader(header: string, rows: seq<string>)
    ensures var out := AlignedTable([header] + rows);
      var widths := ColumnWidths([header] + rows);
      |out| == (if |rows| < 1 then 2 else 1 + |rows|)
      && out[0] == RebuildLine(header, widths)
      && out[1] == SeparatorLine(widths)
      && forall k :: 1 <= k < |rows| ==> out[k + 1] == RebuildLine(rows[k], widths)
  {
    var pre := [header] + rows;
    AlignedTableShape(pre);
    forall k | 0 <= k < |rows| ensures pre[k + 1] == rows[k] {
    }
  }

  /** The source's own list example: `-The Witcher 3` is looked up as
      `the-witcher-3` and listed under its name without the hyphen. */
  lemma ListRowExample(scrape: Scraper)
    requires scrape("the-witcher-3") == Some(["49,99 zł", "39,99 zł"])
    ensures RowFor(List, scrape, "-The Witcher 3") == ["- The Witcher 3 -> 49,99 zł | 39,99 zł"]
  {
    DashedTitle();
    NormalizeTitle();
    PricedRow(List, scrape, "-The Witcher 3", "The Witcher 3", "the-witcher-3", "49,99 zł", "39,99 zł");
    TitleListRow();
  }

  lemma TitleListRow()
    ensures ListRow("The Witcher 3", "49,99 zł", "39,99 zł") == "- The Witcher 3 -> 49,99 zł | 39,99 zł"
  {
    assert "- " + "The Witcher 3" == "- The Witcher 3";
    assert "- The Witcher 3" + " -> " == "- The Witcher 3 -> ";
    assert "- The Witcher 3 -> " + "49,99 zł" == "- The Witcher 3 -> 49,99 zł";
    assert "- The Witcher 3 -> 49,99 zł" + " | " == "- The Witcher 3 -> 49,99 zł | ";
    assert "- The Witcher 3 -> 49,99 zł | " + "39,99 zł" == "- The Witcher 3 -> 49,99 zł | 39,99 zł";
  }

  lemma DashedTitle()
    ensures GameNameOf("-The Witcher 3") == "The Witcher 3"
  {
    assert "-The Witcher 3"[1..] == "The Witcher 3";
  }

  /** The row of a line whose game's page shows two prices. */
  lemma PricedRow(format: OutputFormat, scrape: Scraper, line: string, name: string, slug: string,
                  official: string, keyshops: string)
    requires GameNameOf(line) == name && name != [] && NormalizeGameName(name) == slug
    requires scrape(slug) == Some([official, keyshops])
    ensures GetGamePrice(scrape, name) == Some((official, keyshops))
    ensures RowFor(format, scrape, line) == [FormatRow(format, name, (official, keyshops))]
  {
  }

  /** A table row splits on `|` into an empty border, its three trimmed
      cells and another empty border, provided the cells hold no `|`. */
  lemma TableRowFields(name: string, official: string, keyshops: string)
    requires '|' !in name && '|' !in official && '|' !in keyshops
    ensures Fields(TableRow(name, official, keyshops)) == [[], Trim(name), Trim(official), Trim(keyshops), []]
  {
    var pieces := [[], " " + name + " ", " " + official + " ", " " + keyshops + " ", []];
    var line := TableRow(name, official, keyshops);
    TableRowJoin(name, official, keyshops);
    SplitJoin(pieces, '|');
    var f := Fields(line);
    assert |f| == 5;
    assert AllWhitespace(" ");
    assert f[1] == Trim(" " + name + " ");
    TrimPadded(" ", name, " ");
    assert f[2] == Trim(" " + official + " ");
    TrimPadded(" ", official, " ");
    assert f[3] == Trim(" " + keyshops + " ");
    TrimPadded(" ", keyshops, " ");
    assert f[0] == Trim([]) && f[4] == Trim([]);
    TrimWrapped([], [], []);
    FiveFields(f, Trim(name), Trim(official), Trim(keyshops));
  }

  lemma FiveFields(f: seq<string>, a: string, b: string, c: string)
    requires |f| == 5 && f[0] == [] && f[1] == a && f[2] == b && f[3] == c && f[4] == []
    ensures f == [[], a, b, c, []]
  {
  }

  /** A table row is its three spaced cells joined with `|` between two
      empty borders. */
  lemma TableRowJoin(name: string, official: string, keyshops: string)
    ensures TableRow(name, official, keyshops)
      == Join([[], " " + name + " ", " " + official + " ", " " + keyshops + " ", []], Pipe)
  {
    var a := " " + name + " ";
    var b := " " + official + " ";
    var c := " " + keyshops + " ";
    var pieces := [[], a, b, c, []];
    assert Join(pieces[4..], Pipe) == [];
    assert Join(pieces[3..], Pipe) == c + Pipe;
    assert Join(pieces[2..], Pipe) == b + Pipe + (c + Pipe);
    assert Join(pieces[1..], Pipe) == a + Pipe + (b + Pipe + (c + Pipe));
  }

  lemma HeaderFields()
    ensures Fields(Header) == [[], "Game Name", "Official Price", "Keyshops Price", []]
  {
    HeaderIsTableRow();
    TableRowFields("Game Name", "Official Price", "Keyshops Price");
    HeaderCellsTrimmed();
  }

  lemma HeaderIsTableRow()
    ensures Header == TableRow("Game Name", "Official Price", "Keyshops Price")
    ensures '|' !in "Game Name" && '|' !in "Official Price" && '|' !in "Keyshops Price"
  {
    HeaderFirstCell();
    HeaderSecondCell();
    HeaderThirdCell();
  }

  lemma HeaderFirstCell()
    ensures "| " + "Game Name" + " | " == "| Game Name | "
  {
    assert "| " + "Game Name" == "| Game Name";
  }

  lemma HeaderSecondCell()
    ensures "| Game Name | " + "Official Price" + " | " == "| Game Name | Official Price | "
  {
    assert "| Game Name | " + "Official Price" == "| Game Name | Official Price";
  }

  lemma HeaderThirdCell()
    ensures "| Game Name | Official Price | " + "Keyshops Price" + " |" == Header
  {
    assert "| Game Name | Official Price | " + "Keyshops Price" == "| Game Name | Official Price | Keyshops Price";
  }

  lemma HeaderCellsTrimmed()
    ensures Trim("Game Name") == "Game Name"
    ensures Trim("Official Price") == "Official Price"
    ensures Trim("Keyshops Price") == "Keyshops Price"
  {
    var name, official, keyshops := "Game Name", "Official Price", "Keyshops Price";
    assert IsTrimmed(name) && IsTrimmed(official) && IsTrimmed(keyshops);
    TrimmedLiteral(name);
    TrimmedLiteral(official);
    TrimmedLiteral(keyshops);
  }

  lemma TrimmedLiteral(s: string)
    requires IsTrimmed(s)
    ensures Trim(s) == s
  {
    TrimWrapped([], s, []);
    assert [] + s + [] == s;
  }

  /** The prices found for a line, if any, hold no `|`. */
  predicate PricesAvoidPipe(scrape: Scraper, line: string) {
    match GetGamePrice(scrape, GameNameOf(line))
    case None => true
    case Some(price) => '|' !in price.0 && '|' !in price.1
  }

  /** With no `|` in the input lines or the prices found, every table row
      has five fields whose borders are empty. */
  lemma {:induction false} RowsUniform(scrape: Scraper, lines: seq<string>)
    requires forall k :: 0 <= k < |lines| ==> '|' !in lines[k] && PricesAvoidPipe(scrape, lines[k])
    ensures Uniform(Rows(Table, scrape, lines), 5)
    decreases |lines|
  {
    if lines != [] {
      var init := lines[..|lines| - 1];
      var line := lines[|lines| - 1];
      RowsUniform(scrape, init);
      var name := GameNameOf(line);
      assert '|' !in name by {
        if |line| > 0 && line[0] == '-' {
          assert line == "-" + name;
        }
      }
      var rows := Rows(Table, scrape, lines);
      RowsSnoc(Table, scrape, lines);
      match GetGamePrice(scrape, name)
      case None =>
      case Some(price) =>
        TableRowFields(name, price.0, price.1);
    }
  }

  lemma TableLinesUniform(scrape: Scraper, lines: seq<string>)
    requires forall k :: 0 <= k < |lines| ==> '|' !in lines[k] && PricesAvoidPipe(scrape, lines[k])
    ensures Uniform(OutputLines(Table, scrape, lines), 5)
  {
    RowsUniform(scrape, lines);
    HeaderFields();
    UniformAfterHeader(Header, Rows(Table, scrape, lines), 5);
  }

  lemma UniformAfterHeader(header: string, rows: seq<string>, n: nat)
    requires Uniform(rows, n)
    requires |Fields(header)| == n && Fields(header)[0] == [] && Fields(header)[n - 1] == []
    ensures Uniform([header] + rows, n)
  {
    var pre := [header] + rows;
    forall k | 0 <= k < |rows| ensures pre[k + 1] == rows[k] {
    }
  }

  /** With no `|` in the input lines or the prices found, every line of the
      aligned table but the separator splits back into the header's or its
      game's fields, and every line is exactly as long as the separator. */
  lemma TableRoundTrip(scrape: Scraper, lines: seq<string>, k: nat)
    requires forall j :: 0 <= j < |lines| ==> '|' !in lines[j] && PricesAvoidPipe(scrape, lines[j])
    requires k < |ProcessedLines(Table, scrape, lines)|
    ensures k != 1 ==> Fields(ProcessedLines(Table, scrape, lines)[k]) == Fields(OutputLines(Table, scrape, lines)[k])
    ensures |ProcessedLines(Table, scrape, lines)[k]|
      == |SeparatorLine(ColumnWidths(OutputLines(Table, scrape, lines)))|
  {
    var pre := OutputLines(Table, scrape, lines);
    TableLinesUniform(scrape, lines);
    AlignedTableShape(pre);
    if k != 1 {
      AlignedRowsRoundTrip(pre, 5, k);
    }
    HeaderNarrowsNothing(pre);
    AlignedRowsMatchSeparator(pre, 5, k);
  }

  /** The header's inner fields are not empty, so no inner column of a table
      has width 0. */
  lemma HeaderNarrowsNothing(pre: seq<string>)
    requires |pre| >= 1 && pre[0] == Header
    ensures forall i :: 0 < i < 4 ==> WidthAt(ColumnWidths(pre), i) != 0
  {
    HeaderFields();
    HeaderCellsNonEmpty(Fields(pre[0]));
    FirstLineNarrowsNothing(pre, 5);
  }

  /** The header's field list, given as a parameter, has non-empty inner
      fields. */
  lemma HeaderCellsNonEmpty(f: seq<string>)
    requires f == [[], "Game Name", "Official Price", "Keyshops Price", []]
    ensures |f| == 5 && forall i :: 0 < i < 4 ==> f[i] != []
  {
    assert f[1] != [] && f[2] != [] && f[3] != [];
  }

  /** A column in which the first line has a non-empty field has a nonzero width. */
  lemma FirstLineNarrowsNothing(pre: seq<string>, n: nat)
    requires |pre| >= 1 && |Fields(pre[0])| == n
    requires forall i :: 0 < i < n - 1 ==> Fields(pre[0])[i] != []
    ensures forall i :: 0 < i < n - 1 ==> WidthAt(ColumnWidths(pre), i) != 0
  {
    var w := ColumnWidths(pre);
    var f := Fields(pre[0]);
    FieldsFitWidths(pre, 0);
    forall i | 0 < i < n - 1 ensures WidthAt(w, i) != 0 {
      assert |f[i]| <= w[i];
    }
  }

  /** What the source does: it pushes no placeholder after the header, so
      the separator overwrites the first game's row. With `n >= 1` games
      found the output has `1 + n` lines, of which only `n - 1` are game
      rows: those of the second game on. */
  lemma FirstGameRowOverwritten(scrape: Scraper, lines: seq<string>)
    requires PricedCount(scrape, lines) >= 1
    ensures var rows := Rows(Table, scrape, lines);
      var out := ProcessedLines(Table, scrape, lines);
      var widths := ColumnWidths(OutputLines(Table, scrape, lines));
      |rows| == PricedCount(scrape, lines)
      && |out| == 1 + |rows|
      && out[1] == SeparatorLine(widths)
      && out[2..] == seq(|rows| - 1, k requires 0 <= k < |rows| - 1 => RebuildLine(rows[k + 1], widths))
  {
    var rows := Rows(Table, scrape, lines);
    var out := ProcessedLines(Table, scrape, lines);
    var widths := ColumnWidths(OutputLines(Table, scrape, lines));
    TableLines(scrape, lines);
    TableOutput(scrape, lines);
    RowsCount(Table, scrape, lines);
    assert |out| == 1 + |rows|;
    forall k | 0 <= k < |rows| - 1 ensures out[2..][k] == RebuildLine(rows[k + 1], widths) {
      assert out[2..][k] == out[k + 2];
    }
  }

  /** One line whose game is found: the table is the aligned header and the
      separator, and the game is gone. */
  lemma SingleGameLost(scrape: Scraper, line: string)
    requires Priced(scrape, line)
    requires '|' !in line && PricesAvoidPipe(scrape, line)
    ensures var out := ProcessedLines(Table, scrape, [line]);
      |out| == 2
      && Fields(out[0]) == [[], "Game Name", "Official Price", "Keyshops Price", []]
      && forall k :: 0 <= k < |out[1]| ==> out[1][k] == '|' || out[1][k] == '-'
  {
    var lines := [line];
    SingleLineCount(scrape, line);
    TableLines(scrape, lines);
    TableOutput(scrape, lines);
    TableRoundTrip(scrape, lines, 0);
    HeaderFields();
  }

  /** A file holding only `The Witcher 3`, the example title, found with two
      prices: the aligned table has just the header and the separator. */
  lemma SingleTitleLost(scrape: Scraper, title: string)
    requires title == "The Witcher 3"
    requires scrape("the-witcher-3") == Some(["49,99 zł", "39,99 zł"])
    ensures |ProcessedLines(Table, scrape, [title])| == 2
  {
    TitleFound(scrape, title);
    SingleGameLost(scrape, title);
  }

  lemma TitleFound(scrape: Scraper, title: string)
    requires title == "The Witcher 3"
    requires scrape("the-witcher-3") == Some(["49,99 zł", "39,99 zł"])
    ensures Priced(scrape, title) && '|' !in title && PricesAvoidPipe(scrape, title)
  {
    NormalizeTitle();
    PricedRow(Table, scrape, title, title, "the-witcher-3", "49,99 zł", "39,99 zł");
    TitleAvoidsPipe();
  }

  lemma TitleAvoidsPipe()
    ensures '|' !in "The Witcher 3" && '|' !in "49,99 zł" && '|' !in "39,99 zł"
  {
  }

  lemma SingleLineCount(scrape: Scraper, line: string)
    ensures PricedCount(scrape, [line]) == if Priced(scrape, line) then 1 else 0
  {
    assert [line][..0] == [];
  }

  /** The evidently intended table: a placeholder line after the header for
      the separator to replace. */
  function CorrectedOutputLines(format: OutputFormat, scrape: Scraper, lines: seq<string>): seq<string> {
    (if format == Table then [Header, []] else []) + Rows(format, scrape, lines)
  }

  function CorrectedProcessedLines(format: OutputFormat, scrape: Scraper, lines: seq<string>): seq<string> {
    if format == Table then AlignedTable(CorrectedOutputLines(format, scrape, lines))
    else CorrectedOutputLines(format, scrape, lines)
  }

  /** With the placeholder every game found keeps its aligned row, after the
      header and the separator. */
  lemma CorrectedTableKeepsEveryRow(scrape: Scraper, lines: seq<string>)
    ensures var rows := Rows(Table, scrape, lines);
      var out := CorrectedProcessedLines(Table, scrape, lines);
      var widths := ColumnWidths(CorrectedOutputLines(Table, scrape, lines));
      |out| == 2 + PricedCount(scrape, lines)
      && out[0] == RebuildLine(Header, widths)
      && out[1] == SeparatorLine(widths)
      && forall k :: 0 <= k < |rows| ==> out[k + 2] == RebuildLine(rows[k], widths)
  {
    RowsCount(Table, scrape, lines);
    AlignedAfterPlaceholder(Header, Rows(Table, scrape, lines));
  }

  /** What the aligner makes of a header, a placeholder and rows. */
  lemma AlignedAfterPlaceholder(header: string, rows: seq<string>)
    ensures var out := AlignedTable([header, []] + rows);
      var widths := ColumnWidths([header, []] + rows);
      |out| == 2 + |rows|
      && out[0] == RebuildLine(header, widths)
      && out[1] == SeparatorLine(widths)
      && forall k :: 0 <= k < |rows| ==> out[k + 2] == RebuildLine(rows[k], widths)
  {
    var pre := [header, []] + rows;
    AlignedTableShape(pre);
    forall k | 0 <= k < |rows| ensures pre[k + 2] == rows[k] {
    }
  }
}
