# game-price-checker: a Dafny model of its text processing

game-price-checker reads a text file of game titles, one per line. It looks up the official and the keyshop price of each game on a price-comparison site. It then writes the found games either as a list or as a Markdown table whose columns are aligned. This project models the three pieces of pure text processing in that program and proves properties about them:

- **Table alignment** (`alignOutputTableColumnWidths`, module `TableFormat`).
  - Every `|`-delimited line is split into trimmed fields.
  - Each column's width is the maximum field length over all lines.
  - Each line is rebuilt from fields right-padded to those widths, joined with `" | "`, with its first and last character dropped.
  - Line 1 is overwritten with a dash separator.
- **Game-name normalisation and the tuple check** (`normalizeGameName` and `isStringTuple`, module `FetchUtils`). The four regular-expression replacements are written out as explicit character-level functions.
- **Line processing** (`generateOutputFile`, module `OutputGeneration`).
  - The input text is split into lines and a leading `-` is dropped from each.
  - Each game is looked up. Lines whose lookup fails are skipped.
  - The remaining lines become list rows, or table rows under a fixed header.
  - A table is aligned, and the lines are joined with `"\n"`.

  The price lookup `getGamePrice` (module `PriceLookup`) keeps the source's own logic: it refuses an empty name, normalises the name, and accepts a scrape only when it gives exactly two texts. Fetching and scraping the page is an abstract function `Scraper` from the slug to the list of scraped price texts, or `None` when the request fails.

The JavaScript string primitives the program relies on are in module `Text`:

- `trim` and `\s`, over the exact ECMAScript whitespace set;
- `split` with a string separator, and `join`;
- `padEnd`;
- `substring`, which clamps its bounds and swaps them when they are reversed.

Strings are sequences of characters.

The imperative parts follow the source's form. They are the width loops, the loop that accumulates the separator, and the `for … of` loop of `generateOutputFile`. Each is written as a Dafny method, and each method is proved equal to a specification function. The properties are then proved as lemmas about those functions. The source builds the rebuilt rows with a pure `map` over the lines, so they remain a function (`EqualizedLines`). The assignment `equalizedLines[1] = …` is the function `SetSecond` on the sequence value, which the aligner method calls.

`GenerateOutputFile` keeps the behaviour of the program as written: in table mode the first game row is replaced by the separator (see "## Findings"). The corrected construction, with a placeholder line, is defined beside it, and its intended property is proved.

## Model

| member | source | states |
|---|---|---|
| TableFormat.FieldsAreClean | src/output-generation-utils.ts:5 | A line has at least one field, and every field is trimmed and holds no `\|`. |
| TableFormat.ColumnWidthsAreMaxima | src/output-generation-utils.ts:4-10 | The width vector is as long as the longest field list. Every field fits its column's width. Every width is reached by some line that has that column, so lines with fewer fields do not contribute. |
| TableFormat.ColumnWidthsSnoc | src/output-generation-utils.ts:4-10 | The widths over one more line are the previous widths raised by that line's fields, so the widths form a left fold over the lines. |
| TableFormat.RaiseColumnWidths | src/output-generation-utils.ts:7-9 | The inner loop raises each `columnWidths[i]`, where a missing entry counts as 0, to at least the field's length, and extends the array to the field count. |
| TableFormat.ComputeColumnWidths | src/output-generation-utils.ts:2-10 | The nested loops compute exactly the width vector whose maximum property is proved above. |
| TableFormat.SeparatorLineShape | src/output-generation-utils.ts:12-21 | The separator starts with `\|` and consists only of `\|` and `-`. Its length is 1 plus the sum of w+3 over the nonzero widths, and it holds 1 plus the number of nonzero widths `\|` characters. |
| TableFormat.SeparatorLineSnoc | src/output-generation-utils.ts:14-21 | Each width appends w+2 dashes and a `\|` to the separator; a zero width appends nothing. |
| TableFormat.BuildSeparatorLine | src/output-generation-utils.ts:12-21 | The loop that accumulates `separatingLine` produces exactly the separator whose shape is proved above. |
| TableFormat.AlignOutputTableColumnWidths | src/output-generation-utils.ts:1-42 | The result is the aligned table. It has as many lines as the input when the input has at least two lines, and two lines otherwise. Its line 1 is the separator. The input, a sequence value, is unchanged. |
| TableFormat.AlignedTableShape | src/output-generation-utils.ts:23-41 | Every line except index 1 is that input line rebuilt against the widths. Line 1 is the separator. With no input lines, the missing line 0 is empty. |
| TableFormat.AlignedRow | src/output-generation-utils.ts:23-37 | A rebuilt line depends only on its own fields and the width vector. |
| TableFormat.RebuiltFieldsPadded | src/output-generation-utils.ts:28-33 | Every field of a line is padded to exactly its column's width. The trimmed field is a prefix of the padded one, and the rest is spaces. |
| TableFormat.RebuildRowBordered | src/output-generation-utils.ts:35-36 | When the border fields are empty and have width 0, joining the padded fields with `" \| "` and dropping the first and last character gives `\|` followed by ` cell \|` for each padded inner cell. |
| TableFormat.RebuildRowRoundTrip | src/output-generation-utils.ts:28-36 | Splitting a rebuilt row on `\|` and trimming gives back the row's fields, provided its borders are empty. |
| TableFormat.RebuildLineRoundTrip | src/output-generation-utils.ts:28-36 | For a line whose outer fields are empty, the rebuilt line splits back into the line's own fields. Its length is 1 plus the sum of the padded inner cells' lengths plus 3 each. |
| TableFormat.UniformWidths | src/output-generation-utils.ts:4-10 | When all lines have n fields with empty borders, there are n widths and both border widths are 0. |
| TableFormat.AlignedRowsRoundTrip | src/output-generation-utils.ts:23-39 | In such a table, every aligned line except the separator splits back into its input line's fields. |
| TableFormat.AlignedRowsMatchSeparator | src/output-generation-utils.ts:12-39 | In such a table with nonzero inner widths, every aligned line is exactly as long as the separator. |
| TableFormat.FieldsFitWidths | src/output-generation-utils.ts:4-10 | Each line's fields fit the width vector, column by column. |
| Text.Trim | src/output-generation-utils.ts:5 | `trim` returns a string with no whitespace at either end that is no longer than the input. |
| Text.TrimWrapped | src/output-generation-utils.ts:5 | Trimming whitespace around a trimmed string gives that string. |
| Text.TrimPadded | src/output-generation-utils.ts:5 | Adding whitespace at either end does not change what `trim` returns. |
| Text.JoinSplit | src/output-generation.ts:30-35 | Joining the parts of a `split` with the same separator gives the text back. |
| Text.SplitJoin | src/output-generation-utils.ts:28 | Splitting a `\|`-join of parts that hold no `\|` gives the parts back. |
| Text.SplitPartsAvoidSeparator | src/output-generation.ts:34 | No part of a split on one character holds that character. |
| Text.SplitPartsAvoidFactor | src/output-generation.ts:30-35 | No part of a split holds the separator anywhere, whatever its length, so the text is cut at every occurrence. |
| Text.PadEnd | src/output-generation-utils.ts:32 | `padEnd` keeps the text as a prefix, fills with spaces up to the width, and never shortens. |
| Text.DropEnds | src/output-generation-utils.ts:36 | `substring(1, length - 1)` drops the first and last character of a string of two or more characters. It returns a one-character string whole, because the swapped bounds select the whole string. |
| FetchUtils.StripWrapper | src/data-fetching-utils.ts:4 | A name matching `^\[\[(.*?)\]\]$` is replaced by its content; any other name is left alone. |
| FetchUtils.StripWrapped | src/data-fetching-utils.ts:4 | Wrapping a name without line terminators in `[[…]]` and stripping it gives the name back. |
| FetchUtils.KeepAllowed | src/data-fetching-utils.ts:5 | The filter keeps only ASCII letters, digits and whitespace, each one taken from the input, and never lengthens the name. |
| FetchUtils.KeepAllowedCounts | src/data-fetching-utils.ts:5 | The filter deletes exactly the disallowed characters. Each allowed character occurs in the result as often as in the input, and any other character does not occur at all. |
| FetchUtils.SpacesToHyphens | src/data-fetching-utils.ts:6 | Each plain space becomes a hyphen, everything else stays in place, and no plain space remains. |
| FetchUtils.CollapseHyphenPairs | src/data-fetching-utils.ts:7 | The `--` pass never lengthens the name and brings in no new character. |
| FetchUtils.ToLowerAscii | src/data-fetching-utils.ts:8 | Lower-casing keeps the length and turns each ASCII capital into its own lower-case letter. Every other character is unchanged. |
| FetchUtils.NormalizeGameName | src/data-fetching-utils.ts:1-9 | Every character of the slug is a lower-case ASCII letter, a digit, a hyphen, or whitespace other than a plain space, so no capitals, brackets or spaces remain. The slug is no longer than the trimmed name. |
| FetchUtils.StripIsRedundant | src/data-fetching-utils.ts:4-5 | Normalising with or without the wrapper strip gives the same slug, because the filter deletes the brackets anyway. |
| FetchUtils.NormalizedHyphens | src/data-fetching-utils.ts:5-7 | The slug holds no more hyphens than the trimmed name holds plain spaces. |
| FetchUtils.CollapseRun | src/data-fetching-utils.ts:7 | A run of n hyphens collapses to (n+1)/2 hyphens, rounding down, so two spaces give `-` and three give `--`. |
| FetchUtils.PlainName | src/data-fetching-utils.ts:2-5 | For a trimmed name without a wrapper, the first two steps change nothing. |
| FetchUtils.KeepAllowedAll | src/data-fetching-utils.ts:5 | A name made only of allowed characters passes the filter unchanged. |
| FetchUtils.DropDisallowed | src/data-fetching-utils.ts:5 | A disallowed character between two allowed stretches is deleted and nothing else changes. |
| FetchUtils.CollapseWithoutPairs | src/data-fetching-utils.ts:7 | A name without `--` passes the pass unchanged. |
| FetchUtils.CollapseAround | src/data-fetching-utils.ts:7 | A character other than a hyphen splits the `--` pass: the text before it and the text after it are collapsed separately. With `CollapseRun`, each maximal run of n hyphens anywhere in a name becomes (n+1)/2 hyphens, rounded down. |
| FetchUtils.NormalizeSpacedHyphen | src/data-fetching-utils.ts:1-9 | `"A - B"` normalises to `"a-b"`. |
| FetchUtils.NormalizeTitle | src/data-fetching-utils.ts:1-9 | `"The Witcher 3"` normalises to `"the-witcher-3"`. |
| FetchUtils.NormalizeWrappedTitle | src/data-fetching-utils.ts:1-9 | `"[[Hollow Knight]]"` normalises to `"hollow-knight"`. |
| FetchUtils.NormalizeNotIdempotent | src/data-fetching-utils.ts:6-7 | Normalisation is not idempotent: `"a   b"` gives `"a--b"`, which normalises again to `"ab"`. |
| FetchUtils.IsStringTuple | src/data-fetching-utils.ts:11-13 | The check holds exactly when the value is an array of two elements that are both strings. |
| PriceLookup.ScrapedTuple | src/data-fetching.ts:39-44 | The scraped texts pass the tuple check exactly when there are two of them. |
| PriceLookup.GetGamePrice | src/data-fetching.ts:5-11 | An empty name gives nothing. Otherwise the result is present exactly when the page of the normalised name was scraped with exactly two prices, and then it is those two prices, the official one first. |
| OutputGeneration.SplitLines | src/output-generation.ts:30-35 | The text is split on `"\r\n"` when it holds a `\r` anywhere and on `"\n"` otherwise. There is at least one line, no line holds the chosen break, and joining the lines with that break gives the text back. |
| OutputGeneration.LinesWithoutCarriageReturn | src/output-generation.ts:33-34 | Without a `\r`, no line holds a line feed or a carriage return. |
| OutputGeneration.GameNameOf | src/output-generation.ts:44-48 | A line starting with `-` loses exactly that character, and any other line is used unchanged. |
| OutputGeneration.GenerateOutputFile | src/output-generation.ts:26-71 | The loop with its conditional pushes, followed by the alignment and the join, yields exactly the output text that the lemmas below describe. |
| OutputGeneration.RowsSnoc | src/output-generation.ts:43-61 | Each loop iteration appends the current line's row when its lookup succeeds and nothing otherwise. |
| OutputGeneration.RowsAppend | src/output-generation.ts:43-61 | The rows of two stretches of input are the rows of each, in order, so the loop is a stable filter-map. |
| OutputGeneration.RowsCount | src/output-generation.ts:50-53 | There is exactly one row per line whose lookup succeeds. |
| OutputGeneration.BlankLinesSkipped | src/output-generation.ts:46-53 | A blank line and a lone `-` name the empty game, whose lookup gives nothing, so they produce no row. |
| OutputGeneration.ListOutput | src/output-generation.ts:56-57 | List mode writes no header and one `- `-prefixed row per success, unchanged by any alignment. |
| OutputGeneration.ListRowExample | src/output-generation.ts:44-57 | `-The Witcher 3`, found at `the-witcher-3`, becomes `- The Witcher 3 -> 49,99 zł \| 39,99 zł`. |
| OutputGeneration.PricedRow | src/output-generation.ts:50-59 | A line whose slug's page shows two prices gets the row of those prices in the chosen format. |
| OutputGeneration.TableLines | src/output-generation.ts:39-59 | Table mode, before alignment: the fixed header, then one row per success, which is 1 plus the number of successes. |
| OutputGeneration.TableRowFields | src/output-generation.ts:59 | A table row whose cells hold no `\|` splits into an empty border, the three trimmed cells and another empty border. |
| OutputGeneration.HeaderFields | src/output-generation.ts:40 | The header's fields are the empty border, `Game Name`, `Official Price`, `Keyshops Price` and the empty border. |
| OutputGeneration.TableOutput | src/output-generation.ts:63-67 | Table mode, after alignment: the line count is kept (at least two). Line 0 is the aligned header and line 1 is the dash separator. From the second game on, game k (counting from 0) keeps its index k+1 and stands there aligned. |
| OutputGeneration.TableRoundTrip | src/output-generation.ts:39-67 | With no `\|` in the input or in the prices, every output line except the separator splits back into the fields of the header or of its game, and every line is as long as the separator. |
| OutputGeneration.HeaderNarrowsNothing | src/output-generation.ts:40 | Because of the header, no inner column of a table has width 0. |
| OutputGeneration.FirstGameRowOverwritten | src/output-generation.ts:39-41 | As written: with n ≥ 1 games found, the output has 1 + n lines. Line 1 is the separator, and only the aligned rows of games 2 to n follow it. |
| OutputGeneration.SingleGameLost | src/output-generation.ts:39-67 | As written: a file with one found game yields only the aligned header and the separator. |
| OutputGeneration.SingleTitleLost | src/output-generation.ts:39-67 | As written: a file holding only `The Witcher 3`, found with two prices, yields a two-line table. |
| OutputGeneration.CorrectedTableKeepsEveryRow | src/output-generation.ts:39-41 | Corrected: with a placeholder pushed after the header, the output is the header, the separator and the aligned row of every game found, with none lost. |

## Left out

- Fetching and scraping the game page are not modelled. This covers the axios request and its error handling (src/data-fetching.ts:13-28) and the cheerio selection of the price elements (src/data-fetching.ts:30-37). They are foreign library calls over the network, so the model takes them as the abstract `Scraper` parameter.
- PriceLookup.GetGamePrice: the lookup is taken to be deterministic. `Scraper` is a function, so the same slug gives the same result every time in one run. The program makes a fresh request per line, and those requests can differ because of transient errors or rate limits.
- The interactive front end and the single-game printout are not modelled. These are src/index.ts and `printSingleGamePrice` (src/output-generation.ts:7-24), which are console I/O and process exits.
- Reading the input file and writing the output file are not modelled, nor is building the output path with `path.parse`, `join` and `extname` (src/output-generation.ts:27-28, 69-71). `GenerateOutputFile` takes the file's text and returns the text written.
- `async`/`await` is not modelled. The lookups run one after another, so the loop is an ordinary loop.
- Console error messages are not modelled, since they are output only.
- String lengths count Unicode scalar values, not UTF-16 code units. A character outside the Basic Multilingual Plane therefore counts 1 in a column width where JavaScript counts 2.
- FetchUtils.ToLowerAscii: this models `toLowerCase` on ASCII capitals only. After the filter, the only letters left are ASCII letters. Whitespace is never cased.
- The hole that `equalizedLines[1] = …` leaves at index 0 of an empty array is modelled as the empty line, which is how `join` renders it.
- Alignment is not idempotent, because each separator dash run is w+2 long. This is not stated as a lemma. A second pass would treat the separator as a row.
- Price annotation and sorting are not modelled, because no source file implements them.

## Findings

| source | as written | input that shows it | evidently intended | confidence | as-written member | corrected member |
|---|---|---|---|---|---|---|
| src/output-generation.ts:39-41 with src/output-generation-utils.ts:39 | In table mode only the header is pushed before the game rows. The aligner then overwrites line 1, which is the first game's row, with the separator. | An input file holding the single line `The Witcher 3`, whose page shows two prices: the output table has only the header and the separator. | Push a placeholder line after the header, so that the separator replaces it and every game keeps its row. | not executed | OutputGeneration.SingleTitleLost | OutputGeneration.CorrectedTableKeepsEveryRow |
