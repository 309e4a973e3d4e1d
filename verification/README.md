# textsmith text package in Dafny

A Dafny model of the three pure string components of the Go package
`pkg/text` of textsmith-go, with proofs of what they promise:

- **The line diff engine** (`pkg/text/text_diff.go`):
  - `normalizeLineEndings` folds CRLF and lone CR into LF.
  - `hasTrailingNewline` detects a trailing terminator.
  - `splitLines` splits on LF and drops the empty piece a final terminator leaves.
  - `showWhitespaces` draws glyphs for space, TAB, VT, FF and CR.
  - `rpad` pads, and `stringDiff` draws the first-mismatch pointer.
  - `computeDiff` walks the lines in lock step and stops at the first differing line. It then adds surplus rows and the trailing-terminator row, and sets the widths, `Match` and `HasTrailingNL`.
  - `renderDiff` writes the two-column report and stops after the pointer row of a Different row.
  - `Diff` composes the two.
- **The margin and column strippers** (`pkg/text/strip_margin.go`). Go writes them as multi-line regular expressions, but every match lies within one line. The model states, for one line, when it is kept and what is kept, then joins the kept contents with "\n":
  - `StripMargin` keeps a line whose first character after spaces and tabs is `|`. It keeps everything after that bar, including a carriage return left by CRLF line endings.
  - `StripColumn` keeps a line that also has a later, last `|` followed only by spaces and tabs. It keeps what lies between the two bars. A carriage return at the end of the line stops the match.
- **The string comparator** (`pkg/text/string_diff.go`):
  - `characterDiff(actual, expected)` reports the first differing code point, or a length difference, or nothing.
  - `visualizeLine` quotes a string and draws glyphs for its whitespace and line feeds.
  - `compareStringsInternal` writes a MATCH or ASSERTION_FAILED report, visualised or raw.

Strings are `seq<char>` of Unicode scalar values, as in Go's `[]rune` view. Every operation of the three files is a pure function.

Modules:
- `Runes` (runes.dfy): shared string helpers, which are `strings.Repeat`, `Join`, `Split` with a one-character separator, the builder as `Concat`, and the common-prefix length.
- `TextDiff` (text_diff.dfy): the diff engine.
- `TextDiffTheorems` (text_diff_theorems.dfy): properties that relate several diff functions.
- `Margin` (strip_margin.dfy): the strippers.
- `Compare` (string_diff.dfy): the comparator.

Where the code and its own comments disagree, the model follows the code:
- The comment at `pkg/text/text_diff.go:199` says the loop stops at the first difference. But `computeDiff` still appends the surplus rows whenever the line counts differ, even after a Different row (`pkg/text/text_diff.go:203-204`).
- The trailing-terminator row is appended after a Different row too. Neither of these rows is rendered, because `renderDiff` returns at the pointer row. `Rows` keeps them, and `RenderIgnoresRowsAfterDifferent` proves they never reach the report.
- `StripMargin` has an extra guard for `s == ""`. It is modelled as written, although the general path gives the same result.

## Model

| member | source | states |
|---|---|---|
| Runes.CommonPrefixLength | pkg/text/text_diff.go:45-54 | the loop stops at the longest common prefix: the prefixes agree and the next characters differ or one side ends |
| TextDiff.Rpad | pkg/text/text_diff.go:35-41 | the result keeps the string, pads with spaces up to the length and never truncates |
| TextDiff.StringDiff | pkg/text/text_diff.go:44-56 | spaces and one final △; the number of spaces is the length of the longest common prefix, at most the shorter length |
| TextDiff.NormalizeLineEndings | pkg/text/text_diff.go:59-67 | no CR is left; the result is empty iff the text is; it ends in LF iff the text ends in LF or CR |
| TextDiff.HasTrailingNewline | pkg/text/text_diff.go:115-121 | true iff the text is non-empty and its last character is LF or CR |
| TextDiff.ShowWhitespaces | pkg/text/text_diff.go:69-91 | length kept; space, TAB, VT, FF and CR become their glyphs and every other character (newline, non-ASCII) is kept; none of the five is left |
| TextDiff.SplitLines | pkg/text/text_diff.go:94-112 | at least one line, and no line holds LF or CR |
| TextDiff.RunesEqual | pkg/text/text_diff.go:124-134 | true iff the two lines are equal |
| TextDiff.WidestVisible | pkg/text/text_diff.go:155-170 | the width covers the seed and every visualised line, and equals the seed or one of them |
| TextDiff.CompareCommon | pkg/text/text_diff.go:183-201 | Equal rows up to the first differing line, then one Different row carrying both lines iff the shorter list has a differing line |
| TextDiff.MissingRows | pkg/text/text_diff.go:205-225 | the expected surplus lines as MissingInActual rows, then the actual surplus lines as MissingInExpected rows |
| TextDiff.SurplusRows | pkg/text/text_diff.go:203-226 | no rows after a Different row when the counts are equal; otherwise one MissingInActual row per extra expected line or one MissingInExpected row per extra actual line, in order |
| TextDiff.TrailingRows | pkg/text/text_diff.go:228-254 | at most one row: the ␤ sentinel on the side that alone has a trailing terminator, or an empty Equal row when both have one, no difference was found and the counts agree |
| TextDiff.DiffLines | pkg/text/text_diff.go:137-263 | Match iff every row is Equal, iff the line lists and the trailing flags are equal; HasTrailingNL is the OR of the flags; both widths are the same and at least 8 |
| TextDiff.ComputeDiff | pkg/text/text_diff.go:137-263 | Match iff every row is Equal, iff both texts split into the same lines and agree on the trailing terminator; HasTrailingNL iff either text has one; both widths equal and at least 8 |
| TextDiff.HeaderLayout | pkg/text/text_diff.go:270-272 | both header rows are 2w+3 wide; the label row is "Expected" padded with spaces to w, the separator, then "Actual" padded with spaces to w; the rule row is w dashes, the separator and w dashes |
| TextDiff.RowPiecesCount | pkg/text/text_diff.go:274-305 | one piece per row up to the first Different row, plus two more when there is one |
| TextDiff.RowPiecesBefore | pkg/text/text_diff.go:280-303 | each row before the first Different one is written alone; Equal rows end in a newline, Missing rows only with HasTrailingNL |
| TextDiff.RenderDiff | pkg/text/text_diff.go:266-314 | every report starts with the label row, a newline and the rule row, whatever is trimmed at its end |
| TextDiff.Diff | pkg/text/text_diff.go:317-320 | the flag holds iff both texts split into the same lines and agree on the trailing terminator; the report starts with the header rows at the computed width |
| TextDiff.RowPiecesAtDifferent | pkg/text/text_diff.go:283-291 | the Different row ends in a newline and is followed by the pointer row, with a newline only under HasTrailingNL, and nothing after |
| TextDiffTheorems.StringDiffExamples | pkg/text/text_diff.go:44-56 | "hello" against itself gives five spaces and △, "short" against "sh" two spaces and △, differing first characters or an empty side just △ |
| TextDiffTheorems.EmptyTextDiffs | pkg/text/text_diff.go:137-263 | two empty texts give one empty Equal row and match; "" against "\n" gives that row and then ␤ on the actual side as MissingInExpected, and no match |
| TextDiffTheorems.NormalizeIsOnePass | pkg/text/text_diff.go:59-67 | the two passes equal one pass that turns each CRLF or lone CR into one LF, so a CRLF is not doubled |
| TextDiffTheorems.NormalizeIdempotent | pkg/text/text_diff.go:59-67 | normalising twice is normalising once |
| TextDiffTheorems.SplitLinesRoundTrip | pkg/text/text_diff.go:94-121 | joining the lines with LF and adding LF when the text has a trailing terminator gives the normalised text |
| TextDiffTheorems.SplitLinesDetermineNormalized | pkg/text/text_diff.go:94-121 | two texts have the same lines and trailing flag iff their normalised forms are equal |
| TextDiffTheorems.ShowWhitespacesIdempotent | pkg/text/text_diff.go:69-91 | visualising twice is visualising once |
| TextDiffTheorems.ShowWhitespacesKeepsNewlines | pkg/text/text_diff.go:69-91 | a position holds a newline after visualising iff it did before |
| TextDiffTheorems.ComputeDiffNormalized | pkg/text/text_diff.go:137-142 | the diff of two texts equals the diff of their normalised forms |
| TextDiffTheorems.MatchIffNormalizedEqual | pkg/text/text_diff.go:175-254 | two texts match iff they are equal once line endings are normalised |
| TextDiffTheorems.MatchReflexive | pkg/text/text_diff.go:175-254 | every text matches itself |
| TextDiffTheorems.MatchSymmetric | pkg/text/text_diff.go:175-254 | matching does not depend on the order of the texts |
| TextDiffTheorems.ComputeDiffMirror | pkg/text/text_diff.go:137-263 | swapping the texts swaps the sides of every row and the two Missing statuses, and keeps widths and flags |
| TextDiffTheorems.DifferentRowIsFirstMismatch | pkg/text/text_diff.go:183-226 | the only Different row sits at the first differing line and carries both original lines; every row before it is Equal and carries the original lines |
| TextDiffTheorems.TrailingTerminatorRow | pkg/text/text_diff.go:228-254 | one trailing terminator ends the rows with ␤ on its side and MissingInActual or MissingInExpected; two terminators on equal lines end them with an empty Equal row |
| TextDiffTheorems.ComputeDiffWidth | pkg/text/text_diff.go:155-173 | both widths are the largest of 8 and the visualised lengths of all lines of both texts |
| TextDiffTheorems.RenderStartsWithHeader | pkg/text/text_diff.go:266-272 | the report starts with the label row and the rule row, each followed by a newline |
| TextDiffTheorems.RenderIgnoresRowsAfterDifferent | pkg/text/text_diff.go:283-291 | rows after a Different row do not change the report |
| TextDiffTheorems.RenderEnding | pkg/text/text_diff.go:274-313 | a report of rows with single-line sides ends in a newline iff HasTrailingNL, the final newline of a match being dropped |
| TextDiffTheorems.DiffReportEnding | pkg/text/text_diff.go:317-320 | the report of Diff ends in a newline iff one of the two texts ends in a line terminator |
| Margin.MarginContent | pkg/text/strip_margin.go:9 | an accepted line is spaces and tabs, a bar, and the content |
| Margin.MarginLineAccepted | pkg/text/strip_margin.go:9 | every line made of spaces and tabs, a bar and any content is accepted with that content |
| Margin.ColumnContent | pkg/text/strip_margin.go:46 | an accepted line is spaces and tabs, a bar, the content, a bar and spaces and tabs |
| Margin.ColumnLineAccepted | pkg/text/strip_margin.go:46 | every such column line is accepted with exactly that content, including any bars inside it |
| Margin.ColumnWithinMargin | pkg/text/strip_margin.go:46 | a column line is also a margin line, whose content is the column content, the last bar and the trail |
| Margin.CarriageReturnAtLineEnd | pkg/text/strip_margin.go:9 | for every blank indent and content, a bar line ending in CR keeps the CR in its margin content; no line ending in CR is a column line |
| Margin.StripMargin | pkg/text/strip_margin.go:20-43 | the result is never longer than the input; its contents are pinned by the lemmas below: margined lines round-trip, unmargined first and last lines are dropped, and a text with no margined line gives "" |
| Margin.StripColumn | pkg/text/strip_margin.go:59-74 | the result is never longer than the input; its contents are pinned by the lemmas below: column lines round-trip, first and last lines that are not column lines are dropped, and a text with no column line gives "" |
| Margin.StripMarginRoundTrip | pkg/text/strip_margin.go:20-43 | stripping margined lines gives their contents joined by "\n" |
| Margin.StripColumnRoundTrip | pkg/text/strip_margin.go:59-74 | stripping column lines gives their contents joined by "\n" |
| Margin.StripMarginWithoutMargin | pkg/text/strip_margin.go:20-40 | a text with no margined line strips to "" |
| Margin.StripColumnWithoutColumn | pkg/text/strip_margin.go:59-63 | a text with no column line strips to "" |
| Margin.StripMarginIgnoresFinalNewline | pkg/text/strip_margin.go:27-42 | a final newline on the input does not change the result |
| Margin.StripColumnIgnoresFinalNewline | pkg/text/strip_margin.go:59-74 | a final newline on the input does not change the result |
| Margin.StripMarginDropsFirstLine | pkg/text/strip_margin.go:29-35 | a first line without a margin leaves the result of the rest of the text unchanged, whatever that rest is |
| Margin.StripMarginDropsLastLine | pkg/text/strip_margin.go:29-35 | a last line without a margin leaves the result of the rest of the text unchanged, whatever that rest is |
| Margin.StripColumnDropsFirstLine | pkg/text/strip_margin.go:59-74 | a first line that is not a column line leaves the result of the rest of the text unchanged |
| Margin.StripColumnDropsLastLine | pkg/text/strip_margin.go:59-74 | a last line that is not a column line leaves the result of the rest of the text unchanged |
| Margin.StripMarginDocumentedShape | pkg/text/strip_margin.go:14-43 | the documented use: margined lines between an unmargined first line and an unmargined last line strip to exactly their contents joined by "\n" |
| Margin.StripColumnDocumentedShape | pkg/text/strip_margin.go:51-74 | the documented use: column lines between a first and a last line that are not column lines strip to exactly their contents joined by "\n" |
| Margin.StripSingleLine | pkg/text/strip_margin.go:20-74 | a single line strips to its content when accepted and to "" otherwise |
| Margin.StripColumnDropsHalfColumns | pkg/text/strip_margin.go:59-74 | of three example lines, one with only an opening bar, one with both bars around "line 2" and one with only a closing bar, the result is "line 2" |
| Margin.StripColumnEmptyColumn | pkg/text/strip_margin.go:59-74 | two bars with nothing between them give an empty column and strip to "", and a lone bar is no column line |
| Compare.VisualizeLine | pkg/text/string_diff.go:59-89 | "" gives "<empty>¶"; otherwise a quote, one glyph per character, a quote and ¶, three longer than the input |
| Compare.RawLine | pkg/text/string_diff.go:34-35 | a quote, the string verbatim, a quote and ¶ |
| Compare.CharacterDiff | pkg/text/string_diff.go:92-123 | a Position at a differing index with equal prefix and both characters, or a LengthDiff with both lengths when one is a prefix of the other, or NoDiff iff the strings are equal |
| Compare.CompareStringsInternal | pkg/text/string_diff.go:22-56 | MATCH header and three lines iff the strings are equal, else ASSERTION_FAILED, four lines and a final empty line; the expected string rendered after "  Expected: " or "- Expected: " and the actual one after "  Actual:   " or "+ Actual:   "; a difference is shown iff the strings differ, and it is the characterDiff result |
| Compare.CompareStrings | pkg/text/string_diff.go:11-13 | MATCH iff the strings are equal; the second and third lines are the match or failure label followed by the visualised expected and actual strings |
| Compare.CompareStringsRaw | pkg/text/string_diff.go:17-19 | MATCH iff the strings are equal; the second and third lines are the match or failure label followed by the raw expected and actual strings |
| Compare.VisualizedIsVisible | pkg/text/string_diff.go:59-89 | a visualised string holds no line feed and none of the visualised whitespace characters |
| Compare.VisualizeAgreesWithShowWhitespaces | pkg/text/string_diff.go:67-84 | on a single line, the glyphs between the quotes are those of showWhitespaces |
| Compare.RawComparisonAgreesWhenVisible | pkg/text/string_diff.go:11-19 | for non-empty strings with nothing to visualise, the raw and the visualised comparison coincide |
| Compare.RawLineAddsNoGlyph | pkg/text/string_diff.go:34-35 | raw rendering adds no glyph, and "" is shown as empty quotes and ¶, never "<empty>" |
| Compare.RawAddsNoGlyph | pkg/text/string_diff.go:33-44 | in raw mode no line of the report holds a glyph the strings did not hold |
| Compare.MismatchGivesPosition | pkg/text/string_diff.go:99-113 | a difference within the common length is reported at the first differing index with the expected and actual characters |
| Compare.PrefixGivesLengthDiff | pkg/text/string_diff.go:114-117 | when one string is a proper prefix of the other, both lengths are reported and no position |
| Compare.CharacterDiffSwap | pkg/text/string_diff.go:92-123 | swapping the two strings swaps their roles in the report |
| Compare.CharacterDiffCountsCodePoints | pkg/text/string_diff.go:93-95 | "Hello 世界" against the expected "Hello 地球" differs at code point 6 |
| Compare.VisualizedReportLines | pkg/text/string_diff.go:22-56 | the visualised report text splits at line feeds into exactly its lines, whatever the strings hold |

## Left out

- The Go regular-expression engine behind `stripMarginGroup` and `stripColumnGroup`. Both patterns only ever match within one line, so `MarginContent` and `ColumnContent` state the per-line rule directly. They follow leftmost-first matching: the greedy `(.*)` keeps a trailing CR, and `$` matches only before LF.
- Compare.CharacterDiff: returns a `Position`, `LengthDiff` or `NoDiff` value. It does not build the text `fmt.Sprintf` formats (`%d`, `%c`, `U+%04X`).
- Compare.CompareStringsInternal: gives the report as its lines plus the difference value. `Text` joins the lines; the line "  " + formatted difference is not built, for the reason above.
- `compareStringsSideBySide` and `maxLineLength` in string_diff.go are not modelled. They are unused helpers that rely on `fmt` width padding.
- Byte-level UTF-8 is not modelled. Strings are sequences of scalar values, so Go's mapping of invalid bytes to U+FFFD is left out. Widths count code points, as the code does, not terminal display columns.
- `strings.Builder` is modelled as the concatenation of what is written. `strings.Split` and `strings.Join` are modelled only for the one-character separator the code uses.
- The sample-document tests (JSON, XML, YAML, SQL) are not modelled. They only feed text through the strippers into foreign parsers.
- Margin.StripColumnDropsHalfColumns: states the example on the text built by joining its three lines with "\n". That is the same string as the literal, but written so the proof does not unfold a long literal.
- TextDiffTheorems.RenderEnding: stated for results whose last row has single-line sides and whose flags agree with their rows (`EndingConditions`). `ComputeDiffEndingConditions` proves every result of `computeDiff` meets them, and `DiffReportEnding` states the ending for `Diff` itself.
