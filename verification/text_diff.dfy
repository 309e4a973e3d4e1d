/** The line diff engine of pkg/text/text_diff.go: line-ending normalisation,
    line splitting, whitespace visualisation, the first-difference-only line
    comparison (`computeDiff`) and the two-column report (`renderDiff`). */
module TextDiff {
  import opened Runes

  /** The four kinds of row (DiffStatus). */
  datatype DiffStatus = Equal | Different | MissingInActual | MissingInExpected

  /** One row of the comparison; both sides hold the original, unvisualised text. */
  datatype DiffLine = DiffLine(expected: string, actual: string, status: DiffStatus)

  /** The structured result handed from `computeDiff` to `renderDiff`. */
  datatype DiffResult = DiffResult(
    lines: seq<DiffLine>,
    expectedWidth: nat,
    actualWidth: nat,
    matched: bool,
    hasTrailingNL: bool)

  const ExpectedLabel: string := "Expected"
  const ActualLabel: string := "Actual"

  /** "␤", the content of the row that stands for an unmatched trailing terminator. */
  const TrailingSentinel: string := "\U{2424}"

  /** "△", the first-mismatch pointer. */
  const Pointer: char := '\U{25B3}'

  /** Whitespace characters and the glyphs `showWhitespaces` draws for them:
      space ␣, TAB ␉, VT ␋, FF ␌, CR ␍. Newline is not among them. */
  const WhitespaceGlyphs: map<char, char> := map[
    ' ' := '\U{2423}',
    '\t' := '\U{2409}',
    '\U{000B}' := '\U{240B}',
    '\U{000C}' := '\U{240C}',
    '\r' := '\U{240D}']

  // ---------------------------------------------------------------- padding

  /** `rpad`: pads with spaces on the right up to `length` code points and
      never truncates. */
  function Rpad(s: string, length: int): (r: string)
    ensures |r| == Max(|s|, length)
    ensures r[..|s|] == s
    ensures forall i :: |s| <= i < |r| ==> r[i] == ' '
  {
    var rc := length - |s|;
    if rc <= 0 then s else s + Repeat(' ', rc)
  }

  /** `stringDiff`: k spaces and the pointer glyph, k being the length of the
      longest common prefix of `a` and `b`. */
  function StringDiff(a: string, b: string): (r: string)
    ensures |r| >= 1 && r[|r| - 1] == Pointer
    ensures forall i :: 0 <= i < |r| - 1 ==> r[i] == ' '
    ensures |r| - 1 <= |a| && |r| - 1 <= |b|
    ensures a[..|r| - 1] == b[..|r| - 1]
    ensures |r| - 1 < |a| && |r| - 1 < |b| ==> a[|r| - 1] != b[|r| - 1]
  {
    Repeat(' ', CommonPrefixLength(a, b)) + [Pointer]
  }

  // --------------------------------------------------------- line endings

  /** `strings.ReplaceAll(text, "\r\n", "\n")`: left to right, non-overlapping. */
  function ReplaceCrLf(s: string): string
  {
    if |s| == 0 then []
    else if |s| >= 2 && s[0] == '\r' && s[1] == '\n' then "\n" + ReplaceCrLf(s[2..])
    else [s[0]] + ReplaceCrLf(s[1..])
  }

  /** `strings.ReplaceAll(text, "\r", "\n")`. */
  function ReplaceCr(s: string): string
  {
    seq(|s|, i requires 0 <= i < |s| => if s[i] == '\r' then '\n' else s[i])
  }

  /** The CRLF pass keeps the last character (a final CR has no LF after it). */
  lemma {:induction false} ReplaceCrLfLast(s: string)
    ensures |ReplaceCrLf(s)| == 0 <==> |s| == 0
    ensures |s| > 0 ==> ReplaceCrLf(s)[|ReplaceCrLf(s)| - 1] == s[|s| - 1]
  {
    if |s| >= 2 && s[0] == '\r' && s[1] == '\n' {
      ReplaceCrLfLast(s[2..]);
    } else if |s| > 0 {
      ReplaceCrLfLast(s[1..]);
    }
  }

  /** `normalizeLineEndings`: CRLF first, then every remaining CR, becomes LF. */
  function NormalizeLineEndings(text: string): (r: string)
    ensures '\r' !in r
    ensures |r| == 0 <==> |text| == 0
    ensures |r| > 0 ==> (r[|r| - 1] == '\n' <==> text[|text| - 1] == '\n' || text[|text| - 1] == '\r')
  {
    ReplaceCrLfLast(text);
    ReplaceCr(ReplaceCrLf(text))
  }

  /** `hasTrailingNewline`: the text ends in a line terminator. */
  function HasTrailingNewline(text: string): (b: bool)
    ensures b <==> |text| > 0 && (text[|text| - 1] == '\n' || text[|text| - 1] == '\r')
  {
    if |text| == 0 then false
    else
      var normalized := NormalizeLineEndings(text);
      |normalized| > 0 && normalized[|normalized| - 1] == '\n'
  }

  // ------------------------------------------------------------ visualising

  /** The `switch` of `showWhitespaces` on one rune. */
  function Glyph(c: char): char
  {
    match c
    case ' ' => '\U{2423}'
    case '\t' => '\U{2409}'
    case '\U{000B}' => '\U{240B}'
    case '\U{000C}' => '\U{240C}'
    case '\r' => '\U{240D}'
    case _ => c
  }

  /** `showWhitespaces`: one glyph per rune; every other rune, newline and all
      non-ASCII included, is kept; no visualised whitespace is left. */
  function ShowWhitespaces(s: string): (r: string)
    ensures |r| == |s|
    ensures forall i {:trigger r[i]} :: 0 <= i < |s| ==>
      r[i] == (if s[i] in WhitespaceGlyphs then WhitespaceGlyphs[s[i]] else s[i])
    ensures forall i :: 0 <= i < |r| ==> r[i] !in WhitespaceGlyphs
  {
    seq(|s|, i requires 0 <= i < |s| => Glyph(s[i]))
  }

  // ---------------------------------------------------------------- splitting

  /** `splitLines`: the lines of the normalised text, without the empty piece
      a final terminator would leave; the empty text is one empty line. */
  function SplitLines(text: string): (lines: seq<string>)
    ensures |lines| >= 1
    ensures forall i :: 0 <= i < |lines| ==> '\n' !in lines[i] && '\r' !in lines[i]
  {
    var normalized := NormalizeLineEndings(text);
    if normalized == "" then [""]
    else
      var lines := Split(normalized, '\n');
      if |lines| > 1 && lines[|lines| - 1] == "" then lines[..|lines| - 1] else lines
  }

  // ---------------------------------------------------------------- comparing

  /** `runesEqual`: lengths first, then rune by rune. */
  function RunesEqual(a: string, b: string): (r: bool)
    ensures r <==> a == b
  {
    if |a| != |b| then false else RunesEqualFrom(a, b, 0)
  }

  function RunesEqualFrom(a: string, b: string, i: nat): (r: bool)
    requires |a| == |b| && i <= |a|
    ensures r <==> a[i..] == b[i..]
    decreases |a| - i
  {
    if i == |a| then true
    else
      assert a[i..] == [a[i]] + a[i + 1..];
      assert b[i..] == [b[i]] + b[i + 1..];
      a[i] == b[i] && RunesEqualFrom(a, b, i + 1)
  }

  /** The column width seed plus the loop of `computeDiff` over one side: the
      widest visualised line, at least `width`. */
  function WidestVisible(width: nat, lines: seq<string>): (w: nat)
    ensures w >= width
    ensures forall i :: 0 <= i < |lines| ==> |ShowWhitespaces(lines[i])| <= w
    ensures w == width || exists i :: 0 <= i < |lines| && w == |ShowWhitespaces(lines[i])|
    decreases |lines|
  {
    if |lines| == 0 then width
    else
      var v := |ShowWhitespaces(lines[0])|;
      var w := WidestVisible(if v > width then v else width, lines[1..]);
      assert forall i :: 1 <= i < |lines| ==> lines[i] == lines[1..][i - 1];
      w
  }

  /** The lock-step loop over the common lines: Equal rows up to the first
      differing line, then one Different row and stop. The flag is
      `foundDifference`. */
  function CompareCommon(e: seq<string>, a: seq<string>): (r: (seq<DiffLine>, bool))
    ensures var k := CommonPrefixLength(e, a);
      && (r.1 <==> k < |e| && k < |a|)
      && |r.0| == (if r.1 then k + 1 else k)
      && (forall i {:trigger r.0[i]} :: 0 <= i < k ==> r.0[i] == DiffLine(e[i], a[i], Equal))
      && (r.1 ==> r.0[k] == DiffLine(e[k], a[k], Different))
    decreases |e|
  {
    if |e| == 0 || |a| == 0 then ([], false)
    else if RunesEqual(e[0], a[0]) then
      var rest := CompareCommon(e[1..], a[1..]);
      ([DiffLine(e[0], a[0], Equal)] + rest.0, rest.1)
    else ([DiffLine(e[0], a[0], Different)], true)
  }

  /** Rows for the lines one side has beyond the common length. */
  function MissingRows(extraExpected: seq<string>, extraActual: seq<string>): (rows: seq<DiffLine>)
    ensures |rows| == |extraExpected| + |extraActual|
    ensures forall i :: 0 <= i < |extraExpected| ==>
      rows[i] == DiffLine(extraExpected[i], "", MissingInActual)
    ensures forall j :: |extraExpected| <= j < |rows| ==>
      rows[j] == DiffLine("", extraActual[j - |extraExpected|], MissingInExpected)
  {
    seq(|extraExpected|, i requires 0 <= i < |extraExpected| => DiffLine(extraExpected[i], "", MissingInActual))
    + seq(|extraActual|, j requires 0 <= j < |extraActual| => DiffLine("", extraActual[j], MissingInExpected))
  }

  /** The trailing-terminator bookkeeping at the end of `computeDiff`. */
  function TrailingRows(expectedTrailing: bool, actualTrailing: bool, foundDifference: bool, sameCount: bool)
    : (rows: seq<DiffLine>)
    ensures |rows| <= 1
    ensures |rows| == 1 <==> expectedTrailing != actualTrailing || (expectedTrailing && !foundDifference && sameCount)
    ensures expectedTrailing && !actualTrailing ==> rows == [DiffLine(TrailingSentinel, "", MissingInActual)]
    ensures !expectedTrailing && actualTrailing ==> rows == [DiffLine("", TrailingSentinel, MissingInExpected)]
    ensures expectedTrailing == actualTrailing && |rows| == 1 ==> rows[0] == DiffLine("", "", Equal)
  {
    if expectedTrailing != actualTrailing then
      if expectedTrailing && !actualTrailing then [DiffLine(TrailingSentinel, "", MissingInActual)]
      else [DiffLine("", TrailingSentinel, MissingInExpected)]
    else if expectedTrailing && actualTrailing && !foundDifference && sameCount then [DiffLine("", "", Equal)]
    else []
  }

  /** The loops over the lines beyond the common length; they run when no
      difference was found or when the line counts differ. */
  function SurplusRows(eL: seq<string>, aL: seq<string>, foundDifference: bool): (rows: seq<DiffLine>)
    ensures foundDifference && |eL| == |aL| ==> rows == []
    ensures |eL| >= |aL| && (!foundDifference || |eL| != |aL|) ==>
      |rows| == |eL| - |aL| && forall j :: 0 <= j < |rows| ==> rows[j] == DiffLine(eL[|aL| + j], "", MissingInActual)
    ensures |aL| > |eL| ==>
      |rows| == |aL| - |eL| && forall j :: 0 <= j < |rows| ==> rows[j] == DiffLine("", aL[|eL| + j], MissingInExpected)
  {
    var m := Min(|eL|, |aL|);
    if !foundDifference || |eL| != |aL| then MissingRows(eL[m..], aL[m..]) else []
  }

  /** The rows of `computeDiff`, in the order they are appended. */
  function Rows(eL: seq<string>, aL: seq<string>, eT: bool, aT: bool): seq<DiffLine>
  {
    var common := CompareCommon(eL, aL);
    common.0 + SurplusRows(eL, aL, common.1) + TrailingRows(eT, aT, common.1, |eL| == |aL|)
  }

  /** True iff no row differs. */
  predicate AllEqual(lines: seq<DiffLine>)
  {
    forall i :: 0 <= i < |lines| ==> lines[i].status == Equal
  }

  /** The body of `computeDiff` once both texts are split and their trailing
      terminators detected: `match` is cleared by a Different row, by every
      surplus row and by an unmatched trailing terminator. */
  function DiffLines(eL: seq<string>, aL: seq<string>, eT: bool, aT: bool): (r: DiffResult)
    ensures r.matched <==> AllEqual(r.lines)
    ensures r.matched <==> eL == aL && eT == aT
    ensures r.hasTrailingNL <==> eT || aT
    ensures r.expectedWidth == r.actualWidth >= |ExpectedLabel|
  {
    var width := Max(WidestVisible(|ExpectedLabel|, eL), WidestVisible(|ActualLabel|, aL));
    var common := CompareCommon(eL, aL);
    var found := common.1;
    var surplus := SurplusRows(eL, aL, found);
    var trailing := TrailingRows(eT, aT, found, |eL| == |aL|);
    var lines := Rows(eL, aL, eT, aT);
    assert lines == common.0 + surplus + trailing;
    assert !found && |eL| == |aL| ==> eL == aL by {
      if !found && |eL| == |aL| {
        assert eL == eL[..|eL|] && aL == aL[..|aL|];
      }
    }
    assert found ==> lines[CommonPrefixLength(eL, aL)].status == Different;
    assert |surplus| > 0 ==> lines[|common.0|].status != Equal;
    assert eT != aT ==> lines[|lines| - 1].status != Equal;
    DiffResult(lines, width, width, !found && |surplus| == 0 && eT == aT, eT || aT)
  }

  /** `computeDiff`. */
  function ComputeDiff(expected: string, actual: string): (r: DiffResult)
    ensures r.matched <==> AllEqual(r.lines)
    ensures r.matched <==> (SplitLines(expected) == SplitLines(actual)
      && HasTrailingNewline(expected) == HasTrailingNewline(actual))
    ensures r.hasTrailingNL <==> HasTrailingNewline(expected) || HasTrailingNewline(actual)
    ensures r.expectedWidth == r.actualWidth >= |ExpectedLabel|
  {
    DiffLines(SplitLines(expected), SplitLines(actual), HasTrailingNewline(expected), HasTrailingNewline(actual))
  }

  // ---------------------------------------------------------------- rendering

  /** The three-character glue between the columns of a content row. */
  function Glue(status: DiffStatus): string
  {
    match status
    case Equal => " | "
    case Different => " \U{2260} "
    case MissingInActual => " \U{2190} "
    case MissingInExpected => " \U{2192} "
  }

  function Newline(present: bool): string { if present then "\n" else "" }

  /** First header row: both labels padded to the column width. */
  function LabelRow(width: nat): string
  {
    Rpad(ExpectedLabel, width) + " | " + Rpad(ActualLabel, width)
  }

  /** Second header row: a dash rule under each column. */
  function RuleRow(width: nat): string
  {
    Repeat('-', width) + " | " + Repeat('-', width)
  }

  function Header(width: nat): string
  {
    LabelRow(width) + "\n" + RuleRow(width) + "\n"
  }

  /** Both header rows span the two columns and the glue between them once
      the width fits the labels; the first starts with the expected label
      and the second rules each column with dashes. */
  lemma HeaderLayout(width: nat)
    requires width >= |ExpectedLabel|
    ensures |LabelRow(width)| == 2 * width + 3
    ensures LabelRow(width)[..|ExpectedLabel|] == ExpectedLabel
    ensures LabelRow(width)[width..width + 3] == " | "
    ensures |RuleRow(width)| == 2 * width + 3
    ensures forall i :: 0 <= i < width ==> RuleRow(width)[i] == '-'
    ensures RuleRow(width)[width..width + 3] == " | "
    ensures forall i :: width + 3 <= i < 2 * width + 3 ==> RuleRow(width)[i] == '-'
    ensures forall i :: |ExpectedLabel| <= i < width ==> LabelRow(width)[i] == ' '
    ensures LabelRow(width)[width + 3..width + 3 + |ActualLabel|] == ActualLabel
    ensures forall i :: width + 3 + |ActualLabel| <= i < 2 * width + 3 ==> LabelRow(width)[i] == ' '
  {
    var left := Rpad(ExpectedLabel, width);
    var right := Rpad(ActualLabel, width);
    assert LabelRow(width)[..|ExpectedLabel|] == left[..|ExpectedLabel|];
    assert LabelRow(width)[width + 3..width + 3 + |ActualLabel|] == right[..|ActualLabel|];
  }

  /** A content row, both sides visualised and padded, without its terminator. */
  function ContentRow(line: DiffLine, width: nat): string
  {
    Rpad(ShowWhitespaces(line.expected), width) + Glue(line.status) + Rpad(ShowWhitespaces(line.actual), width)
  }

  /** The pointer row under a Different row: the same pointer in both columns,
      computed on the visualised sides and joined by three spaces. */
  function PointerRow(line: DiffLine, width: nat): string
  {
    var sd := StringDiff(ShowWhitespaces(line.expected), ShowWhitespaces(line.actual));
    Rpad(sd, width) + "   " + Rpad(sd, width)
  }

  /** Index of the first Different row, or the number of rows. */
  function FirstDifferent(lines: seq<DiffLine>): (k: nat)
    ensures k <= |lines|
    ensures forall i :: 0 <= i < k ==> lines[i].status != Different
    ensures k < |lines| ==> lines[k].status == Different
  {
    if |lines| == 0 || lines[0].status == Different then 0
    else 1 + FirstDifferent(lines[1..])
  }

  /** What one `WriteString` of the row loop of `renderDiff` writes: a
      content row or the pointer row under a Different row, followed by a
      newline when `newline` is set. */
  datatype Piece = RowPiece(line: DiffLine, newline: bool) | PointerPiece(line: DiffLine, newline: bool)

  function PieceText(piece: Piece, width: nat): string
  {
    match piece
    case RowPiece(line, nl) => ContentRow(line, width) + Newline(nl)
    case PointerPiece(line, nl) => PointerRow(line, width) + Newline(nl)
  }

  /** The texts of several pieces, in order. */
  function Texts(pieces: seq<Piece>, width: nat): seq<string>
  {
    if |pieces| == 0 then [] else [PieceText(pieces[0], width)] + Texts(pieces[1..], width)
  }

  /** One text per piece, each the text of its piece. */
  lemma {:induction false} TextsIndex(pieces: seq<Piece>, width: nat, i: nat)
    requires i < |pieces|
    ensures |Texts(pieces, width)| == |pieces|
    ensures Texts(pieces, width)[i] == PieceText(pieces[i], width)
  {
    if i > 0 {
      TextsIndex(pieces[1..], width, i - 1);
    } else if |pieces| > 1 {
      TextsIndex(pieces[1..], width, 0);
    }
  }

  /** The pieces the row loop of `renderDiff` writes: one per line up to the
      first Different line, then that row and its pointer row and nothing
      more. Equal rows always end in a newline, Missing rows and the pointer
      row only when `trailingNL` is set. */
  function RowPieces(lines: seq<DiffLine>, trailingNL: bool): (pieces: seq<Piece>)
  {
    if |lines| == 0 then []
    else
      var line := lines[0];
      match line.status
      case Equal => [RowPiece(line, true)] + RowPieces(lines[1..], trailingNL)
      case Different => [RowPiece(line, true), PointerPiece(line, trailingNL)]
      case MissingInActual => [RowPiece(line, trailingNL)] + RowPieces(lines[1..], trailingNL)
      case MissingInExpected => [RowPiece(line, trailingNL)] + RowPieces(lines[1..], trailingNL)
  }

  /** A row that is not Different is written as one piece, and the loop
      goes on with the next row. */
  lemma RowPiecesStep(lines: seq<DiffLine>, trailingNL: bool)
    requires |lines| > 0 && lines[0].status != Different
    ensures RowPieces(lines, trailingNL)
      == [RowPiece(lines[0], lines[0].status == Equal || trailingNL)] + RowPieces(lines[1..], trailingNL)
  {
  }

  /** Rendering writes one piece per row up to the first Different row, and
      two more (that row and its pointer row) when there is one. */
  lemma {:induction false} RowPiecesCount(lines: seq<DiffLine>, trailingNL: bool)
    ensures var k := FirstDifferent(lines);
      |RowPieces(lines, trailingNL)| == (if k < |lines| then k + 2 else k)
  {
    if |lines| > 0 && lines[0].status != Different {
      RowPiecesStep(lines, trailingNL);
      RowPiecesCount(lines[1..], trailingNL);
    }
  }

  /** Every row before the first Different one is rendered on its own; Equal
      rows always end in a newline, Missing rows only when `trailingNL`. */
  lemma {:induction false} RowPiecesBefore(lines: seq<DiffLine>, trailingNL: bool, i: nat)
    requires i < FirstDifferent(lines)
    ensures i < |RowPieces(lines, trailingNL)|
    ensures RowPieces(lines, trailingNL)[i] == RowPiece(lines[i], lines[i].status == Equal || trailingNL)
  {
    RowPiecesCount(lines, trailingNL);
    RowPiecesStep(lines, trailingNL);
    if i > 0 {
      RowPiecesBefore(lines[1..], trailingNL, i - 1);
      assert lines[1..][i - 1] == lines[i];
    }
  }

  /** The first Different row ends in a newline, its pointer row ends in one
      only when `trailingNL`, and they are the last pieces written. */
  lemma {:induction false} RowPiecesAtDifferent(lines: seq<DiffLine>, trailingNL: bool)
    requires FirstDifferent(lines) < |lines|
    ensures var k := FirstDifferent(lines);
      var pieces := RowPieces(lines, trailingNL);
      && |pieces| == k + 2
      && pieces[k] == RowPiece(lines[k], true)
      && pieces[k + 1] == PointerPiece(lines[k], trailingNL)
  {
    RowPiecesCount(lines, trailingNL);
    if lines[0].status != Different {
      RowPiecesStep(lines, trailingNL);
      RowPiecesAtDifferent(lines[1..], trailingNL);
    }
  }

  /** What the builder of `renderDiff` holds once `head` and `texts` are
      written, with one final newline dropped when `trim` is set. */
  function Report(head: string, texts: seq<string>, trim: bool): string
  {
    var output := head + Concat(texts);
    if trim && |output| > 0 && output[|output| - 1] == '\n' then output[..|output| - 1] else output
  }

  /** `renderDiff`: header, rows, and one final newline dropped when the texts
      matched and neither ended in a terminator. */
  function RenderDiff(result: DiffResult): (out: string)
    ensures var rows := LabelRow(result.expectedWidth) + "\n" + RuleRow(result.expectedWidth);
      |rows| <= |out| && out[..|rows|] == rows
  {
    var width := result.expectedWidth;
    var texts := Texts(RowPieces(result.lines, result.hasTrailingNL), width);
    var rows := LabelRow(width) + "\n" + RuleRow(width);
    assert Header(width) + Concat(texts) == rows + ("\n" + Concat(texts));
    Report(Header(width), texts, result.matched && !result.hasTrailingNL)
  }

  /** `Diff`: the rendered report and whether the two texts matched. */
  function Diff(expected: string, actual: string): (r: (string, bool))
    ensures r.1 <==> (SplitLines(expected) == SplitLines(actual)
      && HasTrailingNewline(expected) == HasTrailingNewline(actual))
    ensures var width := ComputeDiff(expected, actual).expectedWidth;
      var rows := LabelRow(width) + "\n" + RuleRow(width);
      |rows| <= |r.0| && r.0[..|rows|] == rows
  {
    var result := ComputeDiff(expected, actual);
    (RenderDiff(result), result.matched)
  }
}
