/** Properties of the line diff engine of pkg/text/text_diff.go that relate
    several of its functions: normalisation and splitting round trips, what
    `Match` means, where the Different row can be, the trailing-terminator
    rows, column widths, the ending of the rendered report, and the mirror
    symmetry between `computeDiff(a, b)` and `computeDiff(b, a)`. */
module TextDiffTheorems {
  import opened Runes
  import opened TextDiff

  // ------------------------------------------------------- normalisation

  /** Reference definition: one pass, each CRLF or lone CR becomes one LF. */
  function NormalizeOnePass(s: string): string
  {
    if |s| == 0 then []
    else if s[0] == '\r' then "\n" + NormalizeOnePass(if |s| >= 2 && s[1] == '\n' then s[2..] else s[1..])
    else [s[0]] + NormalizeOnePass(s[1..])
  }

  lemma ReplaceCrConcat(x: string, y: string)
    ensures ReplaceCr(x + y) == ReplaceCr(x) + ReplaceCr(y)
  {
  }

  /** The two `ReplaceAll` passes (CRLF first, then CR) agree with the
      one-pass definition: a CRLF becomes a single newline, not two. */
  lemma {:induction false} NormalizeIsOnePass(s: string)
    ensures NormalizeLineEndings(s) == NormalizeOnePass(s)
  {
    if |s| == 0 {
    } else if |s| >= 2 && s[0] == '\r' && s[1] == '\n' {
      NormalizeIsOnePass(s[2..]);
      ReplaceCrConcat("\n", ReplaceCrLf(s[2..]));
    } else {
      NormalizeIsOnePass(s[1..]);
      ReplaceCrConcat([s[0]], ReplaceCrLf(s[1..]));
    }
  }

  /** Text without CR is left alone by both passes. */
  lemma {:induction false} NormalizeWithoutCr(s: string)
    requires '\r' !in s
    ensures NormalizeLineEndings(s) == s
  {
    ReplaceCrLfWithoutCr(s);
  }

  lemma {:induction false} ReplaceCrLfWithoutCr(s: string)
    requires '\r' !in s
    ensures ReplaceCrLf(s) == s
  {
    if |s| > 0 {
      assert s[0] in s;
      assert forall c :: c in s[1..] ==> c in s;
      ReplaceCrLfWithoutCr(s[1..]);
      assert [s[0]] + s[1..] == s;
    }
  }

  /** Normalising twice is normalising once. */
  lemma NormalizeIdempotent(s: string)
    ensures NormalizeLineEndings(NormalizeLineEndings(s)) == NormalizeLineEndings(s)
  {
    NormalizeWithoutCr(NormalizeLineEndings(s));
  }

  // ---------------------------------------------------------------- splitting

  /** Joining the lines with "\n" and putting back the trailing terminator
      gives the normalised text. */
  lemma SplitLinesRoundTrip(text: string)
    ensures Join(SplitLines(text), "\n") + Newline(HasTrailingNewline(text)) == NormalizeLineEndings(text)
  {
    var n := NormalizeLineEndings(text);
    if n != "" {
      var parts := Split(n, '\n');
      JoinSplit(n, '\n');
      assert Join(parts, "\n") == n;
      if |parts| > 1 && parts[|parts| - 1] == "" {
        JoinLast(parts, "\n");
        assert n[|n| - 1] == '\n';
      } else if |parts| == 1 {
        assert n == parts[0];
        assert n[|n| - 1] in parts[0];
      } else {
        JoinLast(parts, "\n");
        var last := parts[|parts| - 1];
        assert n == Join(parts[..|parts| - 1], "\n") + "\n" + last;
        assert n[|n| - 1] == last[|last| - 1];
        assert last[|last| - 1] in last;
      }
    }
  }

  /** Splitting only sees the normalised text. */
  lemma SplitLinesOfNormalized(text: string)
    ensures SplitLines(NormalizeLineEndings(text)) == SplitLines(text)
    ensures HasTrailingNewline(NormalizeLineEndings(text)) == HasTrailingNewline(text)
  {
    NormalizeIdempotent(text);
  }

  /** Lines plus trailing-terminator flag identify the normalised text. */
  lemma SplitLinesDetermineNormalized(x: string, y: string)
    ensures SplitLines(x) == SplitLines(y) && HasTrailingNewline(x) == HasTrailingNewline(y)
       <==> NormalizeLineEndings(x) == NormalizeLineEndings(y)
  {
    SplitLinesRoundTrip(x);
    SplitLinesRoundTrip(y);
    SplitLinesOfNormalized(x);
    SplitLinesOfNormalized(y);
  }

  // ------------------------------------------------------------ visualising

  /** Text without the five whitespace characters is shown as it is. */
  lemma ShowWhitespacesFixes(s: string)
    requires forall i :: 0 <= i < |s| ==> s[i] !in WhitespaceGlyphs
    ensures ShowWhitespaces(s) == s
  {
  }

  /** Visualising twice is visualising once. */
  lemma ShowWhitespacesIdempotent(s: string)
    ensures ShowWhitespaces(ShowWhitespaces(s)) == ShowWhitespaces(s)
  {
    ShowWhitespacesFixes(ShowWhitespaces(s));
  }

  /** Visualisation never adds or removes a newline. */
  lemma ShowWhitespacesKeepsNewlines(s: string)
    ensures forall i :: 0 <= i < |s| ==> (ShowWhitespaces(s)[i] == '\n' <==> s[i] == '\n')
  {
  }

  // ---------------------------------------------------------------- matching

  /** `computeDiff` only sees the normalised texts. */
  lemma ComputeDiffNormalized(expected: string, actual: string)
    ensures ComputeDiff(expected, actual)
      == ComputeDiff(NormalizeLineEndings(expected), NormalizeLineEndings(actual))
  {
    SplitLinesOfNormalized(expected);
    SplitLinesOfNormalized(actual);
  }

  /** The texts match iff they are equal once line endings are normalised. */
  lemma MatchIffNormalizedEqual(expected: string, actual: string)
    ensures ComputeDiff(expected, actual).matched
      <==> NormalizeLineEndings(expected) == NormalizeLineEndings(actual)
  {
    SplitLinesDetermineNormalized(expected, actual);
  }

  /** A text always matches itself. */
  lemma MatchReflexive(s: string)
    ensures ComputeDiff(s, s).matched
  {
    MatchIffNormalizedEqual(s, s);
  }

  /** Whether two texts match does not depend on their order. */
  lemma MatchSymmetric(a: string, b: string)
    ensures ComputeDiff(a, b).matched == ComputeDiff(b, a).matched
  {
    MatchIffNormalizedEqual(a, b);
    MatchIffNormalizedEqual(b, a);
  }

  // ------------------------------------------------------------- examples

  /** The pointer sits after the common prefix: five spaces for two equal
      five-letter words, two for "short" against "sh", none when the first
      characters differ or a side is empty. */
  lemma StringDiffExamples()
    ensures StringDiff("hello", "hello") == "     \U{25B3}"
    ensures StringDiff("short", "sh") == "  \U{25B3}"
    ensures StringDiff("abc", "xyz") == "\U{25B3}"
    ensures StringDiff("test", "") == "\U{25B3}"
  {
    CommonPrefixLengthFull("hello", "hello");
    assert "short"[..2] == "sh";
    CommonPrefixLengthFull("short", "sh");
  }

  /** Two empty texts give one empty Equal row and match; an empty text
      against a lone terminator gives that row and then the sentinel on the
      actual side. */
  lemma EmptyTextDiffs()
    ensures ComputeDiff("", "").lines == [DiffLine("", "", Equal)]
    ensures ComputeDiff("", "").matched
    ensures ComputeDiff("", "\n").lines == [DiffLine("", "", Equal), DiffLine("", TrailingSentinel, MissingInExpected)]
    ensures !ComputeDiff("", "\n").matched
  {
    NormalizeWithoutCr("\n");
    assert Split("\n", '\n') == ["", ""] by {
      assert "\n" == "" + ['\n'];
      SplitTrailingSeparator("", '\n');
    }
    assert SplitLines("\n") == [""];
    assert HasTrailingNewline("\n");
  }

  // ---------------------------------------------------------------- mirror

  /** The status a row gets when the two texts change places. */
  function MirrorStatus(status: DiffStatus): DiffStatus
  {
    match status
    case Equal => Equal
    case Different => Different
    case MissingInActual => MissingInExpected
    case MissingInExpected => MissingInActual
  }

  /** A row with its two sides exchanged. */
  function Mirror(line: DiffLine): DiffLine
  {
    DiffLine(line.actual, line.expected, MirrorStatus(line.status))
  }

  function MirrorRows(lines: seq<DiffLine>): (r: seq<DiffLine>)
    ensures |r| == |lines|
  {
    seq(|lines|, i requires 0 <= i < |lines| => Mirror(lines[i]))
  }

  lemma MirrorRowsAppend(a: seq<DiffLine>, b: seq<DiffLine>)
    ensures MirrorRows(a + b) == MirrorRows(a) + MirrorRows(b)
  {
  }

  /** The common part of the comparison is the same walk either way round. */
  lemma {:induction false} CompareCommonMirror(eL: seq<string>, aL: seq<string>)
    ensures CompareCommon(aL, eL).1 == CompareCommon(eL, aL).1
    ensures CompareCommon(aL, eL).0 == MirrorRows(CompareCommon(eL, aL).0)
  {
    if |eL| > 0 && |aL| > 0 && eL[0] == aL[0] {
      CompareCommonMirror(eL[1..], aL[1..]);
      MirrorRowsAppend([DiffLine(eL[0], aL[0], Equal)], CompareCommon(eL[1..], aL[1..]).0);
    }
  }

  /** Surplus rows come from one side only, so exchanging the texts mirrors them. */
  lemma SurplusRowsMirror(eL: seq<string>, aL: seq<string>, found: bool)
    ensures SurplusRows(aL, eL, found) == MirrorRows(SurplusRows(eL, aL, found))
  {
    var m := Min(|eL|, |aL|);
    assert Min(|aL|, |eL|) == m;
    if |eL| <= |aL| {
      assert eL[m..] == [];
    } else {
      assert aL[m..] == [];
    }
  }

  /** The trailing-terminator row moves to the other side. */
  lemma TrailingRowsMirror(eT: bool, aT: bool, found: bool, same: bool)
    ensures TrailingRows(aT, eT, found, same) == MirrorRows(TrailingRows(eT, aT, found, same))
  {
  }

  /** Exchanging the line lists mirrors every row, in place. */
  lemma RowsMirror(eL: seq<string>, aL: seq<string>, eT: bool, aT: bool)
    ensures Rows(aL, eL, aT, eT) == MirrorRows(Rows(eL, aL, eT, aT))
  {
    var common := CompareCommon(eL, aL);
    var surplus := SurplusRows(eL, aL, common.1);
    var trailing := TrailingRows(eT, aT, common.1, |eL| == |aL|);
    CompareCommonMirror(eL, aL);
    SurplusRowsMirror(eL, aL, common.1);
    TrailingRowsMirror(eT, aT, common.1, |eL| == |aL|);
    MirrorRowsAppend(common.0, surplus);
    MirrorRowsAppend(common.0 + surplus, trailing);
  }

  /** Exchanging the line lists and flags mirrors the rows and keeps the
      width and both flags. */
  lemma DiffLinesMirror(eL: seq<string>, aL: seq<string>, eT: bool, aT: bool)
    ensures var r := DiffLines(eL, aL, eT, aT);
      DiffLines(aL, eL, aT, eT) == r.(lines := MirrorRows(r.lines))
  {
    RowsMirror(eL, aL, eT, aT);
  }

  /** `computeDiff(actual, expected)` is `computeDiff(expected, actual)` with
      every row mirrored: the same width, the same match and trailing flags,
      the sides of each row exchanged and the two Missing statuses swapped. */
  lemma ComputeDiffMirror(expected: string, actual: string)
    ensures var r := ComputeDiff(expected, actual);
      ComputeDiff(actual, expected) == r.(lines := MirrorRows(r.lines))
  {
    DiffLinesMirror(SplitLines(expected), SplitLines(actual),
      HasTrailingNewline(expected), HasTrailingNewline(actual));
  }

  // ------------------------------------------------------------------ rows

  /** No surplus row and no trailing-terminator row is Different. */
  lemma NoDifferentAfterCommon(eL: seq<string>, aL: seq<string>, eT: bool, aT: bool)
    ensures var found := CompareCommon(eL, aL).1;
      var tail := SurplusRows(eL, aL, found) + TrailingRows(eT, aT, found, |eL| == |aL|);
      forall j :: 0 <= j < |tail| ==> tail[j].status != Different
  {
    var found := CompareCommon(eL, aL).1;
    var surplus := SurplusRows(eL, aL, found);
    var trailing := TrailingRows(eT, aT, found, |eL| == |aL|);
    assert forall j :: 0 <= j < |surplus| ==> surplus[j].status != Different;
    assert forall j :: 0 <= j < |trailing| ==> trailing[j].status != Different;
  }

  /** Rows appended after a run of Equal rows leave that run in place. */
  lemma EqualRunKept(c: seq<DiffLine>, tail: seq<DiffLine>, eL: seq<string>, aL: seq<string>, k: nat)
    requires k <= |c| && k <= |eL| && k <= |aL|
    requires forall i :: 0 <= i < k ==> c[i] == DiffLine(eL[i], aL[i], Equal)
    ensures forall i :: 0 <= i < k ==> i < |c + tail| && (c + tail)[i] == DiffLine(eL[i], aL[i], Equal)
  {
    forall i | 0 <= i < k
      ensures i < |c + tail| && (c + tail)[i] == DiffLine(eL[i], aL[i], Equal)
    {
      assert (c + tail)[i] == c[i];
    }
  }

  /** The rows before the first mismatching line are Equal rows carrying the
      original lines. */
  lemma RowsBeforeMismatch(eL: seq<string>, aL: seq<string>, eT: bool, aT: bool)
    ensures var lines := Rows(eL, aL, eT, aT);
      forall i :: 0 <= i < CommonPrefixLength(eL, aL) ==>
        i < |lines| && lines[i] == DiffLine(eL[i], aL[i], Equal)
  {
    var common := CompareCommon(eL, aL);
    RowsAsCommonAndTail(eL, aL, eT, aT);
    EqualRunKept(common.0, SurplusRows(eL, aL, common.1) + TrailingRows(eT, aT, common.1, |eL| == |aL|),
      eL, aL, CommonPrefixLength(eL, aL));
  }

  /** Appending rows that are not Different adds no Different row. */
  lemma AppendNonDifferent(c: seq<DiffLine>, tail: seq<DiffLine>, k: nat)
    requires forall i :: 0 <= i < |c| && i != k ==> c[i].status != Different
    requires forall j :: 0 <= j < |tail| ==> tail[j].status != Different
    ensures forall j :: 0 <= j < |c + tail| && j != k ==> (c + tail)[j].status != Different
  {
    forall j | 0 <= j < |c + tail| && j != k
      ensures (c + tail)[j].status != Different
    {
      if j >= |c| {
        assert (c + tail)[j] == tail[j - |c|];
      }
    }
  }

  /** The rows of the common part are Equal except possibly the last. */
  lemma CommonRowsBeforeMismatch(eL: seq<string>, aL: seq<string>)
    ensures var c := CompareCommon(eL, aL).0;
      forall i :: 0 <= i < |c| && i != CommonPrefixLength(eL, aL) ==> c[i].status != Different
  {
  }

  /** The rows are the common part followed by the tail of surplus and
      trailing-terminator rows. */
  lemma RowsAsCommonAndTail(eL: seq<string>, aL: seq<string>, eT: bool, aT: bool)
    ensures var common := CompareCommon(eL, aL);
      Rows(eL, aL, eT, aT)
        == common.0 + (SurplusRows(eL, aL, common.1) + TrailingRows(eT, aT, common.1, |eL| == |aL|))
  {
  }

  /** A row other than the one at the first mismatching line is never Different. */
  lemma OnlyMismatchRowDiffers(eL: seq<string>, aL: seq<string>, eT: bool, aT: bool)
    ensures var lines := Rows(eL, aL, eT, aT);
      forall j :: 0 <= j < |lines| && j != CommonPrefixLength(eL, aL) ==> lines[j].status != Different
  {
    var common := CompareCommon(eL, aL);
    NoDifferentAfterCommon(eL, aL, eT, aT);
    CommonRowsBeforeMismatch(eL, aL);
    RowsAsCommonAndTail(eL, aL, eT, aT);
    AppendNonDifferent(common.0, SurplusRows(eL, aL, common.1) + TrailingRows(eT, aT, common.1, |eL| == |aL|),
      CommonPrefixLength(eL, aL));
  }

  /** In common rows followed by a tail without Different rows, the row at
      `k` is the last common row when a difference was found, and is not
      Different otherwise. */
  lemma RowAtMismatch(c: seq<DiffLine>, tail: seq<DiffLine>, k: nat, found: bool)
    requires |c| == (if found then k + 1 else k)
    requires forall j :: 0 <= j < |tail| ==> tail[j].status != Different
    ensures found ==> k < |c + tail| && (c + tail)[k] == c[k]
    ensures !found && k < |c + tail| ==> (c + tail)[k].status != Different
  {
    if !found && k < |c + tail| {
      assert (c + tail)[k] == tail[k - |c|];
    }
  }

  /** The row at the first mismatching line, when the shorter text has one,
      is the Different row carrying both original lines; otherwise that row
      (if any) is not Different. */
  lemma MismatchRow(eL: seq<string>, aL: seq<string>, eT: bool, aT: bool)
    ensures var lines := Rows(eL, aL, eT, aT);
      var k := CommonPrefixLength(eL, aL);
      && (k < |eL| && k < |aL| ==> k < |lines| && lines[k] == DiffLine(eL[k], aL[k], Different))
      && (k < |lines| && lines[k].status == Different ==> k < |eL| && k < |aL|)
  {
    var common := CompareCommon(eL, aL);
    NoDifferentAfterCommon(eL, aL, eT, aT);
    RowsAsCommonAndTail(eL, aL, eT, aT);
    RowAtMismatch(common.0, SurplusRows(eL, aL, common.1) + TrailingRows(eT, aT, common.1, |eL| == |aL|),
      CommonPrefixLength(eL, aL), common.1);
  }

  /** The only Different row, if any, sits at the first mismatching line and
      carries the two original lines; every row before it is an Equal row
      carrying the original lines. So there is at most one Different row. */
  lemma DifferentRowIsFirstMismatch(eL: seq<string>, aL: seq<string>, eT: bool, aT: bool)
    ensures var lines := Rows(eL, aL, eT, aT);
      var k := CommonPrefixLength(eL, aL);
      && (forall j :: 0 <= j < |lines| && lines[j].status == Different ==> j == k && k < |eL| && k < |aL|)
      && (forall i :: 0 <= i < k ==> i < |lines| && lines[i] == DiffLine(eL[i], aL[i], Equal))
      && (k < |eL| && k < |aL| ==> k < |lines| && lines[k] == DiffLine(eL[k], aL[k], Different))
  {
    RowsBeforeMismatch(eL, aL, eT, aT);
    OnlyMismatchRowDiffers(eL, aL, eT, aT);
    MismatchRow(eL, aL, eT, aT);
  }

  /** An unmatched trailing terminator ends the rows with the "␤" sentinel on
      its side and nothing on the other; two trailing terminators on equal
      lines end them with an empty Equal row. */
  lemma TrailingTerminatorRow(eL: seq<string>, aL: seq<string>, eT: bool, aT: bool)
    ensures var lines := DiffLines(eL, aL, eT, aT).lines;
      && (eT && !aT ==> |lines| > 0 && lines[|lines| - 1] == DiffLine(TrailingSentinel, "", MissingInActual))
      && (!eT && aT ==> |lines| > 0 && lines[|lines| - 1] == DiffLine("", TrailingSentinel, MissingInExpected))
      && (eT && aT && eL == aL ==> |lines| > 0 && lines[|lines| - 1] == DiffLine("", "", Equal))
  {
    assert DiffLines(eL, aL, eT, aT).lines == Rows(eL, aL, eT, aT);
    if eL == aL {
      assert CommonPrefixLength(eL, aL) == |eL|;
    }
  }

  /** Both widths are the same: the widest visualised line of either text,
      and at least the width of the "Expected" label. */
  lemma ComputeDiffWidth(expected: string, actual: string)
    ensures var r := ComputeDiff(expected, actual);
      var eL := SplitLines(expected);
      var aL := SplitLines(actual);
      && r.expectedWidth == r.actualWidth
      && r.expectedWidth >= |ExpectedLabel|
      && (forall i :: 0 <= i < |eL| ==> |ShowWhitespaces(eL[i])| <= r.expectedWidth)
      && (forall i :: 0 <= i < |aL| ==> |ShowWhitespaces(aL[i])| <= r.expectedWidth)
      && (|| r.expectedWidth == |ExpectedLabel|
          || (exists i :: 0 <= i < |eL| && r.expectedWidth == |ShowWhitespaces(eL[i])|)
          || (exists i :: 0 <= i < |aL| && r.expectedWidth == |ShowWhitespaces(aL[i])|))
  {
    assert |ExpectedLabel| == 8 && |ActualLabel| == 6;
  }

  // ---------------------------------------------------------------- rendering

  lemma ConcatLast(pieces: seq<string>)
    requires |pieces| > 0
    ensures Concat(pieces) == Concat(pieces[..|pieces| - 1]) + pieces[|pieces| - 1]
  {
  }

  /** The builder holds at least as much as the first piece written. */
  lemma {:induction false} ConcatPrefixLength(pieces: seq<string>)
    requires |pieces| > 0
    ensures |Concat(pieces)| >= |pieces[0]|
  {
    if |pieces| > 1 {
      ConcatPrefixLength(pieces[..|pieces| - 1]);
    }
  }

  /** Every piece holds at least the three characters between the columns. */
  lemma PieceTextLength(piece: Piece, width: nat)
    ensures |PieceText(piece, width)| >= 3
  {
  }

  /** The report starts with the label row and the rule row whenever there
      is at least one row to render. */
  lemma RenderStartsWithHeader(result: DiffResult)
    requires |result.lines| > 0
    ensures var out := RenderDiff(result);
      var header := Header(result.expectedWidth);
      |out| >= |header| && out[..|header|] == header
  {
    var width := result.expectedWidth;
    var pieces := RowPieces(result.lines, result.hasTrailingNL);
    var texts := Texts(pieces, width);
    RowPiecesCount(result.lines, result.hasTrailingNL);
    TextsIndex(pieces, width, 0);
    PieceTextLength(pieces[0], width);
    ConcatPrefixLength(texts);
    var output := Header(width) + Concat(texts);
    assert output[..|Header(width)|] == Header(width);
  }

  /** The row loop returns at a Different row: what follows is never written. */
  lemma {:induction false} RowPiecesStopAtDifferent(lines: seq<DiffLine>, tnl: bool, j: nat)
    requires j < |lines| && lines[j].status == Different
    ensures RowPieces(lines, tnl) == RowPieces(lines[..j + 1], tnl)
  {
    if lines[0].status != Different {
      RowPiecesStep(lines, tnl);
      RowPiecesStep(lines[..j + 1], tnl);
      RowPiecesStopAtDifferent(lines[1..], tnl, j - 1);
      assert lines[1..][..j] == lines[..j + 1][1..];
    }
  }

  /** Rows after a Different row never reach the report. */
  lemma RenderIgnoresRowsAfterDifferent(result: DiffResult, j: nat)
    requires j < |result.lines| && result.lines[j].status == Different
    ensures RenderDiff(result) == RenderDiff(result.(lines := result.lines[..j + 1]))
  {
    RowPiecesStopAtDifferent(result.lines, result.hasTrailingNL, j);
  }

  /** Visualising and padding never introduce a line feed. */
  lemma PaddedShownHasNoNewline(s: string, width: nat)
    requires '\n' !in s
    ensures '\n' !in Rpad(ShowWhitespaces(s), width)
  {
    var shown := ShowWhitespaces(s);
    var r := Rpad(shown, width);
    forall i | 0 <= i < |r| ensures r[i] != '\n' {
      if i < |shown| {
        assert r[i] == shown[i];
        assert s[i] in s;
      }
    }
  }

  /** A content row of single-line sides is a single line of at least the
      three glue characters. */
  lemma ContentRowHasNoNewline(line: DiffLine, width: nat)
    requires '\n' !in line.expected && '\n' !in line.actual
    ensures var row := ContentRow(line, width);
      |row| >= 3 && '\n' !in row
  {
    PaddedShownHasNoNewline(line.expected, width);
    PaddedShownHasNoNewline(line.actual, width);
  }

  /** The pointer row is a single line: padding and one pointer glyph. */
  lemma PointerRowHasNoNewline(line: DiffLine, width: nat)
    ensures var row := PointerRow(line, width);
      |row| >= 4 && '\n' !in row
  {
    var sd := StringDiff(ShowWhitespaces(line.expected), ShowWhitespaces(line.actual));
    var right := Rpad(sd, width);
    forall i | 0 <= i < |right| ensures right[i] != '\n' {
      if i < |sd| {
        assert right[i] == sd[i];
      }
    }
  }

  /** `p` is one line of at least two characters, followed by a newline
      exactly when `present`: its last character is a newline only then, and
      the one before it never is. */
  predicate LineAndNewline(p: string, present: bool)
  {
    |p| >= 2 && (p[|p| - 1] == '\n' <==> present) && p[|p| - 2] != '\n'
  }

  /** A single line of two or more characters and an optional newline. */
  lemma LineThenNewline(row: string, present: bool)
    requires |row| >= 2 && '\n' !in row
    ensures LineAndNewline(row + Newline(present), present)
  {
    var p := row + Newline(present);
    if present {
      assert p[|p| - 2] == row[|row| - 1];
    } else {
      assert p == row;
      assert row[|row| - 1] in row && row[|row| - 2] in row;
    }
  }

  /** A piece is a single line followed by a newline exactly when its flag
      says so, provided a content row's sides are single lines. */
  lemma PieceTextEnding(piece: Piece, width: nat)
    requires piece.RowPiece? ==> '\n' !in piece.line.expected && '\n' !in piece.line.actual
    ensures LineAndNewline(PieceText(piece, width), piece.newline)
  {
    match piece
    case RowPiece(line, nl) =>
      ContentRowHasNoNewline(line, width);
      LineThenNewline(ContentRow(line, width), nl);
    case PointerPiece(line, nl) =>
      PointerRowHasNoNewline(line, width);
      LineThenNewline(PointerRow(line, width), nl);
  }

  /** The last piece written: the pointer row under the first Different row,
      or else the row of the last line. */
  lemma LastPiece(lines: seq<DiffLine>, tnl: bool)
    requires |lines| > 0
    ensures var pieces := RowPieces(lines, tnl);
      var k := FirstDifferent(lines);
      var n := |lines| - 1;
      && |pieces| > 0
      && pieces[|pieces| - 1]
         == if k < |lines| then PointerPiece(lines[k], tnl) else RowPiece(lines[n], lines[n].status == Equal || tnl)
  {
    if FirstDifferent(lines) < |lines| {
      RowPiecesAtDifferent(lines, tnl);
    } else {
      RowPiecesCount(lines, tnl);
      RowPiecesBefore(lines, tnl, |lines| - 1);
    }
  }

  /** Whether the last piece written carries a newline. */
  function LastPieceNewline(lines: seq<DiffLine>, tnl: bool): bool
    requires |lines| > 0
  {
    if FirstDifferent(lines) < |lines| then tnl else lines[|lines| - 1].status == Equal || tnl
  }

  /** The last piece carries the newline `LastPieceNewline` names, and a
      content row there is the row of the last line. */
  lemma LastPieceFlag(lines: seq<DiffLine>, tnl: bool)
    requires |lines| > 0
    ensures var pieces := RowPieces(lines, tnl);
      && |pieces| > 0
      && pieces[|pieces| - 1].newline == LastPieceNewline(lines, tnl)
      && (pieces[|pieces| - 1].RowPiece? ==> pieces[|pieces| - 1].line == lines[|lines| - 1])
  {
    LastPiece(lines, tnl);
  }

  /** The text of the last piece is a single line, followed by a newline
      exactly when `LastPieceNewline` says so. */
  lemma LastPieceText(lines: seq<DiffLine>, width: nat, tnl: bool)
    requires |lines| > 0
    requires var last := lines[|lines| - 1];
      '\n' !in last.expected && '\n' !in last.actual
    ensures var texts := Texts(RowPieces(lines, tnl), width);
      |texts| > 0 && LineAndNewline(texts[|texts| - 1], LastPieceNewline(lines, tnl))
  {
    var pieces := RowPieces(lines, tnl);
    LastPieceFlag(lines, tnl);
    TextsIndex(pieces, width, |pieces| - 1);
    PieceTextEnding(pieces[|pieces| - 1], width);
  }

  /** A report whose last text is a single line ends in a newline exactly
      when that text does and it is not trimmed. */
  lemma ReportEnding(head: string, texts: seq<string>, present: bool, trim: bool, endsInNewline: bool)
    requires |texts| > 0 && LineAndNewline(texts[|texts| - 1], present)
    requires trim ==> present
    requires endsInNewline <==> present && !trim
    ensures var out := Report(head, texts, trim);
      |out| > 0 && (out[|out| - 1] == '\n' <==> endsInNewline)
  {
    var last := texts[|texts| - 1];
    var before := head + Concat(texts[..|texts| - 1]);
    ConcatLast(texts);
    assert head + Concat(texts) == before + last;
    var output := before + last;
    assert output[|output| - 1] == last[|last| - 1];
    assert output[|output| - 2] == last[|last| - 2];
  }

  /** Under the conditions of `RenderEnding`, the last piece carries a
      newline unless it is to be trimmed, exactly when `hasTrailingNL`. */
  lemma EndingFlags(result: DiffResult)
    requires EndingConditions(result)
    ensures var lines := result.lines;
      var tnl := result.hasTrailingNL;
      var trim := result.matched && !tnl;
      && |lines| > 0
      && '\n' !in lines[|lines| - 1].expected && '\n' !in lines[|lines| - 1].actual
      && (trim ==> LastPieceNewline(lines, tnl))
      && (tnl <==> LastPieceNewline(lines, tnl) && !trim)
  {
    assert result.matched ==> FirstDifferent(result.lines) == |result.lines|;
  }

  /** The conditions under which `RenderEnding` describes how a report
      ends: a last row with single-line sides, a `matched` flag that means
      every row is Equal, and a last row that is not Equal when the result
      is unmatched, has no trailing terminators and no Different row. */
  predicate EndingConditions(result: DiffResult)
  {
    && |result.lines| > 0
    && '\n' !in result.lines[|result.lines| - 1].expected
    && '\n' !in result.lines[|result.lines| - 1].actual
    && (result.matched ==> AllEqual(result.lines))
    && (!result.matched && !result.hasTrailingNL && FirstDifferent(result.lines) == |result.lines|
        ==> result.lines[|result.lines| - 1].status != Equal)
  }

  /** How a report ends, for any result meeting `EndingConditions`: in a
      newline exactly when `hasTrailingNL`. */
  lemma RenderEnding(result: DiffResult)
    requires EndingConditions(result)
    ensures var out := RenderDiff(result);
      |out| > 0 && (out[|out| - 1] == '\n' <==> result.hasTrailingNL)
  {
    EndingFlags(result);
    RenderIsReport(result);
    RowsReportEnding(result.lines, result.expectedWidth, result.hasTrailingNL,
      result.matched && !result.hasTrailingNL);
  }

  /** `renderDiff` is the report of the header and the texts of the row pieces. */
  lemma RenderIsReport(result: DiffResult)
    ensures var width := result.expectedWidth;
      var tnl := result.hasTrailingNL;
      RenderDiff(result) == Report(Header(width), Texts(RowPieces(result.lines, tnl), width), result.matched && !tnl)
  {
  }

  /** The report of some rows ends in a newline exactly when `tnl`, provided
      the flags agree with the newline of the last piece. */
  lemma RowsReportEnding(lines: seq<DiffLine>, width: nat, tnl: bool, trim: bool)
    requires |lines| > 0
    requires '\n' !in lines[|lines| - 1].expected && '\n' !in lines[|lines| - 1].actual
    requires trim ==> LastPieceNewline(lines, tnl)
    requires tnl <==> LastPieceNewline(lines, tnl) && !trim
    ensures var out := Report(Header(width), Texts(RowPieces(lines, tnl), width), trim);
      |out| > 0 && (out[|out| - 1] == '\n' <==> tnl)
  {
    LastPieceText(lines, width, tnl);
    ReportEnding(Header(width), Texts(RowPieces(lines, tnl), width), LastPieceNewline(lines, tnl), trim, tnl);
  }

  /** No Different row and the same line count means the same lines. */
  lemma NoMismatchSameCount(eL: seq<string>, aL: seq<string>)
    ensures !CompareCommon(eL, aL).1 && |eL| == |aL| ==> eL == aL
  {
    if !CompareCommon(eL, aL).1 && |eL| == |aL| {
      var k := CommonPrefixLength(eL, aL);
      assert eL == eL[..k] && aL == aL[..k];
    }
  }

  /** Without a Different row the common lines held no mismatch. */
  lemma NoDifferentRowNotFound(eL: seq<string>, aL: seq<string>, eT: bool, aT: bool)
    requires var lines := Rows(eL, aL, eT, aT);
      FirstDifferent(lines) == |lines|
    ensures !CompareCommon(eL, aL).1
  {
    MismatchRow(eL, aL, eT, aT);
  }

  /** Lists of different lengths leave surplus rows, the last of which is
      not Equal. */
  lemma SurplusRowsLast(eL: seq<string>, aL: seq<string>)
    requires |eL| != |aL|
    ensures var surplus := SurplusRows(eL, aL, false);
      |surplus| > 0 && surplus[|surplus| - 1].status != Equal
  {
  }

  /** Without trailing terminators the rows are the common rows and the
      surplus rows. */
  lemma RowsWithoutTerminators(eL: seq<string>, aL: seq<string>)
    ensures var common := CompareCommon(eL, aL);
      Rows(eL, aL, false, false) == common.0 + SurplusRows(eL, aL, common.1)
  {
    var common := CompareCommon(eL, aL);
    assert TrailingRows(false, false, common.1, |eL| == |aL|) == [];
  }

  /** The last of appended rows is the last of the second part. */
  lemma AppendedLast(c: seq<DiffLine>, tail: seq<DiffLine>)
    requires |tail| > 0
    ensures |c + tail| > 0 && (c + tail)[|c + tail| - 1] == tail[|tail| - 1]
  {
  }

  /** With no Different row and no trailing terminators, unequal line lists
      leave a surplus row last. */
  lemma LastRowOfUnequalLines(eL: seq<string>, aL: seq<string>)
    requires eL != aL
    requires var lines := Rows(eL, aL, false, false);
      FirstDifferent(lines) == |lines|
    ensures var lines := Rows(eL, aL, false, false);
      |lines| > 0 && lines[|lines| - 1].status != Equal
  {
    NoDifferentRowNotFound(eL, aL, false, false);
    NoMismatchSameCount(eL, aL);
    SurplusRowsLast(eL, aL);
    RowsWithoutTerminators(eL, aL);
    AppendedLast(CompareCommon(eL, aL).0, SurplusRows(eL, aL, false));
  }

  /** The last row's sides are lines of the texts, empty, or the sentinel. */
  lemma LastRowSides(eL: seq<string>, aL: seq<string>, eT: bool, aT: bool)
    requires forall i :: 0 <= i < |eL| ==> '\n' !in eL[i]
    requires forall i :: 0 <= i < |aL| ==> '\n' !in aL[i]
    requires |Rows(eL, aL, eT, aT)| > 0
    ensures var lines := Rows(eL, aL, eT, aT);
      '\n' !in lines[|lines| - 1].expected && '\n' !in lines[|lines| - 1].actual
  {
    var common := CompareCommon(eL, aL);
    var surplus := SurplusRows(eL, aL, common.1);
    var trailing := TrailingRows(eT, aT, common.1, |eL| == |aL|);
    var lines := Rows(eL, aL, eT, aT);
    assert lines == common.0 + surplus + trailing;
    var last := lines[|lines| - 1];
    if |trailing| > 0 {
      assert last == trailing[|trailing| - 1];
    } else if |surplus| > 0 {
      assert last == surplus[|surplus| - 1];
    } else {
      assert last == common.0[|common.0| - 1];
    }
  }

  /** The diff of two lists of single lines meets `EndingConditions`. */
  lemma DiffLinesEndingConditions(eL: seq<string>, aL: seq<string>, eT: bool, aT: bool)
    requires |eL| > 0 && |aL| > 0
    requires forall i :: 0 <= i < |eL| ==> '\n' !in eL[i]
    requires forall i :: 0 <= i < |aL| ==> '\n' !in aL[i]
    ensures EndingConditions(DiffLines(eL, aL, eT, aT))
  {
    var result := DiffLines(eL, aL, eT, aT);
    assert result.lines == Rows(eL, aL, eT, aT);
    RowsNonEmpty(eL, aL, eT, aT);
    LastRowSides(eL, aL, eT, aT);
    if !result.matched && !result.hasTrailingNL && FirstDifferent(result.lines) == |result.lines| {
      LastRowOfUnequalLines(eL, aL);
    }
  }

  /** The diff of two texts meets `EndingConditions`. */
  lemma ComputeDiffEndingConditions(expected: string, actual: string)
    ensures EndingConditions(ComputeDiff(expected, actual))
  {
    DiffLinesEndingConditions(SplitLines(expected), SplitLines(actual),
      HasTrailingNewline(expected), HasTrailingNewline(actual));
  }

  /** There is always at least one row when both sides have a line. */
  lemma RowsNonEmpty(eL: seq<string>, aL: seq<string>, eT: bool, aT: bool)
    requires |eL| > 0 && |aL| > 0
    ensures |Rows(eL, aL, eT, aT)| > 0
  {
  }

  /** The report of `Diff` ends in a newline exactly when one of the two texts
      does; in particular a match of texts without trailing terminators has
      its final newline removed. */
  lemma DiffReportEnding(expected: string, actual: string)
    ensures var out := Diff(expected, actual).0;
      |out| > 0 && (out[|out| - 1] == '\n' <==> HasTrailingNewline(expected) || HasTrailingNewline(actual))
  {
    var result := ComputeDiff(expected, actual);
    ComputeDiffEndingConditions(expected, actual);
    RenderEnding(result);
    DiffIsRender(expected, actual);
  }

  /** The report of `Diff` is the rendering of `computeDiff`. */
  lemma DiffIsRender(expected: string, actual: string)
    ensures Diff(expected, actual).0 == RenderDiff(ComputeDiff(expected, actual))
  {
  }
}
