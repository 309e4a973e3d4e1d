/** The string comparator of pkg/text/string_diff.go: a MATCH or
    ASSERTION_FAILED header, the two strings rendered one per line (visualised
    or raw), and on a failure the first character difference or the length
    difference.

    Go's `CompareStrings(actual, expected)` takes the actual string first;
    the members here keep that order. */
module Compare {
  import opened Runes
  import TextDiff

  /** The header lines, without their line feeds. */
  const MatchHeader: string := "CompareStrings: \U{2713} [MATCH]"
  const FailureHeader: string := "CompareStrings: \U{2717} [ASSERTION_FAILED]"

  /** The labels in front of the two rendered strings, all twelve characters wide. */
  const MatchExpectedLabel: string := "  Expected: "
  const MatchActualLabel: string := "  Actual:   "
  const FailureExpectedLabel: string := "- Expected: "
  const FailureActualLabel: string := "+ Actual:   "

  /** "¶", the end-of-line marker after every rendered string. */
  const Pilcrow: char := '\U{00B6}'

  /** What `visualizeLine` shows for the empty string. */
  const EmptyMarker: string := "<empty>\U{00B6}"

  /** "␊", the glyph `visualizeLine` draws for a line feed. */
  const LineFeedGlyph: char := '\U{240A}'

  /** The glyphs `visualizeLine` may draw: ␣ ␉ ␋ ␌ ␍ of `showWhitespaces`,
      and ␊. */
  const VisibleGlyphs: set<char> := {'\U{2423}', '\U{2409}', '\U{240B}', '\U{240C}', '\U{240D}', LineFeedGlyph}

  /** The `switch` of `visualizeLine` on one rune: the `showWhitespaces`
      glyphs, and ␊ for a line feed. */
  function Visible(c: char): char
  {
    if c == '\n' then LineFeedGlyph else TextDiff.Glyph(c)
  }

  /** `visualizeLine`: "<empty>¶" for the empty string, otherwise the string
      in double quotes, one glyph per rune, followed by "¶". */
  function VisualizeLine(line: string): (r: string)
    ensures line == "" ==> r == EmptyMarker
    ensures line != "" ==> |r| == |line| + 3
    ensures line != "" ==> r[0] == '"' && r[|r| - 2] == '"' && r[|r| - 1] == Pilcrow
    ensures line != "" ==> forall i :: 0 <= i < |line| ==> r[i + 1] == Visible(line[i])
  {
    if line == "" then EmptyMarker
    else "\"" + seq(|line|, i requires 0 <= i < |line| => Visible(line[i])) + "\"" + [Pilcrow]
  }

  /** The raw rendering `"%s"¶`: the string verbatim between quotes. */
  function RawLine(s: string): (r: string)
    ensures |r| == |s| + 3 && r[1..|s| + 1] == s
    ensures r[0] == '"' && r[|s| + 1] == '"' && r[|s| + 2] == Pilcrow
  {
    "\"" + s + "\"" + [Pilcrow]
  }

  /** How one string is shown, visualised or raw. */
  function Render(s: string, visualize: bool): string
  {
    if visualize then VisualizeLine(s) else RawLine(s)
  }

  // ------------------------------------------------------------ differences

  /** What `characterDiff` reports, in place of its formatted text. */
  datatype CharDiff =
    | Position(index: nat, expectedChar: char, actualChar: char)
    | LengthDiff(expectedLength: nat, actualLength: nat)
    | NoDiff

  /** `characterDiff(actual, expected)`: the first index, in code points,
      where the two differ within their common length; else their lengths
      when they differ; else nothing. */
  function CharacterDiff(actual: string, expected: string): (d: CharDiff)
    ensures d.Position? ==>
      && d.index < |actual| && d.index < |expected|
      && actual[..d.index] == expected[..d.index]
      && d.expectedChar == expected[d.index] && d.actualChar == actual[d.index]
      && d.expectedChar != d.actualChar
    ensures d.LengthDiff? ==>
      && d.expectedLength == |expected| && d.actualLength == |actual|
      && |expected| != |actual|
      && actual[..Min(|actual|, |expected|)] == expected[..Min(|actual|, |expected|)]
    ensures d.NoDiff? <==> actual == expected
  {
    var k := CommonPrefixLength(actual, expected);
    if k < |actual| && k < |expected| then Position(k, expected[k], actual[k])
    else if |actual| != |expected| then LengthDiff(|expected|, |actual|)
    else
      assert actual == actual[..k] && expected == expected[..k];
      NoDiff
  }

  /** The comparison report: the lines written before the difference line,
      and the difference. Every line is written followed by a line feed (see
      `Text`); the difference, when present, follows as "  ", its formatted
      text and a line feed. */
  datatype Comparison = Comparison(lines: seq<string>, detail: Option<CharDiff>)

  /** The text written for the lines of a report. */
  function Text(c: Comparison): string
  {
    Join(c.lines, "\n") + "\n"
  }

  /** `compareStringsInternal(actual, expected, visualize)`: the header, the
      expected string, the actual string and, on a failure, an empty line
      and the difference. */
  function CompareStringsInternal(actual: string, expected: string, visualize: bool): (c: Comparison)
    ensures |c.lines| >= 3 && (c.lines[0] == MatchHeader <==> actual == expected)
    ensures actual == expected ==> |c.lines| == 3
    ensures actual != expected ==> c.lines[0] == FailureHeader && |c.lines| == 4 && c.lines[3] == ""
    ensures |c.lines[1]| == 12 + |Render(expected, visualize)| && c.lines[1][12..] == Render(expected, visualize)
    ensures |c.lines[2]| == 12 + |Render(actual, visualize)| && c.lines[2][12..] == Render(actual, visualize)
    ensures c.lines[1][..12] == if actual == expected then MatchExpectedLabel else FailureExpectedLabel
    ensures c.lines[2][..12] == if actual == expected then MatchActualLabel else FailureActualLabel
    ensures c.detail.Some? <==> actual != expected
    ensures c.detail.Some? ==> c.detail.value == CharacterDiff(actual, expected) && !c.detail.value.NoDiff?
  {
    var e := Render(expected, visualize);
    var a := Render(actual, visualize);
    if actual == expected then
      Comparison([MatchHeader, MatchExpectedLabel + e, MatchActualLabel + a], None)
    else
      var details := CharacterDiff(actual, expected);
      Comparison([FailureHeader, FailureExpectedLabel + e, FailureActualLabel + a, ""],
        if details != NoDiff then Some(details) else None)
  }

  /** `CompareStrings(actual, expected)`: the visualised comparison. */
  function CompareStrings(actual: string, expected: string): (c: Comparison)
    ensures |c.lines| >= 3 && (c.lines[0] == MatchHeader <==> actual == expected)
    ensures c.lines[1] == (if actual == expected then MatchExpectedLabel else FailureExpectedLabel) + VisualizeLine(expected)
    ensures c.lines[2] == (if actual == expected then MatchActualLabel else FailureActualLabel) + VisualizeLine(actual)
  {
    CompareStringsInternal(actual, expected, true)
  }

  /** `CompareStringsRaw(actual, expected)`: the raw comparison. */
  function CompareStringsRaw(actual: string, expected: string): (c: Comparison)
    ensures |c.lines| >= 3 && (c.lines[0] == MatchHeader <==> actual == expected)
    ensures c.lines[1] == (if actual == expected then MatchExpectedLabel else FailureExpectedLabel) + RawLine(expected)
    ensures c.lines[2] == (if actual == expected then MatchActualLabel else FailureActualLabel) + RawLine(actual)
  {
    CompareStringsInternal(actual, expected, false)
  }

  // -------------------------------------------------------------- properties

  /** A visualised string is one line without invisible whitespace: line
      feeds, spaces, tabs, vertical tabs, form feeds and carriage returns all
      become glyphs. */
  lemma VisualizedIsVisible(line: string)
    ensures var r := VisualizeLine(line);
      forall i :: 0 <= i < |r| ==> r[i] != '\n' && r[i] !in TextDiff.WhitespaceGlyphs
  {
    var r := VisualizeLine(line);
    if line != "" {
      forall i | 0 <= i < |r| ensures r[i] != '\n' && r[i] !in TextDiff.WhitespaceGlyphs {
        if 0 < i < |r| - 2 {
          assert r[i] == Visible(line[i - 1]);
        }
      }
    }
  }

  /** On a single line, `visualizeLine` draws the glyphs of `showWhitespaces`
      between its quotes. */
  lemma VisualizeAgreesWithShowWhitespaces(line: string)
    requires line != "" && '\n' !in line
    ensures VisualizeLine(line) == "\"" + TextDiff.ShowWhitespaces(line) + "\"" + [Pilcrow]
  {
    var shown := TextDiff.ShowWhitespaces(line);
    var inner := seq(|line|, i requires 0 <= i < |line| => Visible(line[i]));
    forall i | 0 <= i < |line| ensures inner[i] == shown[i] {
      assert line[i] in line;
    }
    assert inner == shown;
  }

  /** A string with nothing to visualise is shown the same raw and visualised. */
  lemma RawAgreesWhenVisible(s: string)
    requires s != ""
    requires forall i :: 0 <= i < |s| ==> s[i] != '\n' && s[i] !in TextDiff.WhitespaceGlyphs
    ensures RawLine(s) == VisualizeLine(s)
  {
    var inner := seq(|s|, i requires 0 <= i < |s| => Visible(s[i]));
    assert inner == s;
  }

  /** So for such strings the raw and the visualised comparisons coincide. */
  lemma RawComparisonAgreesWhenVisible(actual: string, expected: string)
    requires actual != "" && expected != ""
    requires forall i :: 0 <= i < |actual| ==> actual[i] != '\n' && actual[i] !in TextDiff.WhitespaceGlyphs
    requires forall i :: 0 <= i < |expected| ==> expected[i] != '\n' && expected[i] !in TextDiff.WhitespaceGlyphs
    ensures CompareStringsRaw(actual, expected) == CompareStrings(actual, expected)
  {
    RawAgreesWhenVisible(actual);
    RawAgreesWhenVisible(expected);
  }

  /** `s` holds none of the glyphs `visualizeLine` draws. */
  predicate NoGlyph(s: string)
  {
    forall i :: 0 <= i < |s| ==> s[i] !in VisibleGlyphs
  }

  lemma NoGlyphConcat(a: string, b: string)
    requires NoGlyph(a) && NoGlyph(b)
    ensures NoGlyph(a + b)
  {
    forall i | 0 <= i < |a + b| ensures (a + b)[i] !in VisibleGlyphs {
      if i >= |a| {
        assert (a + b)[i] == b[i - |a|];
      }
    }
  }

  /** The raw rendering adds quotes and "¶" and no glyph; in particular the
      empty string is shown as empty quotes, never as "<empty>". */
  lemma RawLineAddsNoGlyph(s: string)
    requires NoGlyph(s)
    ensures NoGlyph(RawLine(s))
    ensures RawLine("") == "\"\"" + [Pilcrow] && RawLine("") != EmptyMarker
  {
    assert NoGlyph("\"");
    assert NoGlyph("\"" + [Pilcrow]);
    NoGlyphConcat("\"", s);
    NoGlyphConcat("\"" + s, "\"" + [Pilcrow]);
    assert RawLine(s) == "\"" + s + ("\"" + [Pilcrow]);
  }

  /** A string whose characters all lie outside the block U+2409..U+2424
      of the glyphs holds none of them. */
  lemma OutsideGlyphBlock(s: string)
    requires forall i :: 0 <= i < |s| ==> s[i] < '\U{2409}' || s[i] > '\U{2424}'
    ensures NoGlyph(s)
  {
  }

  /** The headers hold no glyph. */
  lemma HeadersHaveNoGlyph()
    ensures NoGlyph(MatchHeader) && NoGlyph(FailureHeader)
  {
    OutsideGlyphBlock(MatchHeader);
    OutsideGlyphBlock(FailureHeader);
  }

  /** The labels hold no glyph. */
  lemma LabelsHaveNoGlyph()
    ensures NoGlyph(MatchExpectedLabel) && NoGlyph(MatchActualLabel)
    ensures NoGlyph(FailureExpectedLabel) && NoGlyph(FailureActualLabel)
  {
    OutsideGlyphBlock(MatchExpectedLabel);
    OutsideGlyphBlock(MatchActualLabel);
    OutsideGlyphBlock(FailureExpectedLabel);
    OutsideGlyphBlock(FailureActualLabel);
  }

  /** Raw mode adds no glyph: when neither string holds one, no line of the
      report holds one. */
  lemma RawAddsNoGlyph(actual: string, expected: string)
    requires NoGlyph(actual) && NoGlyph(expected)
    ensures var lines := CompareStringsRaw(actual, expected).lines;
      forall i :: 0 <= i < |lines| ==> NoGlyph(lines[i])
  {
    RawLineAddsNoGlyph(actual);
    RawLineAddsNoGlyph(expected);
    HeadersHaveNoGlyph();
    LabelsHaveNoGlyph();
    NoGlyphConcat(MatchExpectedLabel, RawLine(expected));
    NoGlyphConcat(MatchActualLabel, RawLine(actual));
    NoGlyphConcat(FailureExpectedLabel, RawLine(expected));
    NoGlyphConcat(FailureActualLabel, RawLine(actual));
  }

  /** A difference found within the common length is reported at the first
      differing index, with the expected and the actual character there. */
  lemma MismatchGivesPosition(actual: string, expected: string, i: nat)
    requires i < |actual| && i < |expected|
    requires actual[..i] == expected[..i] && actual[i] != expected[i]
    ensures CharacterDiff(actual, expected) == Position(i, expected[i], actual[i])
  {
    CommonPrefixLengthAt(actual, expected, i);
  }

  /** When one string is a proper prefix of the other, the lengths are
      reported and never a position. */
  lemma PrefixGivesLengthDiff(actual: string, expected: string)
    requires |actual| != |expected|
    requires actual[..Min(|actual|, |expected|)] == expected[..Min(|actual|, |expected|)]
    ensures CharacterDiff(actual, expected) == LengthDiff(|expected|, |actual|)
  {
    CommonPrefixLengthFull(actual, expected);
  }

  /** The report with the roles of the two strings exchanged. */
  function Swapped(d: CharDiff): CharDiff
  {
    match d
    case Position(i, e, a) => Position(i, a, e)
    case LengthDiff(e, a) => LengthDiff(a, e)
    case NoDiff => NoDiff
  }

  /** Exchanging the two strings exchanges their roles in the report. */
  lemma CharacterDiffSwap(actual: string, expected: string)
    ensures CharacterDiff(expected, actual) == Swapped(CharacterDiff(actual, expected))
  {
    var d := CharacterDiff(actual, expected);
    match d
    case Position(i, e, a) =>
      MismatchGivesPosition(expected, actual, i);
    case LengthDiff(_, _) =>
      PrefixGivesLengthDiff(expected, actual);
    case NoDiff =>
  }

  /** Code points, not bytes, are counted: "Hello 世界" against the expected
      "Hello 地球" differs at position 6. */
  lemma CharacterDiffCountsCodePoints()
    ensures CharacterDiff("Hello \U{4E16}\U{754C}", "Hello \U{5730}\U{7403}")
      == Position(6, '\U{5730}', '\U{4E16}')
  {
    MismatchGivesPosition("Hello \U{4E16}\U{754C}", "Hello \U{5730}\U{7403}", 6);
  }

  /** The headers are single lines. */
  lemma HeadersAreSingleLines()
    ensures '\n' !in MatchHeader && '\n' !in FailureHeader
  {
  }

  /** The labels are single lines. */
  lemma LabelsAreSingleLines()
    ensures '\n' !in MatchExpectedLabel && '\n' !in MatchActualLabel
    ensures '\n' !in FailureExpectedLabel && '\n' !in FailureActualLabel
  {
  }

  /** A report whose lines are single lines splits back into them,
      followed by the empty piece after the last line feed. */
  lemma {:induction false} TextSplitsIntoLines(c: Comparison)
    requires |c.lines| > 0
    requires forall i :: 0 <= i < |c.lines| ==> '\n' !in c.lines[i]
    ensures Split(Text(c), '\n') == c.lines + [""]
  {
    var lines := c.lines + [""];
    assert lines[..|lines| - 1] == c.lines;
    JoinLast(lines, "\n");
    assert Text(c) == Join(lines, "\n");
    SplitJoin(lines, '\n');
  }

  /** Every line of a visualised report is a single line. */
  lemma VisualizedLinesAreSingle(actual: string, expected: string)
    ensures var lines := CompareStrings(actual, expected).lines;
      forall i :: 0 <= i < |lines| ==> '\n' !in lines[i]
  {
    VisualizedIsVisible(expected);
    VisualizedIsVisible(actual);
    HeadersAreSingleLines();
    LabelsAreSingleLines();
  }

  /** The visualised report is exactly its lines, whatever line feeds the
      strings hold: splitting its text at line feeds gives the lines back,
      followed by the empty piece after the last line feed. */
  lemma VisualizedReportLines(actual: string, expected: string)
    ensures var c := CompareStrings(actual, expected);
      Split(Text(c), '\n') == c.lines + [""]
  {
    VisualizedLinesAreSingle(actual, expected);
    TextSplitsIntoLines(CompareStrings(actual, expected));
  }
}
