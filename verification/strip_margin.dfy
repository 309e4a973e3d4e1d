/** The margin and column strippers of pkg/text/strip_margin.go.

    Both are written in Go as multi-line regular expressions, but each match
    lies within one line, so here they are per-line acceptance and
    extraction functions followed by a newline join:

    - `StripMargin` keeps a line whose first character after spaces and tabs
      is '|', and keeps everything after that bar;
    - `StripColumn` keeps a line that, in addition, ends with a later '|'
      followed only by spaces and tabs, and keeps what lies between the two
      bars. */
module Margin {
  import opened Runes

  /** The characters `[ \t]` of both patterns. */
  predicate IsBlank(c: char) { c == ' ' || c == '\t' }

  predicate AllBlank(s: string)
  {
    forall i :: 0 <= i < |s| ==> IsBlank(s[i])
  }

  /** Number of leading spaces and tabs. */
  function Indent(line: string): (k: nat)
    ensures k <= |line| && AllBlank(line[..k])
    ensures k < |line| ==> !IsBlank(line[k])
  {
    if |line| == 0 || !IsBlank(line[0]) then 0
    else
      var k := Indent(line[1..]);
      assert line[..k + 1] == [line[0]] + line[1..][..k];
      1 + k
  }

  /** Index of the last occurrence of `c`, or -1. */
  function LastIndex(s: string, c: char): (r: int)
    ensures -1 <= r < |s|
    ensures r >= 0 ==> s[r] == c
    ensures forall i :: r < i < |s| ==> s[i] != c
  {
    if |s| == 0 then -1
    else if s[|s| - 1] == c then |s| - 1
    else LastIndex(s[..|s| - 1], c)
  }

  // ------------------------------------------------------------ one line

  /** `line` is an indent of spaces and tabs, a bar, and `content`. */
  predicate MarginLine(line: string, indent: string, content: string)
  {
    AllBlank(indent) && line == indent + "|" + content
  }

  /** `line` is an indent, a bar, `content`, a bar and a trail of spaces and
      tabs. */
  predicate ColumnLine(line: string, indent: string, content: string, trail: string)
  {
    AllBlank(indent) && AllBlank(trail) && line == indent + "|" + content + "|" + trail
  }

  /** What `stripMarginGroup` captures from `line + "\n"`: everything after
      the first non-blank character when that character is a bar. A carriage
      return at the end of the line stays in the content. */
  function MarginContent(line: string): (r: Option<string>)
    ensures r.Some? ==> |r.value| < |line| && MarginLine(line, line[..|line| - |r.value| - 1], r.value)
  {
    var k := Indent(line);
    if k < |line| && line[k] == '|' then
      assert line == line[..k] + "|" + line[k + 1..];
      Some(line[k + 1..])
    else None
  }

  /** What `stripColumnGroup` captures from one line: the text between the
      opening bar and the last bar, when the opening bar follows only blanks,
      the last bar comes after it and only blanks follow the last bar. A
      carriage return at the end of the line prevents the match. */
  function ColumnContent(line: string): (r: Option<string>)
    ensures r.Some? ==>
      var p := Indent(line);
      p + |r.value| + 2 <= |line| && ColumnLine(line, line[..p], r.value, line[p + |r.value| + 2..])
  {
    var p := Indent(line);
    var q := LastIndex(line, '|');
    if p < |line| && line[p] == '|' && p < q && AllBlank(line[q + 1..]) then
      assert line == line[..p] + "|" + line[p + 1..q] + "|" + line[q + 1..];
      Some(line[p + 1..q])
    else None
  }

  lemma BlankHasNoBar(s: string)
    requires AllBlank(s)
    ensures '|' !in s && '\n' !in s && '\r' !in s
  {
    assert forall i :: 0 <= i < |s| ==> s[i] != '|' && s[i] != '\n' && s[i] != '\r';
  }

  /** Blanks before a non-blank character are the whole indent. */
  lemma {:induction false} IndentOf(indent: string, rest: string)
    requires AllBlank(indent)
    requires |rest| > 0 && !IsBlank(rest[0])
    ensures Indent(indent + rest) == |indent|
  {
    if |indent| > 0 {
      assert (indent + rest)[1..] == indent[1..] + rest;
      IndentOf(indent[1..], rest);
    }
  }

  /** Characters other than `c` appended at the end do not move its last
      occurrence. */
  lemma {:induction false} LastIndexBefore(s: string, c: char, suffix: string)
    requires c !in suffix
    ensures LastIndex(s + suffix, c) == LastIndex(s, c)
  {
    if |suffix| > 0 {
      var t := s + suffix;
      assert suffix[|suffix| - 1] in suffix;
      assert t[|t| - 1] == suffix[|suffix| - 1];
      assert forall x :: x in suffix[..|suffix| - 1] ==> x in suffix;
      assert t[..|t| - 1] == s + suffix[..|suffix| - 1];
      LastIndexBefore(s, c, suffix[..|suffix| - 1]);
      assert t[|t| - 1] != c;
      assert LastIndex(t, c) == LastIndex(t[..|t| - 1], c);
    } else {
      assert s + suffix == s;
    }
  }

  /** Every margined line is accepted, and its content is what follows the bar. */
  lemma MarginLineAccepted(indent: string, content: string)
    requires AllBlank(indent)
    ensures MarginContent(indent + "|" + content) == Some(content)
  {
    var line := indent + "|" + content;
    assert line == indent + ("|" + content);
    IndentOf(indent, "|" + content);
    assert line[|indent|..] == "|" + content;
  }

  /** The last `c` of a text ending in `c` and then characters other than
      `c` is that final `c` of the head. */
  lemma LastIndexAt(head: string, c: char, tail: string)
    requires |head| > 0 && head[|head| - 1] == c && c !in tail
    ensures LastIndex(head + tail, c) == |head| - 1
  {
    LastIndexBefore(head, c, tail);
  }

  /** The indent of a column line is its leading blanks. */
  lemma ColumnIndent(indent: string, content: string, trail: string)
    requires AllBlank(indent)
    ensures Indent(indent + "|" + content + "|" + trail) == |indent|
  {
    assert indent + "|" + content + "|" + trail == indent + ("|" + content + "|" + trail);
    IndentOf(indent, "|" + content + "|" + trail);
  }

  /** The last bar of a column line is the one before its trail. */
  lemma ColumnLastBar(indent: string, content: string, trail: string)
    requires AllBlank(trail)
    ensures LastIndex(indent + "|" + content + "|" + trail, '|') == |indent| + |content| + 1
  {
    BlankHasNoBar(trail);
    LastIndexAt(indent + "|" + content + "|", '|', trail);
  }

  /** The pieces of a column line at the positions `ColumnContent` looks at. */
  lemma ColumnParts(indent: string, content: string, trail: string)
    requires AllBlank(trail)
    ensures var line := indent + "|" + content + "|" + trail;
      var q := |indent| + |content| + 1;
      && line[|indent|] == '|' && AllBlank(line[q + 1..]) && line[|indent| + 1..q] == content
  {
    var line := indent + "|" + content + "|" + trail;
    assert line[|indent| + |content| + 2..] == trail;
  }

  /** Every column line is accepted, and its content is what lies between the
      bars, bars inside it included. */
  lemma ColumnLineAccepted(indent: string, content: string, trail: string)
    requires AllBlank(indent) && AllBlank(trail)
    ensures ColumnContent(indent + "|" + content + "|" + trail) == Some(content)
  {
    ColumnIndent(indent, content, trail);
    ColumnLastBar(indent, content, trail);
    ColumnParts(indent, content, trail);
  }

  /** The margin content of a column line runs on to the end of the line. */
  lemma ColumnLineInMargin(indent: string, content: string, trail: string)
    requires AllBlank(indent)
    ensures MarginContent(indent + "|" + content + "|" + trail) == Some(content + "|" + trail)
  {
    assert indent + "|" + content + "|" + trail == indent + "|" + (content + "|" + trail);
    MarginLineAccepted(indent, content + "|" + trail);
  }

  /** Content, a bar and a blank trail. */
  lemma ContentBarTrail(content: string, trail: string)
    requires AllBlank(trail)
    ensures var m := content + "|" + trail;
      |content| < |m| && m[..|content|] == content && m[|content|] == '|' && AllBlank(m[|content| + 1..])
  {
    var m := content + "|" + trail;
    assert m[|content| + 1..] == trail;
  }

  /** A line kept by `StripColumn` is kept by `StripMargin` too, whose content
      continues past the column content with the last bar and the trail. */
  lemma ColumnWithinMargin(line: string)
    requires ColumnContent(line).Some?
    ensures var c := ColumnContent(line).value;
      && MarginContent(line).Some?
      && var m := MarginContent(line).value;
      && |c| < |m| && m[..|c|] == c && m[|c|] == '|' && AllBlank(m[|c| + 1..])
  {
    var c := ColumnContent(line).value;
    var p := Indent(line);
    var trail := line[p + |c| + 2..];
    ColumnLineInMargin(line[..p], c, trail);
    ContentBarTrail(c, trail);
  }

  // --------------------------------------------------------------- texts

  /** The contents extracted from the lines that `extract` accepts, in order. */
  function Collect(lines: seq<string>, extract: string -> Option<string>): (kept: seq<string>)
  {
    if |lines| == 0 then []
    else
      var head := if extract(lines[0]).Some? then [extract(lines[0]).value] else [];
      head + Collect(lines[1..], extract)
  }

  /** When every line is accepted the contents are all kept, in order. */
  lemma {:induction false} CollectAll(lines: seq<string>, extract: string -> Option<string>, contents: seq<string>)
    requires |lines| == |contents|
    requires forall i :: 0 <= i < |lines| ==> extract(lines[i]) == Some(contents[i])
    ensures Collect(lines, extract) == contents
  {
    if |lines| > 0 {
      CollectAll(lines[1..], extract, contents[1..]);
      assert contents == [contents[0]] + contents[1..];
    }
  }

  /** When no line is accepted nothing is kept. */
  lemma {:induction false} CollectNone(lines: seq<string>, extract: string -> Option<string>)
    requires forall i :: 0 <= i < |lines| ==> extract(lines[i]).None?
    ensures Collect(lines, extract) == []
  {
    if |lines| > 0 {
      CollectNone(lines[1..], extract);
    }
  }

  /** One line is kept exactly when it is accepted. */
  lemma CollectOne(line: string, extract: string -> Option<string>)
    ensures Collect([line], extract) == if extract(line).Some? then [extract(line).value] else []
  {
    assert [line][1..] == [];
  }

  /** Collecting from two runs of lines concatenates what each keeps. */
  lemma {:induction false} CollectAppend(a: seq<string>, b: seq<string>, extract: string -> Option<string>)
    ensures Collect(a + b, extract) == Collect(a, extract) + Collect(b, extract)
  {
    if |a| > 0 {
      assert (a + b)[0] == a[0];
      assert (a + b)[1..] == a[1..] + b;
      CollectAppend(a[1..], b, extract);
      var head := if extract(a[0]).Some? then [extract(a[0]).value] else [];
      assert Collect(a + b, extract) == head + Collect(a[1..] + b, extract);
      assert Collect(a, extract) == head + Collect(a[1..], extract);
    } else {
      assert a + b == b;
    }
  }

  /** Joining what is kept is no longer than joining the lines, when every
      kept content is shorter than its line. */
  lemma {:induction false} CollectShorter(lines: seq<string>, extract: string -> Option<string>)
    requires forall l :: extract(l).Some? ==> |extract(l).value| < |l|
    ensures |Join(Collect(lines, extract), "\n")| <= |Join(lines, "\n")|
  {
    if |lines| > 0 {
      var rest := Collect(lines[1..], extract);
      CollectShorter(lines[1..], extract);
      if extract(lines[0]).Some? {
        var v := extract(lines[0]).value;
        assert Collect(lines, extract) == [v] + rest;
        if |rest| > 0 {
          assert ([v] + rest)[1..] == rest;
          assert |lines| > 1;
        }
      } else {
        assert Collect(lines, extract) == rest;
      }
    }
  }

  /** `StripMargin`: the contents of the margined lines, joined by newlines;
      the empty text and a text without margined lines give "". Stripping
      never lengthens the text. */
  function StripMargin(s: string): (r: string)
    ensures |r| <= |s|
  {
    if s == "" then ""
    else
      var result := Collect(Split(s, '\n'), MarginContent);
      CollectShorter(Split(s, '\n'), MarginContent);
      JoinSplit(s, '\n');
      if |result| == 0 then "" else Join(result, "\n")
  }

  /** `StripColumn`: the contents of the column lines, joined by newlines;
      a text without column lines gives "". Stripping never lengthens the
      text. */
  function StripColumn(s: string): (r: string)
    ensures |r| <= |s|
  {
    var ms := Collect(Split(s, '\n'), ColumnContent);
    CollectShorter(Split(s, '\n'), ColumnContent);
    JoinSplit(s, '\n');
    if |ms| == 0 then "" else Join(ms, "\n")
  }

  // ----------------------------------------------------------- properties

  /** The lines `indents[i] + "|" + contents[i]`. */
  function Margined(indents: seq<string>, contents: seq<string>): (lines: seq<string>)
    requires |indents| == |contents|
    ensures |lines| == |contents|
  {
    seq(|contents|, i requires 0 <= i < |contents| => indents[i] + "|" + contents[i])
  }

  /** The lines `indents[i] + "|" + contents[i] + "|" + trails[i]`. */
  function Columned(indents: seq<string>, contents: seq<string>, trails: seq<string>): (lines: seq<string>)
    requires |indents| == |contents| == |trails|
    ensures |lines| == |contents|
  {
    seq(|contents|, i requires 0 <= i < |contents| => indents[i] + "|" + contents[i] + "|" + trails[i])
  }

  /** A joined list of at least one line is at least as long as its first line. */
  lemma JoinedFirstLine(lines: seq<string>)
    requires |lines| >= 1
    ensures |Join(lines, "\n")| >= |lines[0]|
  {
    if |lines| > 1 {
      assert Join(lines, "\n") == lines[0] + "\n" + Join(lines[1..], "\n");
    }
  }

  /** Stripping the margin of margined lines gives back their contents,
      joined by newlines. */
  lemma StripMarginRoundTrip(indents: seq<string>, contents: seq<string>)
    requires |indents| == |contents| >= 1
    requires forall i :: 0 <= i < |indents| ==> AllBlank(indents[i])
    requires forall i :: 0 <= i < |contents| ==> '\n' !in contents[i]
    ensures StripMargin(Join(Margined(indents, contents), "\n")) == Join(contents, "\n")
  {
    var lines := Margined(indents, contents);
    forall i | 0 <= i < |lines|
      ensures '\n' !in lines[i] && MarginContent(lines[i]) == Some(contents[i])
    {
      BlankHasNoBar(indents[i]);
      MarginLineAccepted(indents[i], contents[i]);
    }
    SplitJoin(lines, '\n');
    CollectAll(lines, MarginContent, contents);
    JoinedFirstLine(lines);
  }

  /** Stripping the columns of column lines gives back their contents,
      joined by newlines. */
  lemma StripColumnRoundTrip(indents: seq<string>, contents: seq<string>, trails: seq<string>)
    requires |indents| == |contents| == |trails| >= 1
    requires forall i :: 0 <= i < |indents| ==> AllBlank(indents[i])
    requires forall i :: 0 <= i < |trails| ==> AllBlank(trails[i])
    requires forall i :: 0 <= i < |contents| ==> '\n' !in contents[i]
    ensures StripColumn(Join(Columned(indents, contents, trails), "\n")) == Join(contents, "\n")
  {
    var lines := Columned(indents, contents, trails);
    forall i | 0 <= i < |lines|
      ensures '\n' !in lines[i] && ColumnContent(lines[i]) == Some(contents[i])
    {
      BlankHasNoBar(indents[i]);
      BlankHasNoBar(trails[i]);
      ColumnLineAccepted(indents[i], contents[i], trails[i]);
    }
    SplitJoin(lines, '\n');
    CollectAll(lines, ColumnContent, contents);
  }

  /** A text none of whose lines has a margin strips to "". */
  lemma StripMarginWithoutMargin(s: string)
    requires var lines := Split(s, '\n');
      forall i :: 0 <= i < |lines| ==> MarginContent(lines[i]).None?
    ensures StripMargin(s) == ""
  {
    var lines := Split(s, '\n');
    assert forall i :: 0 <= i < |Split(s, '\n')| ==> MarginContent(Split(s, '\n')[i]).None?;
    assert forall i :: 0 <= i < |lines| ==> MarginContent(lines[i]).None?;
    CollectNone(lines, MarginContent);
  }

  /** A text none of whose lines is a column line strips to "". */
  lemma StripColumnWithoutColumn(s: string)
    requires var lines := Split(s, '\n');
      forall i :: 0 <= i < |lines| ==> ColumnContent(lines[i]).None?
    ensures StripColumn(s) == ""
  {
    var lines := Split(s, '\n');
    assert forall i :: 0 <= i < |Split(s, '\n')| ==> ColumnContent(Split(s, '\n')[i]).None?;
    assert forall i :: 0 <= i < |lines| ==> ColumnContent(lines[i]).None?;
    CollectNone(lines, ColumnContent);
  }

  /** A final newline on the input never shows in the margin result: the
      empty last line it leaves is not margined. */
  lemma StripMarginIgnoresFinalNewline(s: string)
    ensures StripMargin(s + "\n") == StripMargin(s)
  {
    SplitTrailingSeparator(s, '\n');
    assert s + "\n" == s + ['\n'];
    CollectAppend(Split(s, '\n'), [[]], MarginContent);
    CollectOne([], MarginContent);
    assert MarginContent([]).None?;
    assert Collect([[]], MarginContent) == [];
    assert Split(s + "\n", '\n') == Split(s, '\n') + [[]];
    assert Collect(Split(s + "\n", '\n'), MarginContent) == Collect(Split(s, '\n'), MarginContent);
    if s == "" {
      assert Split(s, '\n') == [[]];
    }
  }

  /** A final newline on the input never shows in the column result either. */
  lemma StripColumnIgnoresFinalNewline(s: string)
    ensures StripColumn(s + "\n") == StripColumn(s)
  {
    SplitTrailingSeparator(s, '\n');
    assert s + "\n" == s + ['\n'];
    CollectAppend(Split(s, '\n'), [[]], ColumnContent);
    CollectOne([], ColumnContent);
    assert ColumnContent([]).None?;
    assert Collect([[]], ColumnContent) == [];
    assert Split(s + "\n", '\n') == Split(s, '\n') + [[]];
    assert Collect(Split(s + "\n", '\n'), ColumnContent) == Collect(Split(s, '\n'), ColumnContent);
  }

  /** A single line strips to its content, or to "" when it is not margined
      or not a column line. */
  lemma StripSingleLine(line: string)
    requires '\n' !in line
    ensures StripMargin(line) == (if MarginContent(line).Some? then MarginContent(line).value else "")
    ensures StripColumn(line) == (if ColumnContent(line).Some? then ColumnContent(line).value else "")
  {
    SplitWithoutSeparator(line, '\n');
    CollectOne(line, MarginContent);
    CollectOne(line, ColumnContent);
  }

  /** A rejected first line adds nothing to what is kept. */
  lemma CollectDropsFirstLine(u: string, s: string, extract: string -> Option<string>)
    requires '\n' !in u && extract(u).None?
    ensures Collect(Split(u + "\n" + s, '\n'), extract) == Collect(Split(s, '\n'), extract)
  {
    assert u + "\n" + s == u + ['\n'] + s;
    SplitAtSeparator(u, s, '\n');
    CollectAppend([u], Split(s, '\n'), extract);
    CollectOne(u, extract);
  }

  /** A rejected last line adds nothing to what is kept. */
  lemma CollectDropsLastLine(s: string, u: string, extract: string -> Option<string>)
    requires '\n' !in u && extract(u).None?
    ensures Collect(Split(s + "\n" + u, '\n'), extract) == Collect(Split(s, '\n'), extract)
  {
    assert s + "\n" + u == s + ['\n'] + u;
    SplitAppend(s, u, '\n');
    SplitWithoutSeparator(u, '\n');
    CollectAppend(Split(s, '\n'), [u], extract);
    CollectOne(u, extract);
  }

  /** A first line without a margin, such as the empty line after an opening
      backquote, does not show in the result. */
  lemma StripMarginDropsFirstLine(u: string, s: string)
    requires '\n' !in u && MarginContent(u).None?
    ensures StripMargin(u + "\n" + s) == StripMargin(s)
  {
    CollectDropsFirstLine(u, s, MarginContent);
    if s == "" {
      CollectOne([], MarginContent);
      assert MarginContent([]).None?;
    }
  }

  /** A last line without a margin, such as the indent before a closing
      backquote, does not show in the result. */
  lemma StripMarginDropsLastLine(s: string, u: string)
    requires '\n' !in u && MarginContent(u).None?
    ensures StripMargin(s + "\n" + u) == StripMargin(s)
  {
    CollectDropsLastLine(s, u, MarginContent);
    if s == "" {
      CollectOne([], MarginContent);
      assert MarginContent([]).None?;
    }
  }

  /** A first line that is not a column line does not show in the result. */
  lemma StripColumnDropsFirstLine(u: string, s: string)
    requires '\n' !in u && ColumnContent(u).None?
    ensures StripColumn(u + "\n" + s) == StripColumn(s)
  {
    CollectDropsFirstLine(u, s, ColumnContent);
  }

  /** A last line that is not a column line does not show in the result. */
  lemma StripColumnDropsLastLine(s: string, u: string)
    requires '\n' !in u && ColumnContent(u).None?
    ensures StripColumn(s + "\n" + u) == StripColumn(s)
  {
    CollectDropsLastLine(s, u, ColumnContent);
  }

  /** The documented use: margined lines between an unmargined first line
      and an unmargined last line strip to their contents. */
  lemma StripMarginDocumentedShape(first: string, indents: seq<string>, contents: seq<string>, last: string)
    requires '\n' !in first && MarginContent(first).None?
    requires '\n' !in last && MarginContent(last).None?
    requires |indents| == |contents| >= 1
    requires forall i :: 0 <= i < |indents| ==> AllBlank(indents[i])
    requires forall i :: 0 <= i < |contents| ==> '\n' !in contents[i]
    ensures StripMargin(first + "\n" + Join(Margined(indents, contents), "\n") + "\n" + last) == Join(contents, "\n")
  {
    var body := Join(Margined(indents, contents), "\n");
    assert first + "\n" + body + "\n" + last == first + "\n" + (body + "\n" + last);
    StripMarginDropsFirstLine(first, body + "\n" + last);
    StripMarginDropsLastLine(body, last);
    StripMarginRoundTrip(indents, contents);
  }

  /** The documented use of `StripColumn`: column lines between a first and
      a last line that are not column lines strip to their contents. */
  lemma StripColumnDocumentedShape(first: string, indents: seq<string>, contents: seq<string>, trails: seq<string>, last: string)
    requires '\n' !in first && ColumnContent(first).None?
    requires '\n' !in last && ColumnContent(last).None?
    requires |indents| == |contents| == |trails| >= 1
    requires forall i :: 0 <= i < |indents| ==> AllBlank(indents[i])
    requires forall i :: 0 <= i < |trails| ==> AllBlank(trails[i])
    requires forall i :: 0 <= i < |contents| ==> '\n' !in contents[i]
    ensures StripColumn(first + "\n" + Join(Columned(indents, contents, trails), "\n") + "\n" + last) == Join(contents, "\n")
  {
    var body := Join(Columned(indents, contents, trails), "\n");
    assert first + "\n" + body + "\n" + last == first + "\n" + (body + "\n" + last);
    StripColumnDropsFirstLine(first, body + "\n" + last);
    StripColumnDropsLastLine(body, last);
    StripColumnRoundTrip(indents, contents, trails);
  }

  /** A line with an opening bar and no closing one is not a column line. */
  lemma OpeningBarOnly()
    ensures ColumnContent("|line 1").None?
  {
    IndentOf("", "|line 1");
    assert "|line 1" == "|" + "line 1";
    LastIndexBefore("|", '|', "line 1");
  }

  /** A line with a closing bar and no opening one is not a column line. */
  lemma ClosingBarOnly()
    ensures ColumnContent("line 3|").None?
  {
    IndentOf("", "line 3|");
  }

  /** The three lines of the example text. */
  lemma SplitHalfColumns()
    ensures Split(Join(["|line 1", "|line 2|", "line 3|"], "\n"), '\n') == ["|line 1", "|line 2|", "line 3|"]
  {
    SplitJoin(["|line 1", "|line 2|", "line 3|"], '\n');
  }

  /** A line with both bars is a column line. */
  lemma BothBars()
    ensures ColumnContent("|line 2|") == Some("line 2")
  {
    assert "|line 2|" == "" + "|" + "line 2" + "|" + "";
    ColumnLineAccepted("", "line 2", "");
  }

  /** Only the middle line of the example is kept. */
  lemma CollectHalfColumns()
    ensures Collect(["|line 1", "|line 2|", "line 3|"], ColumnContent) == ["line 2"]
  {
    var l1, l2, l3 := "|line 1", "|line 2|", "line 3|";
    OpeningBarOnly();
    ClosingBarOnly();
    BothBars();
    assert [l1, l2, l3] == [l1] + [l2] + [l3];
    CollectAppend([l1] + [l2], [l3], ColumnContent);
    CollectAppend([l1], [l2], ColumnContent);
    CollectOne(l1, ColumnContent);
    CollectOne(l2, ColumnContent);
    CollectOne(l3, ColumnContent);
  }

  /** Lines missing either bar are dropped: of the text of the lines
      "|line 1", "|line 2|" and "line 3|" only the middle one is a column
      line. */
  lemma StripColumnDropsHalfColumns()
    ensures StripColumn(Join(["|line 1", "|line 2|", "line 3|"], "\n")) == "line 2"
  {
    SplitHalfColumns();
    CollectHalfColumns();
  }

  /** Two bars with nothing between them give an empty line; a lone bar is
      not a column line. */
  lemma StripColumnEmptyColumn()
    ensures StripColumn("||") == ""
    ensures ColumnContent("||") == Some("")
    ensures ColumnContent("|") == None
  {
    ColumnLineAccepted("", "", "");
    assert "||" == "" + "|" + "" + "|" + "";
    StripSingleLine("||");
    IndentOf("", "|");
  }

  /** A carriage return left at the end of a line (text with CRLF line
      endings) stays in the margin content and keeps the line from being a
      column line: a column line ends in a bar or a blank, never in a CR. */
  lemma CarriageReturnAtLineEnd(indent: string, content: string, line: string)
    requires AllBlank(indent)
    ensures MarginContent(indent + "|" + content + "\r") == Some(content + "\r")
    ensures ColumnContent(line + "\r").None?
  {
    assert indent + "|" + content + "\r" == indent + "|" + (content + "\r");
    MarginLineAccepted(indent, content + "\r");
  }
}
