/** Indented blocks as written: an opening line, deeper and blank lines, and what follows. */
module IndentReadBack {
  import opened IndentBlock
  import opened Text
  import opened Written

  /** A line without its line break; one without text is blank. */
  datatype Line = Line(margin: string, text: string)

  ghost predicate GoodLine(l: Line) {
    && (forall i | 0 <= i < |l.margin| :: l.margin[i] == ' ' || l.margin[i] == '\t')
    && (forall i | 0 <= i < |l.text| :: l.text[i] != '\n')
    && (l.text != "" ==> l.text[0] != ' ' && l.text[0] != '\t')
  }

  /** Each line behind a line break. */
  function Write(ls: seq<Line>): string {
    if ls == [] then "" else "\n" + (ls[0].margin + ls[0].text) + Write(ls[1..])
  }

  /** How far the last line with text reaches. */
  function LastText(ls: seq<Line>): nat {
    if ls == [] then 0
    else
      var n, more := 1 + |ls[0].margin| + |ls[0].text|, LastText(ls[1..]);
      if more > 0 then n + more else if ls[0].text != "" then n else 0
  }

  /** Blank, or deeper than the opening line. */
  ghost predicate Inside(ls: seq<Line>, indent: nat) {
    forall l | l in ls :: GoodLine(l) && (l.text != "" ==> |l.margin| > indent)
  }

  ghost predicate LineBreaks(rest: string) { rest == "" || rest[0] == '\n' }

  lemma {:induction false} MarginSkipped(source: string, p: nat, margin: string, rest: string)
    requires Stands(source, p, margin, rest) && forall i | 0 <= i < |margin| :: margin[i] == ' ' || margin[i] == '\t'
    requires rest != "" ==> rest[0] != ' ' && rest[0] != '\t'
    ensures TextStart(source, p) == p + |margin|
    decreases |margin|
  {
    if margin == "" {
      if rest != "" { assert source[p..][0] == source[p]; }
    } else {
      StandsAt(source, p, margin, rest, 0);
      assert margin == [margin[0]] + margin[1..];
      StandsSplit(source, p, [margin[0]], margin[1..], rest);
      MarginSkipped(source, p + 1, margin[1..], rest);
    }
  }

  /** What the scanner finds on a written line. */
  lemma LineFound(source: string, p: nat, l: Line, rest: string)
    requires Stands(source, p, l.margin + l.text, rest) && GoodLine(l) && LineBreaks(rest)
    ensures var e := p + |l.margin| + |l.text|;
            && e <= |source| && IsLineEnd(source, e) && TextStart(source, p) == p + |l.margin|
            && (HasText(source, p) <==> l.text != "")
            && forall q | p <= q < e :: source[q] != '\n'
  {
    StandsSplit(source, p, l.margin, l.text, rest);
    assert l.text != "" ==> (l.text + rest)[0] == l.text[0];
    MarginSkipped(source, p, l.margin, l.text + rest);
    var e := p + |l.margin| + |l.text|;
    if rest != "" { assert source[e..][0] == source[e]; }
    if l.text != "" { StandsAt(source, p + |l.margin|, l.text, rest, 0); }
    forall q | p <= q < e ensures source[q] != '\n' {
      StandsAt(source, p, l.margin + l.text, rest, q - p);
    }
  }

  /** One such line. */
  lemma LineStays(source: string, start: nat, lastEnd: nat, i: nat, l: Line, indent: nat, rest: string)
    requires InBlock(source, start, lastEnd, i) && Stands(source, i, "\n" + (l.margin + l.text), rest)
    requires GoodLine(l) && LineBreaks(rest) && (l.text != "" ==> |l.margin| > indent)
    requires start <= |source| && TextStart(source, start) == start + indent
    ensures var e := i + 1 + |l.margin| + |l.text|;
            InBlock(source, start, if l.text != "" then e else lastEnd, e)
  {
    hide *;
    var text := i + 1 + |l.margin|;
    StandsSplit(source, i, "\n", l.margin + l.text, rest);
    LineFound(source, i + 1, l, rest);
    BlockStart(source, start, lastEnd, i);
    NextLine(source, start, lastEnd, i, text, text + |l.text|);
  }

  lemma Broken(ls: seq<Line>, rest: string)
    requires LineBreaks(rest)
    ensures LineBreaks(Write(ls) + rest)
  {
    if ls != [] { assert (Write(ls) + rest)[0] == '\n'; } else { assert Write(ls) + rest == rest; }
  }

  lemma InsideTail(ls: seq<Line>, indent: nat)
    requires ls != [] && Inside(ls, indent)
    ensures Inside(ls[1..], indent) && GoodLine(ls[0]) && (ls[0].text != "" ==> |ls[0].margin| > indent)
  {
    assert ls[0] in ls;
  }

  /** Blank and deeper lines stay in the block, which then reaches to the last text. */
  lemma {:induction false} LinesStay(source: string, start: nat, lastEnd: nat, i: nat, ls: seq<Line>, indent: nat,
                                     rest: string)
    requires InBlock(source, start, lastEnd, i) && Stands(source, i, Write(ls), rest) && LineBreaks(rest)
    requires start <= |source| && Inside(ls, indent) && TextStart(source, start) == start + indent
    ensures InBlock(source, start, if LastText(ls) > 0 then i + LastText(ls) else lastEnd, i + |Write(ls)|)
    decreases |ls|
  {
    hide *;
    if ls == [] {
      NothingWritten(ls);
    } else {
      var l, more := ls[0], Write(ls[1..]);
      var e := i + 1 + |l.margin| + |l.text|;
      InsideTail(ls, indent);
      Broken(ls[1..], rest);
      WriteStep(ls);
      StandsSplit(source, i, "\n" + (l.margin + l.text), more, rest);
      LineStays(source, start, lastEnd, i, l, indent, more + rest);
      LinesStay(source, start, if l.text != "" then e else lastEnd, e, ls[1..], indent, rest);
    }
  }

  lemma NothingWritten(ls: seq<Line>)
    requires ls == []
    ensures Write(ls) == "" && LastText(ls) == 0
  {
  }

  lemma WriteStep(ls: seq<Line>)
    requires ls != []
    ensures Write(ls) == "\n" + (ls[0].margin + ls[0].text) + Write(ls[1..])
    ensures var n, more := 1 + |ls[0].margin| + |ls[0].text|, LastText(ls[1..]);
            LastText(ls) == if more > 0 then n + more else if ls[0].text != "" then n else 0
  {
  }

  lemma BlockStart(source: string, start: nat, lastEnd: nat, i: nat)
    requires InBlock(source, start, lastEnd, i)
    ensures start <= lastEnd <= i <= |source|
  {
  }

  /** The whole block, from the opening line on. */
  lemma BlockStays(source: string, start: nat, open: Line, ls: seq<Line>, rest: string)
    requires Stands(source, start, (open.margin + open.text) + Write(ls), rest) && GoodLine(open)
    requires Inside(ls, |open.margin|) && LineBreaks(rest)
    ensures var i := start + |open.margin| + |open.text|;
            && start <= |source| && TextStart(source, start) == start + |open.margin|
            && InBlock(source, start, i + LastText(ls), i + |Write(ls)|)
            && Stands(source, i + |Write(ls)|, "", rest)
  {
    hide InBlock, TextStart, HasText, GoodLine, LineBreaks, Inside;
    var i, line := start + |open.margin| + |open.text|, open.margin + open.text;
    StandsSplit(source, start, line, Write(ls), rest);
    Broken(ls, rest);
    LineFound(source, start, open, Write(ls) + rest);
    OpeningLine(source, start, i);
    LinesStay(source, start, i, i, ls, |open.margin|, rest);
  }

  /**
   * A block ends with its last text if a line as shallow as the opening one follows, and with the source if nothing
   * does.
   */
  lemma BlockEndsAsWritten(source: string, start: nat, open: Line, ls: seq<Line>, rest: string, end: nat)
    requires Stands(source, start, (open.margin + open.text) + Write(ls), rest) && GoodLine(open)
    requires Inside(ls, |open.margin|) && IsBlockEnd(source, start, end)
    ensures rest == "" ==> end == |source|
    ensures forall l: Line, more | rest == "\n" + (l.margin + l.text) + more && GoodLine(l) && l.text != ""
              && |l.margin| <= |open.margin| && LineBreaks(more) ::
              end == start + |open.margin| + |open.text| + LastText(ls)
  {
    hide IsBlockEnd, InBlock, TextStart, GoodLine, Inside, Write, LastText;
    if LineBreaks(rest) {
      BlockStays(source, start, open, ls, rest);
      var i := start + |open.margin| + |open.text|;
      var lastEnd, e := i + LastText(ls), i + |Write(ls)|;
      hide LineBreaks, Stands;
      if rest == "" { SourceEndsBlock(source, start, lastEnd, e, end); }
      forall l: Line, more | rest == "\n" + (l.margin + l.text) + more && GoodLine(l) && l.text != ""
        && |l.margin| <= |open.margin| && LineBreaks(more)
        ensures end == lastEnd
      {
        DedentEnds(source, start, lastEnd, e, l, more, |open.margin|, end);
      }
    }
  }

  lemma SourceEndsBlock(source: string, start: nat, lastEnd: nat, e: nat, end: nat)
    requires InBlock(source, start, lastEnd, e) && start <= |source| && Stands(source, e, "", "")
    requires IsBlockEnd(source, start, end)
    ensures end == |source|
  {
    hide IsBlockEnd, InBlock;
    assert e == |source|;
    SourceEnds(source, start, lastEnd);
    EndIsUnique(source, start, end, |source|);
  }

  lemma DedentEnds(source: string, start: nat, lastEnd: nat, e: nat, l: Line, more: string, indent: nat, end: nat)
    requires InBlock(source, start, lastEnd, e) && start <= |source| && TextStart(source, start) == start + indent
    requires Stands(source, e, "", "\n" + (l.margin + l.text) + more) && GoodLine(l) && l.text != ""
    requires |l.margin| <= indent && LineBreaks(more) && IsBlockEnd(source, start, end)
    ensures end == lastEnd
  {
    hide IsBlockEnd, InBlock, TextStart, HasText, GoodLine;
    var line := l.margin + l.text;
    assert "\n" + line + more == "\n" + (line + more);
    assert Stands(source, e, "\n", line + more) by { assert source[e..][0] == source[e]; }
    assert Stands(source, e + 1, line, more) by {
      assert source[e + 1..] == line + more;
      assert source[e + 1..e + 1 + |line|] == (line + more)[..|line|];
    }
    LineFound(source, e + 1, l, more);
    BlockStart(source, start, lastEnd, e);
    NextLine(source, start, lastEnd, e, e + 1 + |l.margin|, e + 1 + |line|);
    EndIsUnique(source, start, end, lastEnd);
  }
}
