/**
 * Blocks delimited by indentation: a block reaches to the end of its last line with text before the first later line
 * that is indented no deeper than the opening one.
 */
module IndentBlock {
  import opened Text

  /** The first byte from p on that is no margin. */
  function TextStart(source: string, p: nat): (r: nat)
    requires p <= |source|
    ensures p <= r <= |source| && (forall q | p <= q < r :: Margin(source[q])) && (r < |source| ==> !Margin(source[r]))
    decreases |source| - p
  {
    if p == |source| || !Margin(source[p]) then p else TextStart(source, p + 1)
  }

  ghost predicate IsLineEnd(source: string, i: nat) {
    i == |source| || (i < |source| && source[i] == '\n')
  }

  /** The line at p holds something besides margin. */
  predicate HasText(source: string, p: nat)
    requires p <= |source|
  {
    var t := TextStart(source, p);
    t < |source| && source[t] != '\n'
  }

  /** A line below the opening one that has text, indented no deeper. */
  ghost predicate Dedents(source: string, start: nat, p: nat)
    requires start <= |source|
  {
    && start < p <= |source| && source[p - 1] == '\n'
    && HasText(source, p)
    && TextStart(source, p) - p <= TextStart(source, start) - start
  }

  /** The end of the opening line, or of a later line with text. */
  ghost predicate EndsText(source: string, start: nat, e: nat)
    requires start <= |source|
  {
    && start <= e <= |source| && IsLineEnd(source, e)
    && ((forall q | start <= q < e :: source[q] != '\n') || !BlankLineEndsAt(source, e))
  }

  /** The line ending at e is blank. */
  ghost predicate BlankLineEndsAt(source: string, e: nat)
    requires e <= |source|
  {
    exists p: nat | p <= e :: LineStart(source, p) && OnlyMargin(source, p, e)
  }

  ghost predicate LineStart(source: string, p: nat) {
    p == 0 || (p <= |source| && source[p - 1] == '\n')
  }

  ghost predicate OnlyMargin(source: string, from: nat, to: nat)
    requires to <= |source|
  {
    forall q | from <= q < to :: Margin(source[q])
  }

  ghost predicate NoText(source: string, from: nat, to: nat)
    requires to <= |source|
  {
    forall q | from <= q < to :: Margin(source[q]) || source[q] == '\n'
  }

  ghost predicate FirstDedent(source: string, start: nat, p: nat)
    requires start <= |source|
  {
    Dedents(source, start, p) && forall q: nat | q < p :: !Dedents(source, start, q)
  }

  /** The end of the last text before the first dedent, or of the source if nothing dedents. */
  ghost predicate IsBlockEnd(source: string, start: nat, end: nat)
    requires start <= |source|
  {
    || (end == |source| && forall p: nat :: !Dedents(source, start, p))
    || (exists p: nat ::
        FirstDedent(source, start, p) && end < p && EndsText(source, start, end)
        && NoText(source, end, p))
  }

  /** Up to the line end i nothing dedents, and the last text ends at lastEnd. */
  ghost predicate InBlock(source: string, start: nat, lastEnd: nat, i: nat) {
    && start <= lastEnd <= i <= |source| && IsLineEnd(source, i)
    && EndsText(source, start, lastEnd) && NoText(source, lastEnd, i)
    && forall p: nat | p <= i :: !Dedents(source, start, p)
  }

  method FindIndentBlock(source: string, start: nat) returns (end: nat)
    ensures start >= |source| ==> end == |source|
    ensures start < |source| ==> IsBlockEnd(source, start, end)
  {
    hide InBlock, IsBlockEnd, TextStart, HasText;
    if start >= |source| { return |source|; }
    var openIndent := Indent(source, start);
    var i := LineEndFrom(source, start);
    var lastEnd := i;
    OpeningLine(source, start, i);
    while i < |source|
      invariant start <= lastEnd <= i <= |source| && IsLineEnd(source, i)
      invariant InBlock(source, start, lastEnd, i)
      decreases |source| - i
    {
      var line := i + 1;
      var text, lineEnd := ScanLine(source, line);
      var blank := text >= lineEnd;
      NextLine(source, start, lastEnd, i, text, lineEnd);
      if !blank && text - line <= openIndent { return lastEnd; }
      if !blank { lastEnd := lineEnd; }
      i := lineEnd;
    }
    SourceEnds(source, start, lastEnd);
    return |source|;
  }

  /** Indentation of the opening line. */
  method Indent(source: string, start: nat) returns (n: nat)
    requires start <= |source|
    ensures n == TextStart(source, start) - start
  {
    var i := start;
    while i < |source| && (source[i] == ' ' || source[i] == '\t')
      invariant start <= i <= |source| && TextStart(source, i) == TextStart(source, start)
    {
      i := i + 1;
    }
    return i - start;
  }

  method LineEndFrom(source: string, start: nat) returns (i: nat)
    requires start <= |source|
    ensures start <= i <= |source| && IsLineEnd(source, i)
    ensures forall q | start <= q < i :: source[q] != '\n'
  {
    i := start;
    while i < |source| && source[i] != '\n'
      invariant start <= i <= |source|
      invariant forall q | start <= q < i :: source[q] != '\n'
    {
      i := i + 1;
    }
  }

  lemma OpeningLine(source: string, start: nat, i: nat)
    requires start <= i <= |source| && IsLineEnd(source, i) && forall q | start <= q < i :: source[q] != '\n'
    ensures InBlock(source, start, i, i)
  {
    forall p: nat | start < p <= i ensures !Dedents(source, start, p) { assert source[p - 1] != '\n'; }
  }

  lemma SourceEnds(source: string, start: nat, lastEnd: nat)
    requires start <= |source| && InBlock(source, start, lastEnd, |source|)
    ensures IsBlockEnd(source, start, |source|)
  {
  }

  /** The line behind i dedents, or has text of the block, or is blank. */
  lemma NextLine(source: string, start: nat, lastEnd: nat, i: nat, text: nat, lineEnd: nat)
    requires i < |source| && InBlock(source, start, lastEnd, i)
    requires i + 1 <= text <= lineEnd <= |source| && IsLineEnd(source, lineEnd)
    requires text == TextStart(source, i + 1) && (HasText(source, i + 1) <==> text < lineEnd)
    requires forall q | i < q < lineEnd :: source[q] != '\n'
    ensures text < lineEnd && text - (i + 1) <= TextStart(source, start) - start ==> IsBlockEnd(source, start, lastEnd)
    ensures text < lineEnd && text - (i + 1) > TextStart(source, start) - start
            ==> InBlock(source, start, lineEnd, lineEnd)
    ensures text == lineEnd ==> InBlock(source, start, lastEnd, lineEnd)
  {
    hide TextStart, HasText, EndsText;
    assert Dedents(source, start, i + 1) <==> text < lineEnd && text - (i + 1) <= TextStart(source, start) - start;
    forall p: nat | i + 1 < p <= lineEnd ensures !Dedents(source, start, p) { assert source[p - 1] != '\n'; }
    if text < lineEnd { TextEnds(source, start, i + 1, text, lineEnd); }
    assert Dedents(source, start, i + 1) ==> FirstDedent(source, start, i + 1);
  }

  /** Where a line's text starts and where the line ends. */
  method ScanLine(source: string, line: nat) returns (text: nat, lineEnd: nat)
    requires line <= |source|
    ensures line <= text <= lineEnd <= |source| && IsLineEnd(source, lineEnd)
    ensures text == TextStart(source, line)
    ensures forall q | line <= q < lineEnd :: source[q] != '\n'
    ensures HasText(source, line) <==> text < lineEnd
  {
    text := line;
    while text < |source| && (source[text] == ' ' || source[text] == '\t')
      invariant line <= text <= |source| && TextStart(source, text) == TextStart(source, line)
      invariant forall q | line <= q < text :: source[q] != '\n'
    {
      text := text + 1;
    }
    lineEnd := text;
    while lineEnd < |source| && source[lineEnd] != '\n'
      invariant text <= lineEnd <= |source|
      invariant forall q | line <= q < lineEnd :: source[q] != '\n'
    {
      lineEnd := lineEnd + 1;
    }
  }

  lemma TextEnds(source: string, start: nat, line: nat, text: nat, lineEnd: nat)
    requires start < line <= text < lineEnd <= |source| && source[line - 1] == '\n'
    requires IsLineEnd(source, lineEnd) && !Margin(source[text])
    requires forall q | line <= q < lineEnd :: source[q] != '\n'
    ensures EndsText(source, start, lineEnd)
  {
    forall p: nat | p <= lineEnd && LineStart(source, p) ensures !OnlyMargin(source, p, lineEnd) {
      assert p <= text;
    }
  }

  lemma {:induction false} BlankBehind(source: string, e: nat, f: nat, from: nat)
    requires e < from <= f < |source| && source[e] == '\n' && NoText(source, e, f) && OnlyMargin(source, from, f)
    ensures BlankLineEndsAt(source, f)
    decreases from
  {
    if source[from - 1] == '\n' {
      assert LineStart(source, from);
    } else {
      BlankBehind(source, e, f, from - 1);
    }
  }

  lemma LastTextUnique(source: string, start: nat, p: nat, e: nat, f: nat)
    requires start <= |source| && Dedents(source, start, p) && e <= f < p
    requires EndsText(source, start, e) && NoText(source, e, p) && EndsText(source, start, f)
    ensures e == f
  {
    if e < f { BlankBehind(source, e, f, f); }
  }

  /** The specification admits one end only. */
  lemma EndIsUnique(source: string, start: nat, e: nat, f: nat)
    requires start <= |source| && IsBlockEnd(source, start, e) && IsBlockEnd(source, start, f)
    ensures e == f
  {
    hide EndsText, NoText;
    if p: nat :|
              p <= |source| && FirstDedent(source, start, p) && e < p && EndsText(source, start, e)
              && NoText(source, e, p) {
      if e <= f { LastTextUnique(source, start, p, e, f); } else { LastTextUnique(source, start, p, f, e); }
    }
  }

  /** A line that holds only a comment ends the block like any other: here the block is the first two lines. */
  lemma CommentEndsBlock(end: nat)
    ensures IsBlockEnd("d\n x\n#\n y\n", 0, end) <==> end == 4
  {
    var source := "d\n x\n#\n y\n";
    assert TextStart(source, 0) == 0 && TextStart(source, 2) == 3 && TextStart(source, 5) == 5;
    assert FirstDedent(source, 0, 5);
    assert EndsText(source, 0, 4) by {
      forall p: nat | p <= 4 && LineStart(source, p) ensures !OnlyMargin(source, p, 4) {
        assert source[3] == 'x';
      }
    }
    assert IsBlockEnd(source, 0, 4);
    if IsBlockEnd(source, 0, end) { EndIsUnique(source, 0, end, 4); }
  }
}
