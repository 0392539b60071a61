/** Comment spans of SQL text, against a one-pass automaton that marks comment bytes. */
module SqlComments {

  datatype Mode = Code | Str | StrEscape | LineComment | BlockOpen | Block | BlockClose

  datatype Span = Span(start: nat, end: nat)

  predicate At(src: string, i: nat, c: char) {
    i < |src| && src[i] == c
  }

  /** A block comment goes on only while two more bytes are left, so an unterminated one ends a byte early. */
  function InBlock(src: string, i: nat): Mode {
    if i + 1 < |src| then Block else Code
  }

  predicate OpensLine(src: string, i: nat) { At(src, i, '-') && At(src, i + 1, '-') }

  predicate OpensBlock(src: string, i: nat) { At(src, i, '/') && At(src, i + 1, '*') }

  function Advance(src: string, i: nat, m: Mode): Mode
    requires i < |src|
  {
    var c := src[i];
    match m
    case Code => if c == '\'' then Str else if OpensLine(src, i) then LineComment
        else if OpensBlock(src, i) then BlockOpen else Code
    case Str => if c == '\'' then Code else if c == '\\' then StrEscape else Str
    case StrEscape => Str
    case LineComment => if At(src, i + 1, '\n') then Code else LineComment
    case BlockOpen => InBlock(src, i + 1)
    case Block => if c == '*' && At(src, i + 1, '/') then BlockClose else InBlock(src, i + 1)
    case BlockClose => Code
  }

  function ModeAt(src: string, i: nat): Mode
    requires i <= |src|
  {
    if i == 0 then Code else Advance(src, i - 1, ModeAt(src, i - 1))
  }

  /** The byte at i belongs to a comment, delimiters included. */
  predicate IsComment(src: string, i: nat)
    requires i < |src|
  {
    var m := ModeAt(src, i);
    m in {LineComment, BlockOpen, Block, BlockClose} || (m == Code && (OpensLine(src, i) || OpensBlock(src, i)))
  }

  ghost predicate Covered(spans: seq<Span>, p: int) {
    exists k :: 0 <= k < |spans| && spans[k].start <= p < spans[k].end
  }

  /** Sorted, disjoint and non-empty, all below `end`. */
  ghost predicate Ordered(spans: seq<Span>, end: nat) {
    && (forall k | 0 <= k < |spans| :: spans[k].start < spans[k].end <= end)
    && forall j, k | 0 <= j < k < |spans| :: spans[j].end <= spans[k].start
  }

  /** The scan up to i has recorded exactly the comment bytes before i. */
  ghost predicate Scanned(src: string, spans: seq<Span>, i: nat) {
    && i <= |src| && Ordered(spans, i)
    && forall p: nat | p < i :: Covered(spans, p) <==> IsComment(src, p)
  }

  /** A stretch with no comment byte. */
  lemma ScannedSkip(src: string, spans: seq<Span>, i: nat, j: nat)
    requires Scanned(src, spans, i) && i <= j <= |src|
    requires forall p | i <= p < j :: !IsComment(src, p)
    ensures Scanned(src, spans, j)
  {
    forall p: nat | p < j ensures Covered(spans, p) <==> IsComment(src, p) { }
  }

  /** A stretch of comment bytes only, recorded as one span. */
  lemma ScannedSpan(src: string, spans: seq<Span>, i: nat, j: nat)
    requires Scanned(src, spans, i) && i < j <= |src|
    requires forall p | i <= p < j :: IsComment(src, p)
    ensures Scanned(src, spans + [Span(i, j)], j)
  {
    var spans' := spans + [Span(i, j)];
    assert spans'[|spans|] == Span(i, j);
    forall p: nat | p < j ensures Covered(spans', p) <==> IsComment(src, p) {
      if Covered(spans, p) {
        var k :| 0 <= k < |spans| && spans[k].start <= p < spans[k].end;
        assert spans'[k] == spans[k];
      }
      if i <= p { assert Covered(spans', p); }
    }
  }

  method SkipString(src: string, i: nat) returns (j: nat)
    requires i < |src| && src[i] == '\'' && ModeAt(src, i) == Code
    ensures i < j <= |src| && (j < |src| ==> ModeAt(src, j) == Code)
    ensures forall p | i <= p < j :: !IsComment(src, p)
  {
    j := i + 1;
    while j < |src| && src[j] != '\''
      invariant i < j <= |src| && (j < |src| ==> ModeAt(src, j) == Str)
      invariant forall p | i <= p < j :: !IsComment(src, p)
    {
      if src[j] == '\\' && j + 1 < |src| {
        assert ModeAt(src, j + 1) == StrEscape;
        j := j + 2;
      } else {
        j := j + 1;
      }
    }
    if j < |src| { j := j + 1; }
  }

  method SkipLine(src: string, start: nat) returns (i: nat)
    requires OpensLine(src, start) && ModeAt(src, start) == Code
    ensures start < i <= |src| && (i < |src| ==> ModeAt(src, i) == Code)
    ensures forall p | start <= p < i :: IsComment(src, p)
  {
    i := start;
    while i < |src| && src[i] != '\n'
      invariant start <= i <= |src|
      invariant i > start && i < |src| ==> ModeAt(src, i) == if src[i] == '\n' then Code else LineComment
      invariant forall p | start <= p < i :: IsComment(src, p)
    {
      i := i + 1;
    }
  }

  method SkipBlock(src: string, start: nat) returns (i: nat)
    requires OpensBlock(src, start) && ModeAt(src, start) == Code
    ensures start < i <= |src| && (i < |src| ==> ModeAt(src, i) == Code)
    ensures forall p | start <= p < i :: IsComment(src, p)
  {
    assert ModeAt(src, start + 1) == BlockOpen;
    i := start + 2;
    while i + 1 < |src| && !(src[i] == '*' && src[i + 1] == '/')
      invariant start + 2 <= i <= |src|
      invariant ModeAt(src, i) == InBlock(src, i)
      invariant forall p | start <= p < i :: IsComment(src, p)
    {
      i := i + 1;
    }
    if i + 1 < |src| {
      assert ModeAt(src, i + 1) == BlockClose;
      i := i + 2;
    }
  }

  /** Sorted, disjoint, non-empty, in-bounds spans covering exactly the comment bytes. */
  method SqlCommentSpans(src: string) returns (spans: seq<Span>)
    ensures Ordered(spans, |src|)
    ensures forall p: nat | p < |src| :: Covered(spans, p) <==> IsComment(src, p)
  {
    spans := [];
    var i := 0;
    while i < |src|
      invariant Scanned(src, spans, i)
      invariant i < |src| ==> ModeAt(src, i) == Code
    {
      var start := i;
      if src[i] == '\'' {
        i := SkipString(src, i);
        ScannedSkip(src, spans, start, i);
      } else if i + 1 < |src| && src[i] == '-' && src[i + 1] == '-' {
        i := SkipLine(src, i);
        ScannedSpan(src, spans, start, i);
        spans := spans + [Span(start, i)];
      } else if i + 1 < |src| && src[i] == '/' && src[i + 1] == '*' {
        i := SkipBlock(src, i);
        ScannedSpan(src, spans, start, i);
        spans := spans + [Span(start, i)];
      } else {
        i := i + 1;
        ScannedSkip(src, spans, start, i);
      }
    }
  }

  method InAnySpan(pos: int, spans: seq<Span>) returns (r: bool)
    ensures r <==> Covered(spans, pos)
  {
    for k := 0 to |spans|
      invariant forall j | 0 <= j < k :: !(spans[j].start <= pos < spans[j].end)
    {
      if pos >= spans[k].start && pos < spans[k].end { return true; }
    }
    return false;
  }

  /** An unterminated block comment covers every byte but the last, which is read as code again. */
  lemma UnterminatedStopsShort(src: string, start: nat)
    requires OpensBlock(src, start) && ModeAt(src, start) == Code && start + 2 < |src|
    requires forall q | start + 2 <= q < |src| :: !(At(src, q, '*') && At(src, q + 1, '/'))
    ensures forall p | start <= p < |src| - 1 :: IsComment(src, p)
    ensures !IsComment(src, |src| - 1)
  {
    assert ModeAt(src, start + 1) == BlockOpen;
    var i := start + 2;
    while i < |src| - 1
      invariant start + 2 <= i <= |src| - 1 && ModeAt(src, i) == InBlock(src, i)
      invariant forall p | start <= p < i :: IsComment(src, p)
    {
      assert !(At(src, i, '*') && At(src, i + 1, '/'));
      i := i + 1;
    }
  }
}
