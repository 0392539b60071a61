/** The end of a JavaScript statement: skipping scanners against a one-character-at-a-time automaton. */
module JsStatement {
  import opened Text

  /** Lexical mode in front of a byte; d is the bracket depth of the surrounding code. */
  datatype Mode =
    | Code(d: int)
    | Str(quote: char, d: int) | StrEscape(quote: char, d: int)
    | Template(d: int) | TemplateEscape(d: int) | EmbedOpen(d: int) | Embed(braces: nat, d: int)
    | LineComment(d: int) | BlockOpen(d: int) | Block(d: int) | BlockClose(d: int)

  predicate At(source: string, i: nat, c: char) {
    i < |source| && source[i] == c
  }

  /** A block comment goes on only while two more bytes are left; otherwise the last byte is code again. */
  function InBlock(source: string, i: nat, d: int): Mode {
    if i + 1 < |source| then Block(d) else Code(d)
  }

  /** The mode after the byte at i. */
  function Advance(source: string, i: nat, m: Mode): Mode
    requires i < |source|
  {
    var c := source[i];
    match m
    case Code(d) =>
      if c in "{[(" then Code(d + 1)
      else if c in "}])" then Code(d - 1)
      else if c in "\"'" then Str(c, d)
      else if c == '`' then Template(d)
      else if c == '/' && At(source, i + 1, '/') then LineComment(d)
      else if c == '/' && At(source, i + 1, '*') then BlockOpen(d)
      else m
    case Str(q, d) => if c == '\\' then StrEscape(q, d) else if c == q || c == '\n' then Code(d) else m
    case StrEscape(q, d) => Str(q, d)
    case Template(d) =>
      if c == '\\' then TemplateEscape(d)
      else if c == '`' then Code(d)
      else if c == '$' && At(source, i + 1, '{') then EmbedOpen(d)
      else m
    case TemplateEscape(d) => Template(d)
    case EmbedOpen(d) => Embed(1, d)
    case Embed(k, d) =>
      if c == '{' then Embed(k + 1, d)
      else if c == '}' then (if k <= 1 then Template(d) else Embed(k - 1, d))
      else m
    case LineComment(d) => if At(source, i + 1, '\n') then Code(d) else m
    case BlockOpen(d) => InBlock(source, i + 1, d)
    case Block(d) => if c == '*' && At(source, i + 1, '/') then BlockClose(d) else InBlock(source, i + 1, d)
    case BlockClose(d) => Code(d)
  }

  function ModeAt(source: string, start: nat, i: nat): Mode
    requires start <= i <= |source|
  {
    if i == start then Code(0) else Advance(source, i - 1, ModeAt(source, start, i - 1))
  }

  predicate Continues(source: string, nl: nat) {
    var i := NextNonBlank(source, nl + 1);
    i < |source| && source[i] in ".?:"
  }

  /** The statement stops at i: an unmatched closer, a semicolon, or a newline that is not continued, all at depth 0. */
  predicate StopsAt(source: string, start: nat, i: nat)
    requires start <= i
  {
    && i < |source| && ModeAt(source, start, i) == Code(0)
    && (source[i] in "}])" || source[i] == ';' || (source[i] == '\n' && !Continues(source, i)))
  }

  method ContinuesNextLine(source: string, nl: nat) returns (r: bool)
    ensures r == Continues(source, nl)
  {
    var i := nl + 1;
    while i < |source| && IsBlank(source[i])
      invariant NextNonBlank(source, nl + 1) == NextNonBlank(source, i)
    {
      i := i + 1;
    }
    return i < |source| && source[i] in ".?:";
  }

  /** From `from` up to `to` the automaton is outside code, and at `to` it is back in code at depth d. */
  ghost predicate Skips(source: string, origin: nat, from: nat, to: nat, d: int) {
    && origin <= from <= to <= |source|
    && (forall p | from <= p < to :: !ModeAt(source, origin, p).Code?)
    && (to < |source| ==> ModeAt(source, origin, to) == Code(d))
  }

  method SkipJSString(source: string, start: nat, quote: char, ghost origin: nat, ghost d: int) returns (r: nat)
    requires origin <= start < |source| && ModeAt(source, origin, start + 1) == Str(quote, d)
    ensures Skips(source, origin, start + 1, r, d)
  {
    var i := start + 1;
    while i < |source|
      invariant start < i <= |source| + 1
      invariant i <= |source| ==> ModeAt(source, origin, i) == Str(quote, d)
      invariant forall p | start < p < i && p <= |source| :: !ModeAt(source, origin, p).Code?
    {
      if source[i] == '\\' {
        if i + 1 <= |source| { assert ModeAt(source, origin, i + 1) == StrEscape(quote, d); }
        i := i + 2;
      } else if source[i] == quote || source[i] == '\n' {
        return i + 1;
      } else {
        i := i + 1;
      }
    }
    return |source|;
  }

  /** The `${...}` part of a template, counting braces only. */
  method SkipEmbedded(source: string, start: nat, ghost origin: nat, ghost d: int) returns (i: nat)
    requires origin <= start && start + 1 < |source| && source[start] == '$' && source[start + 1] == '{'
    requires ModeAt(source, origin, start) == Template(d)
    ensures start + 2 <= i <= |source|
    ensures forall p | start < p < i :: !ModeAt(source, origin, p).Code?
    ensures i < |source| ==> ModeAt(source, origin, i) == Template(d)
  {
    var depth := 1;
    assert ModeAt(source, origin, start + 1) == EmbedOpen(d);
    i := start + 2;
    while i < |source| && depth > 0
      invariant start + 2 <= i <= |source| && depth >= 0
      invariant ModeAt(source, origin, i) == if depth > 0 then Embed(depth, d) else Template(d)
      invariant forall p | start < p < i :: !ModeAt(source, origin, p).Code?
    {
      if source[i] == '{' { depth := depth + 1; }
      else if source[i] == '}' { depth := depth - 1; }
      i := i + 1;
    }
  }

  method SkipJSTemplate(source: string, start: nat, ghost origin: nat, ghost d: int) returns (r: nat)
    requires origin <= start < |source| && ModeAt(source, origin, start + 1) == Template(d)
    ensures Skips(source, origin, start + 1, r, d)
  {
    var i := start + 1;
    while i < |source|
      invariant start < i <= |source| + 1
      invariant i < |source| ==> ModeAt(source, origin, i) == Template(d)
      invariant forall p | start < p < i && p < |source| :: !ModeAt(source, origin, p).Code?
    {
      if source[i] == '\\' {
        assert ModeAt(source, origin, i + 1) == TemplateEscape(d);
        i := i + 2;
      } else if source[i] == '`' {
        return i + 1;
      } else if source[i] == '$' && i + 1 < |source| && source[i + 1] == '{' {
        i := SkipEmbedded(source, i, origin, d);
      } else {
        i := i + 1;
      }
    }
    return |source|;
  }

  method SkipLineComment(source: string, start: nat, ghost origin: nat, ghost d: int) returns (i: nat)
    requires origin <= start && start + 1 < |source| && source[start] == source[start + 1] == '/'
    requires ModeAt(source, origin, start) == Code(d)
    ensures start < i && Skips(source, origin, start + 1, i, d)
  {
    i := start;
    while i < |source| && source[i] != '\n'
      invariant start <= i <= |source|
      invariant i > start && i < |source|
                ==> ModeAt(source, origin, i) == if source[i] == '\n' then Code(d) else LineComment(d)
      invariant i == start || i == start + 1 || forall p | start < p < i :: !ModeAt(source, origin, p).Code?
    {
      i := i + 1;
    }
  }

  method SkipBlockComment(source: string, start: nat, ghost origin: nat, ghost d: int) returns (i: nat)
    requires origin <= start && start + 1 < |source| && source[start] == '/' && source[start + 1] == '*'
    requires ModeAt(source, origin, start) == Code(d)
    ensures start < i && Skips(source, origin, start + 1, i, d)
  {
    assert ModeAt(source, origin, start + 1) == BlockOpen(d);
    i := start + 2;
    while i + 1 < |source| && !(source[i] == '*' && source[i + 1] == '/')
      invariant start + 2 <= i <= |source|
      invariant ModeAt(source, origin, i) == InBlock(source, i, d)
      invariant forall p | start < p < i :: !ModeAt(source, origin, p).Code?
    {
      i := i + 1;
    }
    if i + 1 < |source| {
      assert ModeAt(source, origin, i + 1) == BlockClose(d);
      i := i + 2;
    }
  }

  /** The least stopping point, or the end of the source; a semicolon belongs to the statement. */
  ghost predicate IsStatementEnd(source: string, start: nat, r: nat) {
    || (exists p ::
        && start <= p && StopsAt(source, start, p)
        && (forall q | start <= q < p :: !StopsAt(source, start, q))
        && r == if source[p] == ';' then p + 1 else p)
    || (r == |source| && forall q: nat | start <= q :: !StopsAt(source, start, q))
  }

  method FindStatementEnd(source: string, start: nat) returns (r: nat)
    ensures start <= |source| ==> start <= r <= |source|
    ensures start > |source| ==> r == |source|
    ensures IsStatementEnd(source, start, r)
  {
    var depth := 0;
    var i := start;
    while i < |source|
      invariant start <= |source| ==> start <= i <= |source|
      invariant i < |source| ==> ModeAt(source, start, i) == Code(depth) && depth >= 0
      invariant forall q | start <= q < i :: !StopsAt(source, start, q)
      decreases |source| - i
    {
      var c := source[i];
      var next := i + 1;
      if c in "{[(" {
        depth := depth + 1;
      } else if c in "}])" {
        depth := depth - 1;
        if depth < 0 { return i; }
      } else if c in "\"'" {
        next := SkipJSString(source, i, c, start, depth);
      } else if c == '`' {
        next := SkipJSTemplate(source, i, start, depth);
      } else if c == '/' && i + 1 < |source| && source[i + 1] == '/' {
        next := SkipLineComment(source, i, start, depth);
      } else if c == '/' && i + 1 < |source| && source[i + 1] == '*' {
        next := SkipBlockComment(source, i, start, depth);
      } else if c == ';' {
        if depth == 0 { return i + 1; }
      } else if c == '\n' && depth == 0 {
        var continues := ContinuesNextLine(source, i);
        if !continues { return i; }
      }
      i := next;
    }
    return |source|;
  }
}
