/** Declarations as written: a header, and a body in braces, a semicolon or a line end where it was put. */
module BraceReadBack {
  import opened BraceBlock
  import opened Text
  import opened Written

  /** A stretch of a header: one byte, or parentheses with anything balanced in between. */
  datatype Piece = Byte(c: char) | Parens(text: string)

  function WritePiece(p: Piece): string {
    match p case Byte(c) => [c] case Parens(text) => "(" + (text + ")")
  }

  function Write(ps: seq<Piece>): string {
    if ps == [] then "" else WritePiece(ps[0]) + Write(ps[1..])
  }

  /** How often the text opens more than it closes. */
  function Level(text: string, open: char, close: char): int {
    if text == "" then 0
    else
      var c := text[|text| - 1];
      Level(text[..|text| - 1], open, close) + if c == open then 1 else if c == close then -1 else 0
  }

  ghost predicate NeverBelow(text: string, open: char, close: char) {
    forall k | 0 <= k <= |text| :: Level(text[..k], open, close) >= 0
  }

  ghost predicate Balanced(text: string, open: char, close: char) {
    NeverBelow(text, open, close) && Level(text, open, close) == 0
  }

  ghost predicate BlankUpTo(rest: string, k: nat) {
    k < |rest| && forall i | 0 <= i < k :: rest[i] == ' ' || rest[i] == '\t' || rest[i] == '\r' || rest[i] == '\n'
  }

  /** The word `where` stands at k. */
  ghost predicate WhereStands(rest: string, k: nat) {
    && k + 5 <= |rest| && rest[k..k + 5] == "where"
    && (k + 5 < |rest| ==>
          var c := rest[k + 5];
          !(c == '_' || 'a' <= c <= 'z' || 'A' <= c <= 'Z' || '0' <= c <= '9'))
  }

  ghost predicate GoesWhere(rest: string) {
    exists k: nat :: BlankUpTo(rest, k) && WhereStands(rest, k)
  }

  /** Behind blanks and line breaks stands a brace, an arrow or the word `where`. */
  ghost predicate GoesOn(rest: string) {
    exists k: nat ::
      && BlankUpTo(rest, k)
      && (rest[k] == '{' || (k + 1 < |rest| && rest[k] == '-' && rest[k + 1] == '>') || WhereStands(rest, k))
  }

  /** Whether the header is in a `where` clause behind this piece. */
  ghost predicate WhereAfter(p: Piece, rest: string, inWhere: bool) {
    inWhere || (p == Byte('\n') && GoesWhere(rest))
  }

  ghost function WhereBehind(ps: seq<Piece>, rest: string, inWhere: bool): bool
    decreases |ps|
  {
    if ps == [] then inWhere else WhereBehind(ps[1..], rest, WhereAfter(ps[0], Write(ps[1..]) + rest, inWhere))
  }

  /** The stretch can stand in a header before this text: it neither ends it nor opens a body. */
  ghost predicate GoodPiece(p: Piece, rest: string, inWhere: bool) {
    match p
    case Byte(c) => c != '(' && c != '{' && c != ';' && (c == '\n' ==> inWhere || GoesOn(rest))
    case Parens(text) => Balanced(text, '(', ')')
  }

  ghost predicate Good(ps: seq<Piece>, rest: string, inWhere: bool)
    decreases |ps|
  {
    ps == []
    || (var t := Write(ps[1..]) + rest;
        GoodPiece(ps[0], t, inWhere) && Good(ps[1..], rest, WhereAfter(ps[0], t, inWhere)))
  }

  // ---- Where in a source ----

  lemma {:induction false} BlankAt(source: string, p: nat, k: nat)
    requires p <= |source| && BlankUpTo(source[p..], k) && !IsBlank(source[p + k])
    ensures NextNonBlank(source, p) == p + k
    decreases k
  {
    if k > 0 {
      assert source[p..][0] == source[p] && source[p..][1..] == source[p + 1..];
      BlankAt(source, p + 1, k - 1);
    }
  }

  lemma BlankIff(source: string, p: nat)
    requires p <= |source|
    ensures forall k: nat :: BlankUpTo(source[p..], k) && !IsBlank(source[p + k]) ==> NextNonBlank(source, p) == p + k
    ensures NextNonBlank(source, p) < |source| ==> BlankUpTo(source[p..], NextNonBlank(source, p) - p)
  {
    var j, rest := NextNonBlank(source, p), source[p..];
    if j < |source| {
      forall i | 0 <= i < j - p ensures IsBlank(rest[i]) { assert rest[i] == source[p + i]; }
    }
    forall k: nat | BlankUpTo(rest, k) && !IsBlank(source[p + k]) ensures j == p + k { BlankAt(source, p, k); }
  }

  lemma WhereIff(source: string, p: nat, k: nat)
    requires p <= |source|
    ensures WhereStands(source[p..], k) <==> WhereAt(source, p + k)
    ensures WhereAt(source, p + k) ==> source[p + k] == 'w'
  {
    var rest := source[p..];
    if k + 5 <= |rest| {
      assert rest[k..k + 5] == source[p + k..p + k + 5];
      assert k + 5 < |rest| ==> rest[k + 5] == source[p + k + 5];
      assert rest[k..k + 5][0] == source[p + k];
    }
  }

  /** The first byte behind blanks and line breaks, in the source and in the text behind the line break. */
  lemma FirstByte(source: string, p: nat, k: nat)
    requires p <= |source|
    ensures BlankUpTo(source[p..], k) && !IsBlank(source[p + k]) ==> NextNonBlank(source, p) == p + k
    ensures NextNonBlank(source, p) == p + k < |source| ==> BlankUpTo(source[p..], k) && !IsBlank(source[p + k])
    ensures p + k < |source| ==> source[p..][k] == source[p + k]
    ensures WhereStands(source[p..], k) <==> WhereAt(source, p + k)
    ensures WhereAt(source, p + k) ==> p + k < |source| && source[p + k] == 'w'
    ensures ArrowAt(source, p + k) <==> k + 1 < |source[p..]| && source[p..][k] == '-' && source[p..][k + 1] == '>'
  {
    BlankIff(source, p);
    WhereIff(source, p, k);
    if WhereAt(source, p + k) { WhereInside(source, p + k); }
  }

  lemma SeenBy(source: string, nl: nat, k: nat)
    requires nl < |source| && BlankUpTo(source[nl + 1..], k)
    ensures var rest := source[nl + 1..];
            && (WhereStands(rest, k) ==> Continues(source, nl) && ContinuesWithWhere(source, nl))
            && (rest[k] == '{' || (k + 1 < |rest| && rest[k] == '-' && rest[k + 1] == '>') ==> Continues(source, nl))
  {
    FirstByte(source, nl + 1, k);
    hide NextNonBlank, BlankUpTo, WhereStands, WhereAt, ArrowAt;
  }

  lemma SeesOnly(source: string, nl: nat)
    requires nl < |source|
    ensures Continues(source, nl) ==> GoesOn(source[nl + 1..])
    ensures ContinuesWithWhere(source, nl) ==> GoesWhere(source[nl + 1..])
  {
    var j := NextNonBlank(source, nl + 1);
    FirstByte(source, nl + 1, j - (nl + 1));
    hide NextNonBlank, BlankUpTo, WhereStands, WhereAt, ArrowAt, GoesOn, GoesWhere;
    ContinuesThen(source, nl + 1, j, source[nl + 1..]);
  }

  /** The scanner's look at the next line, said of the text behind the line break. */
  lemma GoesOnIff(source: string, nl: nat)
    requires nl < |source|
    ensures Continues(source, nl) <==> GoesOn(source[nl + 1..])
    ensures ContinuesWithWhere(source, nl) <==> GoesWhere(source[nl + 1..])
  {
    hide Continues, ContinuesWithWhere, BlankUpTo, WhereStands;
    var rest := source[nl + 1..];
    SeesOnly(source, nl);
    if GoesOn(rest) { OnAt(source, nl); }
    if k: nat :| BlankUpTo(rest, k) && WhereStands(rest, k) { SeenBy(source, nl, k); }
  }

  lemma OnAt(source: string, nl: nat)
    requires nl < |source| && GoesOn(source[nl + 1..])
    ensures Continues(source, nl)
  {
    hide Continues, WhereStands;
    var rest := source[nl + 1..];
    var k: nat :|
      BlankUpTo(rest, k)
      && (rest[k] == '{' || (k + 1 < |rest| && rest[k] == '-' && rest[k + 1] == '>') || WhereStands(rest, k));
    SeenBy(source, nl, k);
  }

  /** What the scanner sees at the first byte is there to see. */
  lemma ContinuesThen(source: string, p: nat, j: nat, rest: string)
    requires p <= j && p <= |source| && rest == source[p..] && (j < |source| ==> BlankUpTo(rest, j - p))
    requires WhereStands(rest, j - p) <==> WhereAt(source, j)
    requires WhereAt(source, j) ==> j < |source|
    requires ArrowAt(source, j) <==> j - p + 1 < |rest| && rest[j - p] == '-' && rest[j - p + 1] == '>'
    ensures WhereAt(source, j) ==> GoesWhere(rest) && GoesOn(rest)
    ensures j < |source| && (source[j] == '{' || ArrowAt(source, j)) ==> GoesOn(rest)
  {
    hide WhereStands, WhereAt, ArrowAt;
    if j < |source| { assert rest[j - p] == source[j]; }
  }

  lemma WhereInside(source: string, j: nat)
    requires WhereAt(source, j)
    ensures j < |source|
  {
  }

  /** The header is still open at p, outside parentheses. */
  ghost predicate Header(source: string, start: nat, p: nat, inWhere: bool) {
    && start <= p <= |source| && InHeader(source, start, p)
    && ParenDepth(source, start, p) == 0 && InWhere(source, start, p) == inWhere
  }

  /** One byte outside parentheses. */
  lemma ByteStays(source: string, start: nat, p: nat, c: char, rest: string, inWhere: bool)
    requires Header(source, start, p, inWhere) && Stands(source, p, [c], rest)
    requires c != '(' && c != '{' && c != ';' && (c == '\n' ==> inWhere || GoesOn(rest))
    ensures Header(source, start, p + 1, inWhere || (c == '\n' && GoesWhere(rest)))
  {
    hide ParenDepth, InWhere, InHeader, GoesOn, GoesWhere, BodyOpens, HeaderEnds, Continues, ContinuesWithWhere;
    StandsAt(source, p, [c], rest, 0);
    HeaderStep(source, start, p);
    GoesOnIff(source, p);
  }

  /** Inside parentheses everything stays in the header. */
  lemma {:induction false} ParensStay(source: string, start: nat, p: nat, text: string, rest: string, inWhere: bool,
                                      n: nat)
    requires Header(source, start, p, inWhere) && Stands(source, p, "(" + (text + ")"), rest)
    requires NeverBelow(text, '(', ')') && n <= |text|
    ensures start <= p + 1 + n <= |source| && InHeader(source, start, p + 1 + n)
    ensures Level(text[..n], '(', ')') >= 0
    ensures ParenDepth(source, start, p + 1 + n) == 1 + Level(text[..n], '(', ')')
    ensures InWhere(source, start, p + 1 + n) == inWhere
  {
    hide ParenDepth, InWhere, InHeader, BodyOpens, HeaderEnds, Continues, ContinuesWithWhere;
    StandsAt(source, p, "(" + (text + ")"), rest, n);
    if n == 0 {
      HeaderStep(source, start, p);
    } else {
      ParensStay(source, start, p, text, rest, inWhere, n - 1);
      assert text[..n][..n - 1] == text[..n - 1];
      HeaderStep(source, start, p + n);
    }
  }

  lemma ParensWhole(source: string, start: nat, p: nat, text: string, rest: string, inWhere: bool)
    requires Header(source, start, p, inWhere) && Stands(source, p, "(" + (text + ")"), rest)
    requires Balanced(text, '(', ')')
    ensures Header(source, start, p + |text| + 2, inWhere)
  {
    hide ParenDepth, InWhere, InHeader, BodyOpens, HeaderEnds, Continues, ContinuesWithWhere;
    ParensStay(source, start, p, text, rest, inWhere, |text|);
    assert text[..|text|] == text;
    StandsAt(source, p, "(" + (text + ")"), rest, |text| + 1);
    HeaderStep(source, start, p + 1 + |text|);
  }

  lemma PieceStays(source: string, start: nat, p: nat, piece: Piece, rest: string, inWhere: bool)
    requires Header(source, start, p, inWhere) && Stands(source, p, WritePiece(piece), rest)
    requires GoodPiece(piece, rest, inWhere)
    ensures Header(source, start, p + |WritePiece(piece)|, WhereAfter(piece, rest, inWhere))
  {
    hide Header, GoesOn, GoesWhere, Balanced, Stands;
    match piece
    case Byte(c) => ByteStays(source, start, p, c, rest, inWhere);
    case Parens(text) => ParensWhole(source, start, p, text, rest, inWhere);
  }

  lemma {:induction false} HeaderStays(source: string, start: nat, p: nat, ps: seq<Piece>, rest: string, inWhere: bool)
    requires Header(source, start, p, inWhere) && Stands(source, p, Write(ps), rest) && Good(ps, rest, inWhere)
    ensures Header(source, start, p + |Write(ps)|, WhereBehind(ps, rest, inWhere))
    decreases |ps|
  {
    hide Header, GoodPiece, WhereAfter, WritePiece, Stands;
    if ps != [] {
      var a, b := WritePiece(ps[0]), Write(ps[1..]);
      StandsSplit(source, p, a, b, rest);
      PieceStays(source, start, p, ps[0], b + rest, inWhere);
      HeaderStays(source, start, p + |a|, ps[1..], rest, WhereAfter(ps[0], b + rest, inWhere));
    }
  }

  /** The brace count inside a body. */
  lemma {:induction false} BodyBalance(source: string, o: nat, body: string, rest: string, n: nat)
    requires Stands(source, o, "{" + body, rest) && NeverBelow(body, '{', '}') && n <= |body|
    ensures Balance(source, o, o + 1 + n) == 1 + Level(body[..n], '{', '}') && Level(body[..n], '{', '}') >= 0
    ensures Unclosed(source, o, o + 1 + n)
  {
    StandsAt(source, o, "{" + body, rest, n);
    if n > 0 {
      BodyBalance(source, o, body, rest, n - 1);
      assert body[..n][..n - 1] == body[..n - 1];
    }
  }

  /**
   * A declaration ends where it was ended: behind the brace that closes its body, behind its semicolon, at a line end
   * that nothing continues, or with the source.
   */
  lemma DeclarationEndsAsWritten(source: string, start: nat, ps: seq<Piece>, tail: string, r: nat)
    requires Stands(source, start, Write(ps), tail) && Good(ps, tail, false) && IsBlockEnd(source, start, r)
    ensures tail == "" ==> r == start + |Write(ps)|
    ensures tail != "" && tail[0] == ';' ==> r == start + |Write(ps)| + 1
    ensures tail != "" && tail[0] == '\n' && !GoesOn(tail[1..]) && !WhereBehind(ps, tail, false)
            ==> r == start + |Write(ps)|
  {
    hide GoesOn, Good, Write, ParenDepth, InWhere, Continues, ContinuesWithWhere, ClosesAt, BodyOpens, HeaderEnds;
    var e := start + |Write(ps)|;
    HeaderStarts(source, start);
    HeaderStays(source, start, start, ps, tail, false);
    if tail != "" {
      assert source[e] == tail[0] by { assert source[e..][0] == source[e]; }
      HeaderStep(source, start, e);
      GoesOnIff(source, e);
      assert source[e + 1..] == tail[1..];
    }
    hide InHeader;
    if tail == "" || tail[0] == ';' || tail[0] == '\n' { EndsThere(source, start, e, r); }
  }

  /** The first event of the header decides. */
  lemma EndsThere(source: string, start: nat, e: nat, r: nat)
    requires e <= |source| && InHeader(source, start, e) && IsBlockEnd(source, start, r)
    ensures e == |source| ==> r == e
    ensures HeaderEnds(source, start, e) && !BodyOpens(source, start, e) ==> r == if source[e] == ';' then e + 1 else e
  {
    hide ParenDepth, InWhere, Continues, ClosesAt;
  }

  lemma BodyEndsAsWritten(source: string, start: nat, ps: seq<Piece>, body: string, more: string, r: nat)
    requires Stands(source, start, Write(ps), "{" + body + "}" + more) && Good(ps, "{" + body + "}" + more, false)
    requires Balanced(body, '{', '}') && IsBlockEnd(source, start, r)
    ensures r == start + |Write(ps)| + |body| + 2
  {
    hide *;
    var o := start + |Write(ps)|;
    var inWhere := HeaderThen(source, start, ps, "{" + body + "}" + more);
    TailStands(source, start, Write(ps), body, more);
    BodyCloses(source, o, body, more);
    BodyIsBlock(source, start, o, o + |body| + 2, inWhere);
    BlockEndUnique(source, start, r, o + |body| + 2);
  }

  lemma HeaderThen(source: string, start: nat, ps: seq<Piece>, tail: string) returns (inWhere: bool)
    requires Stands(source, start, Write(ps), tail) && Good(ps, tail, false)
    ensures Header(source, start, start + |Write(ps)|, inWhere)
  {
    hide *;
    StartsHeader(source, start, Write(ps), tail);
    HeaderStays(source, start, start, ps, tail, false);
    inWhere := WhereBehind(ps, tail, false);
  }

  lemma StartsHeader(source: string, start: nat, w: string, tail: string)
    requires Stands(source, start, w, tail)
    ensures Header(source, start, start, false)
  {
    HeaderStarts(source, start);
  }

  lemma TailStands(source: string, start: nat, w: string, body: string, more: string)
    requires Stands(source, start, w, "{" + body + "}" + more)
    ensures Stands(source, start + |w|, "{" + body, "}" + more)
  {
    var o, tail := start + |w|, "{" + body + "}" + more;
    assert tail == ("{" + body) + ("}" + more);
    assert source[o..o + |body| + 1] == tail[..|body| + 1];
  }

  lemma BodyCloses(source: string, o: nat, body: string, more: string)
    requires Stands(source, o, "{" + body, "}" + more) && Balanced(body, '{', '}')
    ensures ClosesAt(source, o, o + |body| + 2) && o < |source| && source[o] == '{'
  {
    BodyBalance(source, o, body, "}" + more, |body|);
    assert body[..|body|] == body;
    var e := o + 1 + |body|;
    assert source[e] == '}' by { assert source[e..][0] == source[e]; }
    StandsAt(source, o, "{" + body, "}" + more, 0);
  }

  lemma BodyIsBlock(source: string, start: nat, o: nat, r: nat, inWhere: bool)
    requires Header(source, start, o, inWhere) && o < |source| && source[o] == '{' && ClosesAt(source, o, r)
    ensures IsBlockEnd(source, start, r)
  {
    hide ParenDepth, InWhere, InHeader, HeaderEnds, ClosesAt;
    assert BodyOpens(source, start, o);
  }
}
