/** JavaScript as written: every statement put together from literals, comments and brackets ends where it was ended. */
module JsReadBack {
  import opened JsStatement
  import opened Written
  import opened Text

  /** A character of a literal, with or without a backslash before it. */
  datatype Letter = Letter(c: char, escaped: bool)

  datatype TemplatePart = Letters(letters: seq<Letter>) | Embedded(code: string)

  datatype Piece =
    | Byte(c: char)
    | Quoted(quote: char, letters: seq<Letter>)
    | Templated(parts: seq<TemplatePart>)
    | ToLineEnd(text: string)
    | Remark(text: string)
    | Group(open: char, body: seq<Piece>, close: char)

  function WriteLetters(ls: seq<Letter>): string {
    if ls == [] then ""
    else (if ls[0].escaped then ['\\', ls[0].c] else [ls[0].c]) + WriteLetters(ls[1..])
  }

  function WriteParts(ps: seq<TemplatePart>): string {
    if ps == [] then ""
    else
      (match ps[0] case Letters(ls) => WriteLetters(ls) case Embedded(code) => "${" + code + "}") + WriteParts(ps[1..])
  }

  function WritePiece(p: Piece): string
    decreases p, 0
  {
    match p
    case Byte(c) => [c]
    case Quoted(q, ls) => [q] + (WriteLetters(ls) + [q])
    case Templated(parts) => "`" + (WriteParts(parts) + "`")
    case ToLineEnd(text) => "//" + text
    case Remark(text) => "/*" + (text + "*/")
    case Group(open, body, close) => [open] + (Write(body) + [close])
  }

  function Write(ps: seq<Piece>): string
    decreases ps, 1
  {
    if ps == [] then "" else WritePiece(ps[0]) + Write(ps[1..])
  }

  /** Behind blanks and line breaks stands a byte that continues a statement. */
  ghost predicate GoesOn(rest: string) {
    exists k ::
      && 0 <= k < |rest| && (rest[k] == '.' || rest[k] == '?' || rest[k] == ':')
      && forall i | 0 <= i < k :: rest[i] == ' ' || rest[i] == '\t' || rest[i] == '\r' || rest[i] == '\n'
  }

  function Braces(code: string): int {
    if code == "" then 0
    else Braces(code[..|code| - 1]) + (match code[|code| - 1] case '{' => 1 case '}' => -1 case _ => 0)
  }

  /** The braces in the text are balanced. */
  predicate Balanced(code: string) {
    Braces(code) == 0 && forall k | 0 <= k <= |code| :: Braces(code[..k]) >= 0
  }

  ghost predicate GoodLetters(ls: seq<Letter>, quote: char) {
    forall i | 0 <= i < |ls| && !ls[i].escaped :: ls[i].c != quote && ls[i].c != '\\' && ls[i].c != '\n'
  }

  /** Outside escapes no backslash, no backquote, and no dollar sign before a brace. */
  ghost predicate GoodTemplateLetters(ls: seq<Letter>, rest: string) {
    ls == []
    || ((ls[0].escaped
         || (ls[0].c != '`' && ls[0].c != '\\'
             && (ls[0].c == '$' ==> var t := WriteLetters(ls[1..]) + rest; t == "" || t[0] != '{')))
        && GoodTemplateLetters(ls[1..], rest))
  }

  ghost predicate GoodParts(ps: seq<TemplatePart>, rest: string) {
    ps == []
    || ((match ps[0]
         case Letters(ls) => GoodTemplateLetters(ls, WriteParts(ps[1..]) + rest)
         case Embedded(code) => Balanced(code))
        && GoodParts(ps[1..], rest))
  }

  /** The piece can be written so, before this text; at the top it must not end the statement itself. */
  ghost predicate GoodPiece(p: Piece, rest: string, top: bool)
    decreases p, 0
  {
    match p
    case Byte(c) =>
      && c !in ['{', '[', '(', '}', ']', ')', '"', '\'', '`']
      && (c == '/' && rest != "" ==> rest[0] != '/' && rest[0] != '*')
      && (top ==> c != ';' && (c == '\n' ==> GoesOn(rest)))
    case Quoted(q, ls) => (q == '"' || q == '\'') && GoodLetters(ls, q)
    case Templated(parts) => GoodParts(parts, "`" + rest)
    case ToLineEnd(text) => '\n' !in text && rest != "" && rest[0] == '\n'
    case Remark(text) => forall k | 0 <= k < |text| && text[k] == '*' :: (text + "*")[k + 1] != '/'
    case Group(open, body, close) =>
      open in ['{', '[', '('] && close in ['}', ']', ')'] && Good(body, [close] + rest, false)
  }

  ghost predicate Good(ps: seq<Piece>, rest: string, top: bool)
    decreases ps, 1
  {
    ps == [] || (GoodPiece(ps[0], Write(ps[1..]) + rest, top) && Good(ps[1..], rest, top))
  }

  // ---- Where in a source ----

  lemma Step(source: string, start: nat, i: nat)
    requires start <= i < |source|
    ensures ModeAt(source, start, i + 1) == Advance(source, i, ModeAt(source, start, i))
  {
  }

  /** From p to q nothing ends the statement, and at q the automaton is in this mode. */
  ghost predicate Reaches(source: string, start: nat, p: nat, q: nat, m: Mode) {
    && start <= p <= q <= |source| && ModeAt(source, start, q) == m
    && forall i | p <= i < q :: !StopsAt(source, start, i)
  }

  lemma ReachesThen(source: string, start: nat, p: nat, q: nat, r: nat, m: Mode, m': Mode)
    requires Reaches(source, start, p, q, m) && Reaches(source, start, q, r, m')
    ensures Reaches(source, start, p, r, m')
  {
  }

  /** One byte that ends nothing. */
  lemma ReachesByte(source: string, start: nat, p: nat, m: Mode)
    requires start <= p < |source| && ModeAt(source, start, p) == m && (m != Code(0) || !StopsAt(source, start, p))
    ensures Reaches(source, start, p, p + 1, Advance(source, p, m))
  {
    Step(source, start, p);
  }

  lemma LetterReach(source: string, start: nat, p: nat, l: Letter, q: char, d: int, rest: string)
    requires start <= p && Stands(source, p, if l.escaped then ['\\', l.c] else [l.c], rest)
    requires !l.escaped ==> l.c != q && l.c != '\\' && l.c != '\n'
    requires ModeAt(source, start, p) == Str(q, d)
    ensures Reaches(source, start, p, p + if l.escaped then 2 else 1, Str(q, d))
  {
    hide ModeAt;
    var a := if l.escaped then ['\\', l.c] else [l.c];
    StandsAt(source, p, a, rest, 0);
    ReachesByte(source, start, p, Str(q, d));
    if l.escaped {
      StandsAt(source, p, a, rest, 1);
      ReachesByte(source, start, p + 1, StrEscape(q, d));
    }
  }

  lemma ReachesMode(source: string, start: nat, p: nat, q: nat, m: Mode)
    requires Reaches(source, start, p, q, m)
    ensures start <= p <= q <= |source| && ModeAt(source, start, q) == m
  {
  }

  lemma {:induction false} LettersReach(source: string, start: nat, p: nat, ls: seq<Letter>, q: char, d: int,
                                        rest: string)
    requires start <= p && Stands(source, p, WriteLetters(ls), rest) && GoodLetters(ls, q)
    requires ModeAt(source, start, p) == Str(q, d)
    ensures Reaches(source, start, p, p + |WriteLetters(ls)|, Str(q, d))
    decreases |ls|
  {
    hide ModeAt, StopsAt, Stands;
    if ls != [] {
      var a, b := if ls[0].escaped then ['\\', ls[0].c] else [ls[0].c], WriteLetters(ls[1..]);
      StandsSplit(source, p, a, b, rest);
      LetterReach(source, start, p, ls[0], q, d, b + rest);
      hide Reaches;
      ReachesMode(source, start, p, p + |a|, Str(q, d));
      LettersReach(source, start, p + |a|, ls[1..], q, d, rest);
      ReachesThen(source, start, p, p + |a|, p + |WriteLetters(ls)|, Str(q, d), Str(q, d));
    } else {
      StandsInside(source, p, WriteLetters(ls), rest);
    }
  }

  /** One byte, a stretch, one byte. */
  lemma ReachesBetween(source: string, start: nat, p: nat, q: nat, m: Mode, m': Mode)
    requires Reaches(source, start, p, p + 1, m) && Reaches(source, start, p + 1, q, m)
    requires Reaches(source, start, q, q + 1, m')
    ensures Reaches(source, start, p, q + 1, m')
  {
  }

  lemma TemplateLetterReach(source: string, start: nat, p: nat, l: Letter, d: int, rest: string)
    requires start <= p && Stands(source, p, if l.escaped then ['\\', l.c] else [l.c], rest)
    requires l.escaped || (l.c != '`' && l.c != '\\' && (l.c == '$' ==> rest == "" || rest[0] != '{'))
    requires ModeAt(source, start, p) == Template(d)
    ensures Reaches(source, start, p, p + if l.escaped then 2 else 1, Template(d))
  {
    hide ModeAt;
    var a := if l.escaped then ['\\', l.c] else [l.c];
    StandsAt(source, p, a, rest, 0);
    ReachesByte(source, start, p, Template(d));
    if l.escaped {
      StandsAt(source, p, a, rest, 1);
      ReachesByte(source, start, p + 1, TemplateEscape(d));
    } else {
      NextByte(source, p, a, rest, '{');
    }
  }

  lemma {:induction false} TemplateLettersReach(source: string, start: nat, p: nat, ls: seq<Letter>, d: int,
                                                rest: string)
    requires start <= p && Stands(source, p, WriteLetters(ls), rest) && GoodTemplateLetters(ls, rest)
    requires ModeAt(source, start, p) == Template(d)
    ensures Reaches(source, start, p, p + |WriteLetters(ls)|, Template(d))
    decreases |ls|
  {
    hide ModeAt, StopsAt, Stands;
    if ls != [] {
      var a, b := if ls[0].escaped then ['\\', ls[0].c] else [ls[0].c], WriteLetters(ls[1..]);
      StandsSplit(source, p, a, b, rest);
      TemplateLetterReach(source, start, p, ls[0], d, b + rest);
      hide Reaches;
      ReachesMode(source, start, p, p + |a|, Template(d));
      TemplateLettersReach(source, start, p + |a|, ls[1..], d, rest);
      ReachesThen(source, start, p, p + |a|, p + |WriteLetters(ls)|, Template(d), Template(d));
    } else {
      StandsInside(source, p, WriteLetters(ls), rest);
    }
  }

  /** Inside an embedded part the automaton counts the braces. */
  lemma {:induction false} EmbeddedReach(source: string, start: nat, p: nat, code: string, d: int, rest: string, n: nat)
    requires start <= p && Stands(source, p, code, rest) && Balanced(code) && n <= |code|
    requires ModeAt(source, start, p) == Embed(1, d)
    ensures Braces(code[..n]) >= 0 && Reaches(source, start, p, p + n, Embed(1 + Braces(code[..n]), d))
  {
    hide ModeAt;
    if n > 0 {
      EmbeddedReach(source, start, p, code, d, rest, n - 1);
      assert code[..n][..n - 1] == code[..n - 1];
      StandsAt(source, p, code, rest, n - 1);
      ReachesByte(source, start, p + n - 1, Embed(1 + Braces(code[..n - 1]), d));
    }
  }

  lemma {:induction false} PartsReach(source: string, start: nat, p: nat, ps: seq<TemplatePart>, d: int, rest: string)
    requires start <= p && Stands(source, p, WriteParts(ps), rest) && GoodParts(ps, rest)
    requires ModeAt(source, start, p) == Template(d)
    ensures Reaches(source, start, p, p + |WriteParts(ps)|, Template(d))
    decreases |ps|
  {
    hide ModeAt, GoodTemplateLetters, WriteLetters, Balanced, StopsAt;
    if ps != [] {
      var b := WriteParts(ps[1..]);
      match ps[0] {
        case Letters(ls) =>
          StandsSplit(source, p, WriteLetters(ls), b, rest);
          TemplateLettersReach(source, start, p, ls, d, b + rest);
          PartsReach(source, start, p + |WriteLetters(ls)|, ps[1..], d, rest);
        case Embedded(code) =>
          StandsSplit(source, p, "${" + code + "}", b, rest);
          EmbeddedWhole(source, start, p, code, d, b + rest);
          PartsReach(source, start, p + |code| + 3, ps[1..], d, rest);
      }
    }
  }

  lemma EmbeddedWhole(source: string, start: nat, p: nat, code: string, d: int, rest: string)
    requires start <= p && Stands(source, p, "${" + code + "}", rest) && Balanced(code)
    requires ModeAt(source, start, p) == Template(d)
    ensures Reaches(source, start, p, p + |code| + 3, Template(d))
  {
    hide ModeAt, Balanced, StopsAt;
    var w := "${" + code + "}";
    StandsAt(source, p, w, rest, 0);
    StandsAt(source, p, w, rest, 1);
    StandsAt(source, p, w, rest, |code| + 2);
    EmbeddedOpens(source, start, p, d);
    StandsSplit(source, p, "${" + code, "}", rest);
    StandsSplit(source, p, "${", code, "}" + rest);
    EmbeddedReach(source, start, p + 2, code, d, "}" + rest, |code|);
    assert code[..|code|] == code && Braces(code) == 0 by { EmbeddedEven(code); }
    EmbeddedCloses(source, start, p + 2 + |code|, d);
  }

  lemma EmbeddedEven(code: string)
    requires Balanced(code)
    ensures Braces(code) == 0
  {
  }

  lemma EmbeddedOpens(source: string, start: nat, p: nat, d: int)
    requires start <= p && p + 1 < |source| && source[p] == '$' && source[p + 1] == '{'
    requires ModeAt(source, start, p) == Template(d)
    ensures Reaches(source, start, p, p + 2, Embed(1, d))
  {
    hide ModeAt;
    ReachesByte(source, start, p, Template(d));
    ReachesByte(source, start, p + 1, EmbedOpen(d));
  }

  lemma EmbeddedCloses(source: string, start: nat, p: nat, d: int)
    requires start <= p < |source| && source[p] == '}' && ModeAt(source, start, p) == Embed(1, d)
    ensures Reaches(source, start, p, p + 1, Template(d))
  {
    hide ModeAt;
    ReachesByte(source, start, p, Embed(1, d));
  }

  lemma {:induction false} LineReach(source: string, start: nat, p: nat, text: string, d: int, rest: string, n: nat)
    requires start <= p && Stands(source, p, "//" + text, rest) && '\n' !in text && rest != "" && rest[0] == '\n'
    requires ModeAt(source, start, p) == Code(d) && 1 <= n <= |text| + 2
    ensures Reaches(source, start, p, p + n, if n == |text| + 2 then Code(d) else LineComment(d))
  {
    hide ModeAt;
    var w := "//" + text;
    StandsAt(source, p, w, rest, n - 1);
    StandsAt(source, p, w, rest, 1);
    if n == 1 {
      ReachesByte(source, start, p, Code(d));
    } else {
      LineReach(source, start, p, text, d, rest, n - 1);
      if n < |w| { StandsAt(source, p, w, rest, n); assert w[n] in text; }
      ReachesByte(source, start, p + n - 1, LineComment(d));
    }
  }

  lemma {:induction false} RemarkReach(source: string, start: nat, p: nat, text: string, d: int, rest: string, n: nat)
    requires start <= p && Stands(source, p, "/*" + (text + "*/"), rest) && n <= |text|
    requires forall k | 0 <= k < |text| && text[k] == '*' :: (text + "*")[k + 1] != '/'
    requires ModeAt(source, start, p) == Code(d)
    ensures Reaches(source, start, p, p + 2 + n, Block(d))
  {
    hide ModeAt;
    var w := "/*" + (text + "*/");
    StandsAt(source, p, w, rest, 1 + n);
    StandsAt(source, p, w, rest, 2 + n);
    if n == 0 {
      StandsAt(source, p, w, rest, 0);
      ReachesByte(source, start, p, Code(d));
      ReachesByte(source, start, p + 1, BlockOpen(d));
    } else {
      RemarkReach(source, start, p, text, d, rest, n - 1);
      assert w[1 + n] == text[n - 1] && w[2 + n] == (text + "*")[n];
      ReachesByte(source, start, p + 1 + n, Block(d));
    }
  }

  lemma RemarkWhole(source: string, start: nat, p: nat, text: string, d: int, rest: string)
    requires start <= p && Stands(source, p, "/*" + (text + "*/"), rest)
    requires forall k | 0 <= k < |text| && text[k] == '*' :: (text + "*")[k + 1] != '/'
    requires ModeAt(source, start, p) == Code(d)
    ensures Reaches(source, start, p, p + |text| + 4, Code(d))
  {
    hide ModeAt;
    var w := "/*" + (text + "*/");
    RemarkReach(source, start, p, text, d, rest, |text|);
    StandsAt(source, p, w, rest, |text| + 2);
    StandsAt(source, p, w, rest, |text| + 3);
    ReachesByte(source, start, p + |text| + 2, Block(d));
    ReachesByte(source, start, p + |text| + 3, BlockClose(d));
  }

  lemma QuotedReach(source: string, start: nat, p: nat, q: char, ls: seq<Letter>, d: int, rest: string)
    requires start <= p && Stands(source, p, [q] + (WriteLetters(ls) + [q]), rest)
    requires (q == '"' || q == '\'') && GoodLetters(ls, q) && ModeAt(source, start, p) == Code(d)
    ensures Reaches(source, start, p, p + |WriteLetters(ls)| + 2, Code(d))
  {
    hide *;
    var b := WriteLetters(ls);
    StandsBetween(source, p, q, b, q, rest);
    QuoteOpens(source, start, p, q, d);
    ReachesMode(source, start, p, p + 1, Str(q, d));
    LettersReach(source, start, p + 1, ls, q, d, [q] + rest);
    ReachesMode(source, start, p + 1, p + 1 + |b|, Str(q, d));
    QuoteCloses(source, start, p + 1 + |b|, q, d);
    ReachesBetween(source, start, p, p + 1 + |b|, Str(q, d), Code(d));
  }

  lemma QuoteOpens(source: string, start: nat, p: nat, q: char, d: int)
    requires start <= p < |source| && source[p] == q && (q == '"' || q == '\'') && ModeAt(source, start, p) == Code(d)
    ensures Reaches(source, start, p, p + 1, Str(q, d))
  {
    hide ModeAt;
    ReachesByte(source, start, p, Code(d));
  }

  lemma QuoteCloses(source: string, start: nat, p: nat, q: char, d: int)
    requires start <= p < |source| && source[p] == q && (q == '"' || q == '\'') && ModeAt(source, start, p) == Str(q, d)
    ensures Reaches(source, start, p, p + 1, Code(d))
  {
    hide ModeAt;
    ReachesByte(source, start, p, Str(q, d));
  }

  lemma TemplatedReach(source: string, start: nat, p: nat, parts: seq<TemplatePart>, d: int, rest: string)
    requires start <= p && Stands(source, p, "`" + (WriteParts(parts) + "`"), rest)
    requires GoodParts(parts, "`" + rest) && ModeAt(source, start, p) == Code(d)
    ensures Reaches(source, start, p, p + |WriteParts(parts)| + 2, Code(d))
  {
    hide *;
    var b := WriteParts(parts);
    StandsBetween(source, p, '`', b, '`', rest);
    TemplateOpens(source, start, p, d);
    ReachesMode(source, start, p, p + 1, Template(d));
    PartsReach(source, start, p + 1, parts, d, "`" + rest);
    ReachesMode(source, start, p + 1, p + 1 + |b|, Template(d));
    TemplateCloses(source, start, p + 1 + |b|, d);
    ReachesBetween(source, start, p, p + 1 + |b|, Template(d), Code(d));
  }

  lemma TemplateOpens(source: string, start: nat, p: nat, d: int)
    requires start <= p < |source| && source[p] == '`' && ModeAt(source, start, p) == Code(d)
    ensures Reaches(source, start, p, p + 1, Template(d))
  {
    hide ModeAt;
    ReachesByte(source, start, p, Code(d));
  }

  lemma TemplateCloses(source: string, start: nat, p: nat, d: int)
    requires start <= p < |source| && source[p] == '`' && ModeAt(source, start, p) == Template(d)
    ensures Reaches(source, start, p, p + 1, Code(d))
  {
    hide ModeAt;
    ReachesByte(source, start, p, Template(d));
  }

  /** Whether a statement continues behind a newline depends on the first byte that is no blank. */
  lemma GoesOnIff(source: string, nl: nat)
    requires nl < |source|
    ensures Continues(source, nl) <==> GoesOn(source[nl + 1..])
  {
    var j := NextNonBlank(source, nl + 1);
    var rest := source[nl + 1..];
    if Continues(source, nl) { assert rest[j - nl - 1] == source[j]; }
    if GoesOn(rest) {
      var k :| && 0 <= k < |rest| && rest[k] in ['.', '?', ':']
               && forall i | 0 <= i < k :: rest[i] in [' ', '\t', '\r', '\n'];
      assert source[nl + 1 + k] == rest[k];
      if j < nl + 1 + k { assert rest[j - nl - 1] == source[j]; }
    }
  }

  lemma ByteReach(source: string, start: nat, p: nat, c: char, d: int, rest: string, top: bool)
    requires start <= p && Stands(source, p, [c], rest) && GoodPiece(Byte(c), rest, top)
    requires d >= 0 && (top || d >= 1) && ModeAt(source, start, p) == Code(d)
    ensures Reaches(source, start, p, p + 1, Code(d))
  {
    hide ModeAt, GoesOn, Continues;
    StandsAt(source, p, [c], rest, 0);
    NextByte(source, p, [c], rest, '/');
    NextByte(source, p, [c], rest, '*');
    GoesOnIff(source, p);
    ReachesByte(source, start, p, Code(d));
  }

  /** Well-written pieces lead from code back to code at the same depth, and end no statement on the way. */
  lemma {:induction false} WriteReach(source: string, start: nat, p: nat, ps: seq<Piece>, d: int, rest: string,
                                      top: bool)
    requires start <= p && Stands(source, p, Write(ps), rest) && Good(ps, rest, top)
    requires d >= 0 && (top || d >= 1) && ModeAt(source, start, p) == Code(d)
    ensures Reaches(source, start, p, p + |Write(ps)|, Code(d))
    decreases ps, 1
  {
    hide ModeAt, GoodPiece, WritePiece, StopsAt;
    if ps != [] {
      var a, b := WritePiece(ps[0]), Write(ps[1..]);
      StandsSplit(source, p, a, b, rest);
      PieceReach(source, start, p, ps[0], d, b + rest, top);
      WriteReach(source, start, p + |a|, ps[1..], d, rest, top);
    }
  }

  lemma {:induction false} PieceReach(source: string, start: nat, p: nat, piece: Piece, d: int, rest: string, top: bool)
    requires start <= p && Stands(source, p, WritePiece(piece), rest) && GoodPiece(piece, rest, top)
    requires d >= 0 && (top || d >= 1) && ModeAt(source, start, p) == Code(d)
    ensures Reaches(source, start, p, p + |WritePiece(piece)|, Code(d))
    decreases piece, 0
  {
    hide ModeAt, Reaches, Stands, GoodLetters, GoodParts;
    match piece
    case Byte(c) => ByteReach(source, start, p, c, d, rest, top);
    case Quoted(q, ls) => QuotedReach(source, start, p, q, ls, d, rest);
    case Templated(parts) => TemplatedReach(source, start, p, parts, d, rest);
    case ToLineEnd(text) => LineReach(source, start, p, text, d, rest, |text| + 2);
    case Remark(text) => RemarkWhole(source, start, p, text, d, rest);
    case Group(open, body, close) => GroupReach(source, start, p, open, body, close, d, rest);
  }

  lemma {:induction false} GroupReach(source: string, start: nat, p: nat, open: char, body: seq<Piece>, close: char,
                                      d: int, rest: string)
    requires start <= p && Stands(source, p, [open] + (Write(body) + [close]), rest)
    requires Good(body, [close] + rest, false)
    requires open in ['{', '[', '('] && close in ['}', ']', ')']
    requires d >= 0 && ModeAt(source, start, p) == Code(d)
    ensures Reaches(source, start, p, p + |Write(body)| + 2, Code(d))
    decreases body, 2
  {
    hide *;
    var b := Write(body);
    StandsBetween(source, p, open, b, close, rest);
    GroupOpens(source, start, p, d);
    ReachesMode(source, start, p, p + 1, Code(d + 1));
    WriteReach(source, start, p + 1, body, d + 1, [close] + rest, false);
    ReachesMode(source, start, p + 1, p + 1 + |b|, Code(d + 1));
    GroupCloses(source, start, p + 1 + |b|, d);
    ReachesBetween(source, start, p, p + 1 + |b|, Code(d + 1), Code(d));
  }

  lemma GroupOpens(source: string, start: nat, p: nat, d: int)
    requires start <= p < |source| && source[p] in ['{', '[', '('] && ModeAt(source, start, p) == Code(d)
    ensures Reaches(source, start, p, p + 1, Code(d + 1))
  {
    hide ModeAt;
    ReachesByte(source, start, p, Code(d));
  }

  lemma GroupCloses(source: string, start: nat, p: nat, d: int)
    requires start <= p < |source| && source[p] in ['}', ']', ')'] && d >= 0 && ModeAt(source, start, p) == Code(d + 1)
    ensures Reaches(source, start, p, p + 1, Code(d))
  {
    hide ModeAt;
    ReachesByte(source, start, p, Code(d + 1));
  }

  lemma StatementEndsAsWritten(source: string, start: nat, ps: seq<Piece>, rest: string, r: nat)
    requires Stands(source, start, Write(ps), rest) && Good(ps, rest, true) && IsStatementEnd(source, start, r)
    ensures rest == "" || (rest[0] == '\n' && !GoesOn(rest[1..])) || (rest != "" && rest[0] in ['}', ']', ')'])
            ==> r == start + |Write(ps)|
    ensures rest != "" && rest[0] == ';' ==> r == start + |Write(ps)| + 1
  {
    hide *;
    var e := start + |Write(ps)|;
    StartsInCode(source, start, Write(ps), rest);
    WriteReach(source, start, start, ps, 0, rest, true);
    StopsFirst(source, start, e, r);
    ReachesMode(source, start, start, e, Code(0));
    Remains(source, start, Write(ps), rest);
    if rest != "" { StopsBefore(source, start, e, rest); }
  }

  lemma Remains(source: string, p: nat, text: string, rest: string)
    requires Stands(source, p, text, rest)
    ensures p + |text| <= |source| && source[p + |text|..] == rest
  {
  }

  /** Which bytes end a statement outside brackets. */
  lemma StopsBefore(source: string, start: nat, e: nat, rest: string)
    requires start <= e < |source| && source[e..] == rest && ModeAt(source, start, e) == Code(0)
    ensures source[e] == rest[0]
    ensures StopsAt(source, start, e)
            <==> rest[0] in ['}', ']', ')', ';'] || (rest[0] == '\n' && !GoesOn(rest[1..]))
  {
    hide ModeAt, GoesOn, Continues;
    assert source[e..][0] == source[e];
    GoesOnIff(source, e);
    assert source[e + 1..] == rest[1..];
  }

  lemma StopsFirst(source: string, start: nat, e: nat, r: nat)
    requires Reaches(source, start, start, e, Code(0)) && IsStatementEnd(source, start, r)
    ensures e == |source| ==> r == e
    ensures StopsAt(source, start, e) ==> r == if source[e] == ';' then e + 1 else e
  {
  }

  /** Any text as the content of a literal: a backslash before each quote, backslash and line break. */
  function Protected(content: string, quote: char): (ls: seq<Letter>)
    ensures |ls| == |content| && forall i | 0 <= i < |ls| :: ls[i].c == content[i]
    ensures GoodLetters(ls, quote)
  {
    seq(|content|, i requires 0 <= i < |content| =>
      Letter(content[i], content[i] == quote || content[i] == '\\' || content[i] == '\n'))
  }

  /** An assignment of any such literal is one statement, whatever the content. */
  lemma LiteralStatement(content: string, quote: char, r: nat)
    requires quote == '"' || quote == '\''
    requires var literal := [quote] + (WriteLetters(Protected(content, quote)) + [quote]);
             IsStatementEnd("x=" + literal + ";", 0, r)
    ensures var literal := [quote] + (WriteLetters(Protected(content, quote)) + [quote]);
            r == |"x=" + literal + ";"|
  {
    var literal := [quote] + (WriteLetters(Protected(content, quote)) + [quote]);
    var source := "x=" + literal + ";";
    var quoted := Quoted(quote, Protected(content, quote));
    var ps := [Byte('x'), Byte('='), quoted];
    hide WriteLetters, IsStatementEnd, Protected, GoodLetters;
    assert ps[1..] == [Byte('='), quoted] && ps[1..][1..] == [quoted] && ps[1..][1..][1..] == [];
    assert Write([quoted]) == literal && Write(ps[1..]) == "=" + literal && Write(ps) == "x" + ("=" + literal);
    assert Write(ps) == "x=" + literal;
    assert Stands(source, 0, Write(ps), ";");
    assert Good([quoted], ";", true) && Good(ps[1..], ";", true) && Good(ps, ";", true);
    StatementEndsAsWritten(source, 0, ps, ";", r);
  }

  ghost predicate NeverCloses(text: string) {
    forall k | 0 <= k < |text| - 1 && text[k] == '*' :: text[k + 1] != '/'
  }

  /** Inside a block comment that is never closed, as long as two more bytes are left. */
  lemma {:induction false} OpenRemarkReach(source: string, start: nat, p: nat, text: string, n: nat)
    requires start <= p && Stands(source, p, "/*" + text, "") && 0 < n <= |text|
    requires NeverCloses(text) && ModeAt(source, start, p) == Code(0)
    ensures Reaches(source, start, p, p + 1 + n, if n < |text| then Block(0) else Code(0))
  {
    hide ModeAt;
    var w := "/*" + text;
    StandsAt(source, p, w, "", n);
    StandsAt(source, p, w, "", n + 1);
    if n == 1 {
      StandsAt(source, p, w, "", 0);
      ReachesByte(source, start, p, Code(0));
      ReachesByte(source, start, p + 1, BlockOpen(0));
    } else {
      OpenRemarkReach(source, start, p, text, n - 1);
      assert w[n] == text[n - 2] && w[n + 1] == text[n - 1];
      ReachesByte(source, start, p + n, Block(0));
    }
  }

  /** A block comment that is never closed stops short of the last byte: a bracket or semicolon there still counts. */
  lemma OpenRemarkStopsShort(source: string, start: nat, ps: seq<Piece>, text: string, r: nat)
    requires Stands(source, start, Write(ps), "/*" + text) && Good(ps, "/*" + text, true)
    requires text != "" && NeverCloses(text) && IsStatementEnd(source, start, r)
    ensures text[|text| - 1] in ['}', ']', ')'] ==> r == |source| - 1
    ensures text[|text| - 1] !in ['}', ']', ')', '\n'] ==> r == |source|
  {
    hide *;
    var tail := "/*" + text;
    StartsInCode(source, start, Write(ps), tail);
    TailStands(source, start, Write(ps), text);
    WriteReach(source, start, start, ps, 0, tail, true);
    BackInCode(source, start, start + |Write(ps)|, text);
    EndsAtLast(source, start, |source| - 1, r);
  }

  lemma StartsInCode(source: string, start: nat, w: string, rest: string)
    requires Stands(source, start, w, rest)
    ensures start <= |source| && ModeAt(source, start, start) == Code(0)
  {
  }

  lemma BackInCode(source: string, start: nat, p: nat, text: string)
    requires Stands(source, p, "/*" + text, "") && text != "" && NeverCloses(text)
    requires Reaches(source, start, start, p, Code(0)) && p + |text| + 2 == |source|
    ensures Reaches(source, start, start, |source| - 1, Code(0))
  {
    hide ModeAt, NeverCloses, Stands;
    OpenRemarkReach(source, start, p, text, |text|);
  }

  lemma EndsAtLast(source: string, start: nat, e: nat, r: nat)
    requires Reaches(source, start, start, e, Code(0)) && e + 1 == |source| && IsStatementEnd(source, start, r)
    ensures source[e] in ['}', ']', ')'] ==> r == e
    ensures source[e] !in ['}', ']', ')', '\n'] ==> r == |source|
  {
    hide ModeAt, Continues, IsStatementEnd;
    LastStops(source, start, e);
    StopsFirst(source, start, e, r);
    LastByte(source, start, e, r);
  }

  lemma TailStands(source: string, start: nat, w: string, text: string)
    requires Stands(source, start, w, "/*" + text) && text != ""
    ensures var p := start + |w|; Stands(source, p, "/*" + text, "") && p + |text| + 2 == |source|
    ensures source[|source| - 1] == text[|text| - 1]
  {
    var p := start + |w|;
    assert source[p..p + |text| + 2] == source[p..];
    StandsAt(source, p, "/*" + text, "", |text| + 1);
  }

  lemma LastStops(source: string, start: nat, e: nat)
    requires start <= e && e + 1 == |source| && ModeAt(source, start, e) == Code(0)
    ensures source[e] in ['}', ']', ')', ';'] ==> StopsAt(source, start, e)
    ensures source[e] !in ['}', ']', ')', ';', '\n'] ==> !StopsAt(source, start, e)
  {
  }

  lemma LastByte(source: string, start: nat, e: nat, r: nat)
    requires Reaches(source, start, start, e, Code(0)) && IsStatementEnd(source, start, r) && e + 1 == |source|
    ensures !StopsAt(source, start, e) ==> r == |source|
  {
    hide ModeAt, Continues;
  }
}
