/** SQL as written: the comment spans are exactly where comments were written. */
module SqlReadBack {
  import opened SqlComments
  import opened Written

  /** A byte of a string literal, with or without a backslash before it. */
  datatype Letter = Letter(c: char, escaped: bool)

  datatype Piece = Byte(c: char) | Quoted(letters: seq<Letter>) | ToLineEnd(text: string) | Remark(text: string)

  function WriteLetters(ls: seq<Letter>): string {
    if ls == [] then ""
    else (if ls[0].escaped then ['\\', ls[0].c] else [ls[0].c]) + WriteLetters(ls[1..])
  }

  function WritePiece(p: Piece): string {
    match p
    case Byte(c) => [c]
    case Quoted(ls) => "'" + (WriteLetters(ls) + "'")
    case ToLineEnd(text) => "--" + text
    case Remark(text) => "/*" + (text + "*/")
  }

  function Write(ps: seq<Piece>): string {
    if ps == [] then "" else WritePiece(ps[0]) + Write(ps[1..])
  }

  /** Which bytes were written as comments, delimiters included. */
  function Marks(ps: seq<Piece>): (marks: seq<bool>)
    ensures |marks| == |Write(ps)|
  {
    if ps == [] then []
    else seq(|WritePiece(ps[0])|, _ => ps[0].ToLineEnd? || ps[0].Remark?) + Marks(ps[1..])
  }

  /** The piece can be written so, before this text. */
  ghost predicate GoodPiece(p: Piece, rest: string) {
    match p
    case Byte(c) =>
      c != '\'' && (rest != "" ==> !(c == '-' && rest[0] == '-') && !(c == '/' && rest[0] == '*'))
    case Quoted(ls) => forall i | 0 <= i < |ls| && !ls[i].escaped :: ls[i].c != '\'' && ls[i].c != '\\'
    case ToLineEnd(text) => '\n' !in text && (rest != "" ==> rest[0] == '\n')
    case Remark(text) => forall k | 0 <= k < |text| && text[k] == '*' :: (text + "*")[k + 1] != '/'
  }

  ghost predicate Good(ps: seq<Piece>) {
    ps == [] || (GoodPiece(ps[0], Write(ps[1..])) && Good(ps[1..]))
  }

  /** From p to q all bytes are comment or none is, and at q the automaton is in this mode. */
  ghost predicate Reaches(src: string, p: nat, q: nat, m: Mode, comment: bool) {
    && p <= q <= |src| && ModeAt(src, q) == m
    && forall i | p <= i < q :: IsComment(src, i) == comment
  }

  lemma ReachesByte(src: string, p: nat, m: Mode)
    requires p < |src| && ModeAt(src, p) == m
    ensures Reaches(src, p, p + 1, Advance(src, p, m), IsComment(src, p))
    ensures IsComment(src, p)
            <==>
            || m in {LineComment, BlockOpen, Block, BlockClose}
            || (m == Code && ((src[p] == '-' && p + 1 < |src| && src[p + 1] == '-')
                              || (src[p] == '/' && p + 1 < |src| && src[p + 1] == '*')))
  {
  }

  /** One letter of a string. */
  lemma LetterReach(src: string, p: nat, l: Letter, rest: string)
    requires Stands(src, p, if l.escaped then ['\\', l.c] else [l.c], rest) && ModeAt(src, p) == Str
    requires !l.escaped ==> l.c != '\'' && l.c != '\\'
    ensures Reaches(src, p, p + if l.escaped then 2 else 1, Str, false)
  {
    hide ModeAt, IsComment;
    var a := if l.escaped then ['\\', l.c] else [l.c];
    StandsAt(src, p, a, rest, 0);
    ReachesByte(src, p, Str);
    if l.escaped {
      StandsAt(src, p, a, rest, 1);
      ReachesByte(src, p + 1, StrEscape);
    }
  }

  lemma ReachesThen(src: string, p: nat, q: nat, r: nat, m: Mode, m': Mode, comment: bool)
    requires Reaches(src, p, q, m, comment) && Reaches(src, q, r, m', comment)
    ensures Reaches(src, p, r, m', comment)
  {
  }

  lemma ReachesMode(src: string, p: nat, q: nat, m: Mode, comment: bool)
    requires Reaches(src, p, q, m, comment)
    ensures q <= |src| && ModeAt(src, q) == m
  {
  }

  lemma {:induction false} LettersReach(src: string, p: nat, ls: seq<Letter>, rest: string)
    requires Stands(src, p, WriteLetters(ls), rest) && GoodPiece(Quoted(ls), "") && ModeAt(src, p) == Str
    ensures Reaches(src, p, p + |WriteLetters(ls)|, Str, false)
    decreases |ls|
  {
    hide ModeAt, IsComment, Stands;
    if ls != [] {
      var a, b := if ls[0].escaped then ['\\', ls[0].c] else [ls[0].c], WriteLetters(ls[1..]);
      StandsSplit(src, p, a, b, rest);
      LetterReach(src, p, ls[0], b + rest);
      hide Reaches;
      ReachesMode(src, p, p + |a|, Str, false);
      LettersReach(src, p + |a|, ls[1..], rest);
      ReachesThen(src, p, p + |a|, p + |WriteLetters(ls)|, Str, Str, false);
    } else {
      assert p <= |src| by { StandsInside(src, p, WriteLetters(ls), rest); }
    }
  }

  lemma QuotedReach(src: string, p: nat, ls: seq<Letter>, rest: string)
    requires Stands(src, p, WritePiece(Quoted(ls)), rest) && GoodPiece(Quoted(ls), "") && ModeAt(src, p) == Code
    ensures Reaches(src, p, p + |WriteLetters(ls)| + 2, Code, false)
  {
    hide ModeAt, IsComment, WriteLetters;
    var b := WriteLetters(ls);
    StandsAt(src, p, "'" + (b + "'"), rest, 0);
    StandsAt(src, p, "'" + (b + "'"), rest, |b| + 1);
    ReachesByte(src, p, Code);
    StandsSplit(src, p, "'", b + "'", rest);
    StandsSplit(src, p + 1, b, "'", rest);
    LettersReach(src, p + 1, ls, "'" + rest);
    ReachesByte(src, p + 1 + |b|, Str);
  }

  lemma {:induction false} LineReach(src: string, p: nat, text: string, rest: string, n: nat)
    requires Stands(src, p, "--" + text, rest) && GoodPiece(ToLineEnd(text), rest) && ModeAt(src, p) == Code
    requires 1 <= n <= |text| + 2
    ensures Reaches(src, p, p + n, if n == |text| + 2 && rest != "" then Code else LineComment, true)
  {
    hide ModeAt, IsComment;
    var w := "--" + text;
    StandsAt(src, p, w, rest, n - 1);
    StandsAt(src, p, w, rest, 1);
    if n == 1 {
      ReachesByte(src, p, Code);
    } else {
      LineReach(src, p, text, rest, n - 1);
      if n < |w| { StandsAt(src, p, w, rest, n); assert w[n] in text; }
      ReachesByte(src, p + n - 1, LineComment);
    }
  }

  lemma {:induction false} RemarkReach(src: string, p: nat, text: string, rest: string, n: nat)
    requires Stands(src, p, "/*" + (text + "*/"), rest) && GoodPiece(Remark(text), rest) && ModeAt(src, p) == Code
    requires n <= |text|
    ensures Reaches(src, p, p + 2 + n, Block, true)
  {
    hide ModeAt, IsComment;
    var w := "/*" + (text + "*/");
    StandsAt(src, p, w, rest, 1 + n);
    StandsAt(src, p, w, rest, 2 + n);
    if n == 0 {
      StandsAt(src, p, w, rest, 0);
      ReachesByte(src, p, Code);
      ReachesByte(src, p + 1, BlockOpen);
    } else {
      RemarkReach(src, p, text, rest, n - 1);
      assert w[1 + n] == text[n - 1] && w[2 + n] == (text + "*")[n];
      ReachesByte(src, p + 1 + n, Block);
    }
  }

  lemma RemarkWhole(src: string, p: nat, text: string, rest: string)
    requires Stands(src, p, "/*" + (text + "*/"), rest) && GoodPiece(Remark(text), rest) && ModeAt(src, p) == Code
    ensures Reaches(src, p, p + |text| + 4, Code, true)
  {
    hide ModeAt, IsComment;
    var w := "/*" + (text + "*/");
    RemarkReach(src, p, text, rest, |text|);
    StandsAt(src, p, w, rest, |text| + 2);
    StandsAt(src, p, w, rest, |text| + 3);
    ReachesByte(src, p + |text| + 2, Block);
    ReachesByte(src, p + |text| + 3, BlockClose);
  }

  lemma ByteReach(src: string, p: nat, c: char, rest: string)
    requires Stands(src, p, [c], rest) && GoodPiece(Byte(c), rest) && ModeAt(src, p) == Code
    ensures Reaches(src, p, p + 1, Code, false)
  {
    hide ModeAt, IsComment;
    StandsAt(src, p, [c], rest, 0);
    NextByte(src, p, [c], rest, '-');
    NextByte(src, p, [c], rest, '*');
    ReachesByte(src, p, Code);
  }

  /** Each piece is comment or not as a whole, and leads back to code unless it is a comment that ends the text. */
  lemma PieceReach(src: string, p: nat, piece: Piece, rest: string)
    requires Stands(src, p, WritePiece(piece), rest) && GoodPiece(piece, rest) && ModeAt(src, p) == Code
    ensures var q := p + |WritePiece(piece)|;
            && p < q <= |src| && (q < |src| ==> ModeAt(src, q) == Code)
            && forall i | p <= i < q :: IsComment(src, i) <==> piece.ToLineEnd? || piece.Remark?
  {
    hide ModeAt, IsComment;
    match piece
    case Byte(c) => ByteReach(src, p, c, rest);
    case Quoted(ls) => QuotedReach(src, p, ls, rest);
    case ToLineEnd(text) => LineReach(src, p, text, rest, |text| + 2);
    case Remark(text) => RemarkWhole(src, p, text, rest);
  }

  lemma {:induction false} WriteReach(src: string, p: nat, ps: seq<Piece>)
    requires Stands(src, p, Write(ps), "") && Good(ps) && (p < |src| ==> ModeAt(src, p) == Code)
    ensures forall i | 0 <= i < |Write(ps)| :: IsComment(src, p + i) <==> Marks(ps)[i]
    decreases |ps|
  {
    hide ModeAt, IsComment, WritePiece, GoodPiece;
    if ps != [] {
      var a, b := WritePiece(ps[0]), Write(ps[1..]);
      StandsSplit(src, p, a, b, "");
      assert b + "" == b && |a| > 0 by { NotNothing(ps[0]); }
      PieceReach(src, p, ps[0], b);
      WriteReach(src, p + |a|, ps[1..]);
      forall i | 0 <= i < |Write(ps)| ensures IsComment(src, p + i) <==> Marks(ps)[i] {
        if i >= |a| {
          var k := i - |a|;
          assert IsComment(src, p + |a| + k) <==> Marks(ps[1..])[k];
        }
      }
    }
  }

  lemma NotNothing(p: Piece)
    ensures |WritePiece(p)| > 0
  {
  }

  /** Of a text put together from code, strings and comments, exactly the comments are covered. */
  lemma CommentsAreWhereWritten(ps: seq<Piece>, spans: seq<Span>, p: nat)
    requires Good(ps) && p < |Write(ps)|
    requires forall i: nat | i < |Write(ps)| :: Covered(spans, i) <==> IsComment(Write(ps), i)
    ensures Covered(spans, p) <==> Marks(ps)[p]
  {
    WriteReach(Write(ps), 0, ps);
  }
}
