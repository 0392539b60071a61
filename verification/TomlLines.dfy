/**
 * Scanning single TOML lines outside quotes: cutting off comments, finding the separator of a key and its value, and
 * counting brackets. Also closing the ranges of table headers.
 */
module TomlLines {

  datatype Quote = Plain | Double | Escaped | Single

  function Next(q: Quote, c: char): Quote {
    match q
    case Plain => if c == '"' then Double else if c == '\'' then Single else Plain
    case Double => if c == '\\' then Escaped else if c == '"' then Plain else Double
    case Escaped => Double
    case Single => if c == '\'' then Plain else Single
  }

  /** The quoting state before position i. */
  function QuoteAt(line: string, i: nat): Quote
    requires i <= |line|
  {
    if i == 0 then Plain else Next(QuoteAt(line, i - 1), line[i - 1])
  }

  /** Character c stands at i outside any quotes. */
  predicate Bare(line: string, i: nat, c: char)
    requires i < |line|
  {
    line[i] == c && QuoteAt(line, i) == Plain
  }

  ghost predicate FirstBare(line: string, i: nat, c: char) {
    i < |line| && Bare(line, i, c) && forall k | 0 <= k < i :: !Bare(line, k, c)
  }

  ghost predicate NoBare(line: string, c: char) {
    forall k | 0 <= k < |line| :: !Bare(line, k, c)
  }

  /** The loop variables of the scanners, as a state of the automaton. */
  function Flags(inDouble: bool, inSingle: bool): Quote {
    if inDouble then Double else if inSingle then Single else Plain
  }

  lemma QuoteStep(line: string, i: nat)
    requires i < |line|
    ensures QuoteAt(line, i + 1) == Next(QuoteAt(line, i), line[i])
  {
  }

  method StripComment(line: string) returns (clean: string)
    ensures NoBare(line, '#') ==> clean == line
    ensures forall i: nat | FirstBare(line, i, '#') :: clean == line[..i]
  {
    var inDouble, inSingle := false, false;
    var i := 0;
    while i < |line|
      invariant i <= |line| && !(inDouble && inSingle)
      invariant i < |line| ==> QuoteAt(line, i) == Flags(inDouble, inSingle)
      invariant forall k | 0 <= k < i :: !Bare(line, k, '#')
    {
      var c := line[i];
      if inDouble && c == '\\' && i + 1 < |line| {
        QuoteStep(line, i);
        QuoteStep(line, i + 1);
        i := i + 2;
        continue;
      }
      if inDouble { inDouble := c != '"'; }
      else if inSingle { inSingle := c != '\''; }
      else if c == '"' { inDouble := true; }
      else if c == '\'' { inSingle := true; }
      else if c == '#' {
        assert Bare(line, i, '#');
        return line[..i];
      }
      i := i + 1;
    }
    return line;
  }

  method FindKeyValueSeparator(line: string) returns (at: int)
    ensures at >= 0 ==> FirstBare(line, at, '=')
    ensures at < 0 ==> at == -1 && NoBare(line, '=')
  {
    var inDouble, inSingle := false, false;
    var i := 0;
    while i < |line|
      invariant i <= |line| && !(inDouble && inSingle)
      invariant i < |line| ==> QuoteAt(line, i) == Flags(inDouble, inSingle)
      invariant forall k | 0 <= k < i :: !Bare(line, k, '=')
    {
      var c := line[i];
      if inDouble && c == '\\' && i + 1 < |line| {
        QuoteStep(line, i);
        QuoteStep(line, i + 1);
        i := i + 2;
        continue;
      }
      if inDouble { inDouble := c != '"'; }
      else if inSingle { inSingle := c != '\''; }
      else if c == '"' { inDouble := true; }
      else if c == '\'' { inSingle := true; }
      else if c == '=' { return i; }
      i := i + 1;
    }
    return -1;
  }

  /** The positions below n where c stands bare. */
  function BareSet(line: string, n: nat, c: char): set<nat>
    requires n <= |line|
  {
    set i: nat | i < n && Bare(line, i, c)
  }

  method CountOutsideStrings(line: string, target: char) returns (count: nat)
    ensures count == if target in ['"', '\''] then 0 else |BareSet(line, |line|, target)|
  {
    var inDouble, inSingle := false, false;
    count := 0;
    var i := 0;
    while i < |line|
      invariant i <= |line| && !(inDouble && inSingle)
      invariant i < |line| ==> QuoteAt(line, i) == Flags(inDouble, inSingle)
      invariant count == if target in ['"', '\''] then 0 else |BareSet(line, i, target)|
    {
      hide QuoteAt;
      var c := line[i];
      BareStep(line, i, target);
      QuoteStep(line, i);
      if inDouble && c == '\\' && i + 1 < |line| {
        QuoteStep(line, i);
        QuoteStep(line, i + 1);
        BareStep(line, i + 1, target);
        i := i + 2;
        continue;
      }
      if inDouble { inDouble := c != '"'; }
      else if inSingle { inSingle := c != '\''; }
      else if c == '"' { inDouble := true; }
      else if c == '\'' { inSingle := true; }
      else if c == target { count := count + 1; }
      i := i + 1;
    }
  }

  lemma BareStep(line: string, i: nat, c: char)
    requires i < |line|
    ensures |BareSet(line, i + 1, c)| == |BareSet(line, i, c)| + if Bare(line, i, c) then 1 else 0
  {
    assert BareSet(line, i + 1, c) == BareSet(line, i, c) + if Bare(line, i, c) then {i} else {};
  }

  lemma {:induction false} QuotePrefix(line: string, n: nat, i: nat)
    requires i <= n <= |line|
    ensures QuoteAt(line[..n], i) == QuoteAt(line, i)
  {
    if i > 0 { QuotePrefix(line, n, i - 1); }
  }

  /** The separator of a stripped line is the separator of the line itself, if that stands before the comment. */
  lemma SeparatorBeforeComment(line: string, hash: nat, at: nat)
    requires FirstBare(line, hash, '#')
    ensures FirstBare(line[..hash], at, '=') <==> at < hash && FirstBare(line, at, '=')
  {
    forall k: nat | k < hash ensures Bare(line[..hash], k, '=') == Bare(line, k, '=') { QuotePrefix(line, hash, k); }
  }

  /** A stripped line has no comment left, and stripping stops inside no quotes. */
  lemma StrippedIsClean(line: string, hash: nat)
    requires FirstBare(line, hash, '#')
    ensures NoBare(line[..hash], '#') && QuoteAt(line[..hash], hash) == Plain
  {
    forall k: nat | k < hash ensures !Bare(line[..hash], k, '#') {
      QuotePrefix(line, hash, k);
      assert !Bare(line, k, '#');
    }
    QuotePrefix(line, hash, hash);
  }

  datatype Entry = Entry(start: nat, end: nat, startLine: nat, endLine: nat, isHeader: bool)

  /** The first header from j on, or the number of entries. */
  function NextHeader(es: seq<Entry>, j: nat): (r: nat)
    requires j <= |es|
    ensures j <= r <= |es| && (r < |es| ==> es[r].isHeader) && forall k | j <= k < r :: !es[k].isHeader
    decreases |es| - j
  {
    if j == |es| || es[j].isHeader then j else NextHeader(es, j + 1)
  }

  function HeaderEnd(es: seq<Entry>, i: nat, sourceLen: nat): nat
    requires i < |es|
  {
    var n := NextHeader(es, i + 1);
    if n < |es| then es[n].start else sourceLen
  }

  function HeaderEndLine(es: seq<Entry>, i: nat, lines: nat): nat
    requires i < |es|
  {
    var n := NextHeader(es, i + 1);
    if n < |es| && es[n].startLine > 0 then
      if es[n].startLine - 1 < es[i].startLine then es[i].startLine else es[n].startLine - 1
    else if lines > 0 then lines
    else es[i].endLine
  }

  function Patched(es: seq<Entry>, i: nat, sourceLen: nat, lines: nat): Entry
    requires i < |es|
  {
    if es[i].isHeader then es[i].(end := HeaderEnd(es, i, sourceLen), endLine := HeaderEndLine(es, i, lines)) else es[i]
  }

  class Entries {
    var entries: seq<Entry>

    method PatchHeaders(sourceLen: nat, lines: nat)
      requires forall i | 0 <= i < |entries| :: entries[i].startLine > 0
      modifies this
      ensures |entries| == |old(entries)|
      ensures forall i | 0 <= i < |entries| :: entries[i] == Patched(old(entries), i, sourceLen, lines)
      ensures forall i | 0 <= i < |entries| :: if old(entries)[i].isHeader
                then entries[i].(end := 0, endLine := 0) == old(entries)[i].(end := 0, endLine := 0)
                else entries[i] == old(entries)[i]
    {
      ghost var es := entries;
      var nextStart, nextLine := sourceLen, 0;
      var i := |entries|;
      while i > 0
        invariant 0 <= i <= |es| == |entries|
        invariant entries[..i] == es[..i]
        invariant forall k | i <= k < |es| :: entries[k] == Patched(es, k, sourceLen, lines)
        invariant var n := NextHeader(es, i);
                  if n < |es| then nextStart == es[n].start && nextLine == es[n].startLine
                      else nextStart == sourceLen && nextLine == 0
      {
        i := i - 1;
        assert entries[i] == es[i];
        if entries[i].isHeader {
          var e := entries[i].(end := nextStart);
          if nextLine > 0 {
            e := e.(endLine := if nextLine - 1 < e.startLine then e.startLine else nextLine - 1);
          } else if lines > 0 {
            e := e.(endLine := lines);
          }
          nextStart, nextLine := e.start, e.startLine;
          entries := entries[i := e];
        }
      }
    }
  }

  /** Entries in source order. */
  ghost predicate InOrder(es: seq<Entry>, sourceLen: nat) {
    && (forall i, j | 0 <= i < j < |es| :: es[i].start < es[j].start)
    && (forall i | 0 <= i < |es| :: es[i].start < sourceLen)
  }

  /** Header i's patched range holds the start of entry j exactly when i is the last header at or before j. */
  lemma HeaderOwnsEntries(es: seq<Entry>, i: nat, j: nat, sourceLen: nat)
    requires InOrder(es, sourceLen) && i < |es| && j < |es| && es[i].isHeader
    ensures es[i].start <= es[j].start < HeaderEnd(es, i, sourceLen)
            <==> i <= j && forall k | i < k <= j :: !es[k].isHeader
  {
    var n := NextHeader(es, i + 1);
  }

  /** From the first header on, every byte of the source lies in exactly one header's range. */
  lemma {:induction false} HeadersTile(es: seq<Entry>, first: nat, p: nat, sourceLen: nat) returns (i: nat)
    requires InOrder(es, sourceLen) && first < |es| && es[first].isHeader && es[first].start <= p < sourceLen
    ensures first <= i < |es| && es[i].isHeader && es[i].start <= p < HeaderEnd(es, i, sourceLen)
    ensures forall k | first <= k < |es| && es[k].isHeader && es[k].start <= p < HeaderEnd(es, k, sourceLen) :: k == i
    decreases |es| - first
  {
    var n := NextHeader(es, first + 1);
    if p < HeaderEnd(es, first, sourceLen) {
      i := first;
      forall k | first < k < |es| && es[k].isHeader ensures p < es[k].start { assert n <= k; }
    } else {
      i := HeadersTile(es, n, p, sourceLen);
    }
  }

  /** Headers in source order, each on a line of its own. */
  ghost predicate HeaderLinesRise(es: seq<Entry>, lines: nat) {
    && (forall i | 0 <= i < |es| && es[i].isHeader :: 0 < es[i].startLine <= lines)
    && forall i, j | 0 <= i < j < |es| && es[i].isHeader && es[j].isHeader :: es[i].startLine < es[j].startLine
  }

  /** From the first header on, every line lies in exactly one header's range of lines. */
  lemma {:induction false} HeaderLinesTile(es: seq<Entry>, first: nat, line: nat, lines: nat) returns (i: nat)
    requires HeaderLinesRise(es, lines) && first < |es| && es[first].isHeader && es[first].startLine <= line <= lines
    ensures first <= i < |es| && es[i].isHeader && es[i].startLine <= line <= HeaderEndLine(es, i, lines)
    ensures forall k | first <= k < |es| && es[k].isHeader && es[k].startLine <= line <= HeaderEndLine(es, k, lines) ::
              k == i
    decreases |es| - first
  {
    var n := NextHeader(es, first + 1);
    if line <= HeaderEndLine(es, first, lines) {
      i := first;
      forall k | first < k < |es| && es[k].isHeader ensures line < es[k].startLine { assert n <= k; }
    } else {
      i := HeaderLinesTile(es, n, line, lines);
    }
  }

  /** Where two headers share a line the first one's range is that line alone. */
  lemma SharedLine(es: seq<Entry>, i: nat, lines: nat)
    requires i < |es| && es[i].startLine > 0
    ensures var n := NextHeader(es, i + 1);
            n < |es| && es[n].startLine == es[i].startLine ==> HeaderEndLine(es, i, lines) == es[i].startLine
  {
  }

  // ---- Lines as written ----

  /** A byte inside double quotes, with or without a backslash before it. */
  datatype Letter = Letter(c: char, escaped: bool)

  /** A stretch of a line: unquoted text, or a string of either kind. */
  datatype Piece = Open(text: string) | InDouble(letters: seq<Letter>) | InSingle(text: string)

  function WriteLetters(ls: seq<Letter>): string {
    if ls == [] then ""
    else WriteLetters(ls[..|ls| - 1]) + if ls[|ls| - 1].escaped then ['\\', ls[|ls| - 1].c] else [ls[|ls| - 1].c]
  }

  function WritePiece(p: Piece): string {
    match p
    case Open(text) => text
    case InDouble(ls) => "\"" + WriteLetters(ls) + "\""
    case InSingle(text) => "'" + text + "'"
  }

  function Write(ps: seq<Piece>): string {
    if ps == [] then "" else Write(ps[..|ps| - 1]) + WritePiece(ps[|ps| - 1])
  }

  /** Unquoted text has neither quotes nor the character c, a string no closing quote inside. */
  ghost predicate Without(p: Piece, c: char) {
    match p
    case Open(text) => forall i | 0 <= i < |text| :: text[i] != '"' && text[i] != '\'' && text[i] != c
    case InDouble(ls) => forall i | 0 <= i < |ls| && !ls[i].escaped :: ls[i].c != '"' && ls[i].c != '\\'
    case InSingle(text) => forall i | 0 <= i < |text| :: text[i] != '\''
  }

  /** Up to n the character does not stand bare, and the quoting state there is this one. */
  ghost predicate Passes(line: string, m: nat, n: nat, c: char, q: Quote) {
    && m <= n <= |line| && QuoteAt(line, n) == q
    && forall i | m <= i < n :: !Bare(line, i, c)
  }

  lemma PassesByte(line: string, m: nat, n: nat, c: char, q: Quote)
    requires Passes(line, m, n, c, q) && n < |line| && (q == Plain ==> line[n] != c)
    ensures Passes(line, m, n + 1, c, Next(q, line[n]))
  {
    QuoteStep(line, n);
  }

  lemma {:induction false} OpenPasses(line: string, m: nat, text: string, k: nat, c: char)
    requires m + |text| <= |line| && line[m..m + |text|] == text && QuoteAt(line, m) == Plain
    requires Without(Open(text), c) && k <= |text|
    ensures Passes(line, m, m + k, c, Plain)
  {
    hide QuoteAt;
    if k > 0 {
      OpenPasses(line, m, text, k - 1, c);
      assert line[m..m + |text|][k - 1] == line[m + k - 1];
      PassesByte(line, m, m + k - 1, c, Plain);
    }
  }

  lemma {:induction false} SinglePasses(line: string, m: nat, text: string, k: nat, c: char)
    requires m + |text| <= |line| && line[m..m + |text|] == text && QuoteAt(line, m) == Single
    requires Without(InSingle(text), c) && k <= |text|
    ensures Passes(line, m, m + k, c, Single)
  {
    hide QuoteAt;
    if k > 0 {
      SinglePasses(line, m, text, k - 1, c);
      assert line[m..m + |text|][k - 1] == line[m + k - 1];
      PassesByte(line, m, m + k - 1, c, Single);
    }
  }

  lemma {:induction false} DoublePasses(line: string, m: nat, ls: seq<Letter>, c: char)
    requires var w := WriteLetters(ls); m + |w| <= |line| && line[m..m + |w|] == w
    requires QuoteAt(line, m) == Double && Without(InDouble(ls), c)
    ensures Passes(line, m, m + |WriteLetters(ls)|, c, Double)
  {
    hide QuoteAt;
    if ls != [] {
      var init, l, w := ls[..|ls| - 1], ls[|ls| - 1], WriteLetters(ls);
      var n := m + |WriteLetters(init)|;
      assert line[m..n] == w[..n - m];
      DoublePasses(line, m, init, c);
      assert line[m..m + |w|][n - m] == line[n];
      PassesByte(line, m, n, c, Double);
      if l.escaped {
        assert line[m..m + |w|][n + 1 - m] == line[n + 1];
        PassesByte(line, m, n + 1, c, Escaped);
      }
    }
  }

  lemma Inside(line: string, m: nat, n: nat, quote: string, text: string)
    requires m <= n <= |line| && |quote| == 1 && line[m..n] == quote + text + quote
    ensures m + 2 <= n && line[m + 1..n - 1] == text
  {
    assert |line[m..n]| == |text| + 2;
    forall i | 0 <= i < |text| ensures line[m + 1 + i] == text[i] { assert line[m..n][1 + i] == line[m + 1 + i]; }
  }

  lemma PiecePasses(line: string, m: nat, p: Piece, c: char)
    requires var w := WritePiece(p); m + |w| <= |line| && line[m..m + |w|] == w
    requires QuoteAt(line, m) == Plain && Without(p, c) && c != '"' && c != '\''
    ensures Passes(line, m, m + |WritePiece(p)|, c, Plain)
  {
    hide QuoteAt;
    var w := WritePiece(p);
    var n := m + |w|;
    if |w| > 1 { assert line[m..n][0] == line[m] && line[m..n][|w| - 1] == line[n - 1]; }
    match p
    case Open(text) => OpenPasses(line, m, text, |text|, c);
    case InDouble(ls) =>
      hide WriteLetters;
      Inside(line, m, n, "\"", WriteLetters(ls));
      PassesByte(line, m, m, c, Plain);
      DoublePasses(line, m + 1, ls, c);
      PassesByte(line, m + 1, n - 1, c, Double);
    case InSingle(text) =>
      Inside(line, m, n, "'", text);
      PassesByte(line, m, m, c, Plain);
      SinglePasses(line, m + 1, text, |text|, c);
      PassesByte(line, m + 1, n - 1, c, Single);
  }

  lemma {:induction false} WritePasses(line: string, ps: seq<Piece>, c: char)
    requires Write(ps) <= line && (forall p | p in ps :: Without(p, c)) && c != '"' && c != '\''
    ensures Passes(line, 0, |Write(ps)|, c, Plain)
  {
    hide Without, WritePiece;
    if ps != [] {
      var init, p := ps[..|ps| - 1], ps[|ps| - 1];
      var n := |Write(init)|;
      assert Write(init) == Write(ps)[..n] == line[..n] && p in ps;
      WritePasses(line, init, c);
      assert line[n..n + |WritePiece(p)|] == line[..|Write(ps)|][n..];
      PiecePasses(line, n, p, c);
    }
  }

  /**
   * A line of unquoted text and strings, then a comment: the comment is found where it starts, whatever the strings
   * hold. The same goes for the equals sign behind a key, and for brackets.
   */
  lemma WrittenIsFound(ps: seq<Piece>, c: char, rest: string)
    requires (forall p | p in ps :: Without(p, c)) && c != '"' && c != '\''
    ensures FirstBare(Write(ps) + [c] + rest, |Write(ps)|, c)
    ensures NoBare(Write(ps), c)
  {
    hide QuoteAt, Without, Write;
    WritePasses(Write(ps) + [c] + rest, ps, c);
    WritePasses(Write(ps), ps, c);
  }
}
