/** The span of a brace-bodied declaration: a bounded search for the opener, then brace counting. */
module BraceBlock {
  import opened Text

  predicate IsIdentByte(c: char) {
    c == '_' || 'a' <= c <= 'z' || 'A' <= c <= 'Z' || '0' <= c <= '9'
  }

  predicate WhereAt(source: string, j: nat) {
    && j + 5 <= |source| && source[j..j + 5] == "where"
    && (j + 5 == |source| || !IsIdentByte(source[j + 5]))
  }

  predicate ArrowAt(source: string, j: nat) {
    j + 1 < |source| && source[j] == '-' && source[j + 1] == '>'
  }

  /** The line after a newline, blanks skipped, goes on with the declaration. */
  predicate Continues(source: string, nl: nat) {
    var j := NextNonBlank(source, nl + 1);
    j < |source| && (source[j] == '{' || ArrowAt(source, j) || WhereAt(source, j))
  }

  predicate ContinuesWithWhere(source: string, nl: nat) {
    WhereAt(source, NextNonBlank(source, nl + 1))
  }

  method DeclContinuationAt(source: string, nl: nat) returns (cont: bool, isWhere: bool)
    ensures cont == Continues(source, nl) && isWhere == ContinuesWithWhere(source, nl)
  {
    var j := nl + 1;
    while j < |source|
      invariant NextNonBlank(source, nl + 1) == NextNonBlank(source, j)
    {
      while j < |source| && source[j] in " \t\r"
        invariant NextNonBlank(source, nl + 1) == NextNonBlank(source, j)
      {
        j := j + 1;
      }
      if j >= |source| { return false, false; }
      if source[j] == '\n' {
        j := j + 1;
      } else {
        if source[j] == '{' || ArrowAt(source, j) { return true, false; }
        if WhereAt(source, j) { return true, true; }
        return false, false;
      }
    }
    return false, false;
  }

  /** Open parentheses before i; a stray closer is ignored. */
  function ParenDepth(source: string, start: nat, i: nat): nat
    requires start <= i <= |source|
  {
    if i == start then 0
    else
      var d := ParenDepth(source, start, i - 1);
      if source[i - 1] == '(' then d + 1 else if source[i - 1] == ')' && d > 0 then d - 1 else d
  }

  /** A newline at paren depth 0 before i led into a `where` clause. */
  ghost predicate InWhere(source: string, start: nat, i: nat)
    requires start <= i <= |source|
  {
    exists nl :: start <= nl < i && source[nl] == '\n' && ParenDepth(source, start, nl) == 0
        && ContinuesWithWhere(source, nl)
  }

  ghost predicate BodyOpens(source: string, start: nat, i: nat) {
    start <= i < |source| && source[i] == '{' && ParenDepth(source, start, i) == 0
  }

  ghost predicate HeaderEnds(source: string, start: nat, i: nat) {
    && start <= i < |source| && ParenDepth(source, start, i) == 0
    && (source[i] == ';' || (source[i] == '\n' && !InWhere(source, start, i) && !Continues(source, i)))
  }

  /** No event before i: still inside the declaration header. */
  ghost predicate InHeader(source: string, start: nat, i: nat) {
    forall k: nat | k < i :: !BodyOpens(source, start, k) && !HeaderEnds(source, start, k)
  }

  /** Opening minus closing braces from the opener at o up to e. */
  function Balance(source: string, o: nat, e: nat): int
    requires o <= e <= |source|
  {
    if e == o then 0
    else Balance(source, o, e - 1) + if source[e - 1] == '{' then 1 else if source[e - 1] == '}' then -1 else 0
  }

  /** The body opened at o has not been closed by e. */
  ghost predicate Unclosed(source: string, o: nat, e: nat)
    requires o <= e <= |source|
  {
    forall k | o < k <= e :: Balance(source, o, k) != 0
  }

  /** What the block finder returns, for every source and start. */
  ghost predicate IsBlockEnd(source: string, start: nat, r: nat) {
    || (r == |source| && InHeader(source, start, |source|))
    || (exists i: nat ::
        HeaderEnds(source, start, i) && InHeader(source, start, i)
        && r == if source[i] == ';' then i + 1 else i)
    || (exists o: nat :: BodyOpens(source, start, o) && InHeader(source, start, o) && ClosesAt(source, o, r))
  }

  /** r is just past the first return of the brace count to zero, or the end of the source. */
  ghost predicate ClosesAt(source: string, o: nat, r: nat) {
    && o < r <= |source| && Unclosed(source, o, r - 1)
    && (Balance(source, o, r) == 0 || r == |source|)
  }

  method FindBraceBlock(source: string, start: nat) returns (r: nat)
    ensures IsBlockEnd(source, start, r)
  {
    hide ParenDepth, InWhere, Continues, ContinuesWithWhere, ClosesAt, InHeader, BodyOpens, HeaderEnds;
    var parenDepth := 0;
    var inWhereClause := false;
    var i := start;
    HeaderStarts(source, start);
    while i < |source|
      invariant start <= i <= |source| || (i == start && start > |source|)
      invariant InHeader(source, start, i)
      invariant i <= |source|
                ==> parenDepth == ParenDepth(source, start, i) && inWhereClause == InWhere(source, start, i)
    {
      var c := source[i];
      HeaderStep(source, start, i);
      if c == '(' {
        parenDepth := parenDepth + 1;
      } else if c == ')' {
        if parenDepth > 0 { parenDepth := parenDepth - 1; }
      } else if c == '{' {
        if parenDepth == 0 {
          r := MatchBrace(source, i);
          return;
        }
      } else if c == ';' {
        if parenDepth == 0 { return i + 1; }
      } else if c == '\n' && parenDepth == 0 && !inWhereClause {
        var cont, isWhere := DeclContinuationAt(source, i);
        if !cont { return i; }
        if isWhere { inWhereClause := true; }
      }
      i := i + 1;
    }
    return |source|;
  }

  lemma HeaderStarts(source: string, start: nat)
    ensures InHeader(source, start, start) && (start > |source| ==> InHeader(source, start, |source|))
    ensures start <= |source| ==> ParenDepth(source, start, start) == 0 && !InWhere(source, start, start)
  {
  }

  /** What byte i does to the header: it opens the body, ends the header, or changes paren depth and where state. */
  lemma HeaderStep(source: string, start: nat, i: nat)
    requires start <= i < |source| && InHeader(source, start, i)
    ensures var c, depth, inWhere := source[i], ParenDepth(source, start, i), InWhere(source, start, i);
            && (BodyOpens(source, start, i) <==> c == '{' && depth == 0)
            && (HeaderEnds(source, start, i)
               <==> depth == 0 && (c == ';' || (c == '\n' && !inWhere && !Continues(source, i))))
            && (!BodyOpens(source, start, i) && !HeaderEnds(source, start, i) ==> InHeader(source, start, i + 1))
            && ParenDepth(source, start, i + 1)
               == (if c == '(' then depth + 1 else if c == ')' && depth > 0 then depth - 1 else depth)
            && (InWhere(source, start, i + 1)
               <==> inWhere || (c == '\n' && depth == 0 && ContinuesWithWhere(source, i)))
  {
    hide Continues, ContinuesWithWhere;
    StateStep(source, start, i);
    hide ParenDepth, InWhere;
  }

  lemma StateStep(source: string, start: nat, i: nat)
    requires start <= i < |source|
    ensures var c, depth, inWhere := source[i], ParenDepth(source, start, i), InWhere(source, start, i);
            && ParenDepth(source, start, i + 1)
               == (if c == '(' then depth + 1 else if c == ')' && depth > 0 then depth - 1 else depth)
            && (InWhere(source, start, i + 1)
               <==> inWhere || (c == '\n' && depth == 0 && ContinuesWithWhere(source, i)))
  {
  }

  /** The counting half of the same loop, entered at the opener. */
  method MatchBrace(source: string, o: nat) returns (r: nat)
    requires o < |source| && source[o] == '{'
    ensures ClosesAt(source, o, r)
  {
    var depth := 1;
    var i := o + 1;
    while i < |source|
      invariant o < i <= |source|
      invariant depth == Balance(source, o, i) && depth > 0
      invariant Unclosed(source, o, i)
    {
      if source[i] == '{' {
        depth := depth + 1;
      } else if source[i] == '}' {
        depth := depth - 1;
        if depth == 0 { return i + 1; }
      }
      i := i + 1;
    }
    return |source|;
  }

  /** A header that ends without a body never reaches past its own line: no sibling's block is swallowed. */
  lemma BodylessStaysPut(source: string, start: nat, r: nat, i: nat)
    requires IsBlockEnd(source, start, r)
    requires HeaderEnds(source, start, i) && forall o: nat | o < i :: !BodyOpens(source, start, o)
    ensures start <= r <= i + 1
  {
    hide ParenDepth, InWhere, Continues, ClosesAt;
    if o: nat :| BodyOpens(source, start, o) && InHeader(source, start, o) && ClosesAt(source, o, r) {
    } else if k: nat :|
              HeaderEnds(source, start, k) && InHeader(source, start, k)
              && r == if source[k] == ';' then k + 1 else k {
      assert i < k ==> !HeaderEnds(source, start, i);
    }
  }

  /** The result is determined: the specification has one solution. */
  lemma BlockEndUnique(source: string, start: nat, r: nat, r': nat)
    requires IsBlockEnd(source, start, r) && IsBlockEnd(source, start, r')
    ensures r == r'
  {
    if o: nat :| BodyOpens(source, start, o) && InHeader(source, start, o) && ClosesAt(source, o, r) {
      forall k: nat | (BodyOpens(source, start, k) || HeaderEnds(source, start, k)) && InHeader(source, start, k)
        ensures k == o {
        SameFirst(source, start, o, k);
      }
      if ClosesAt(source, o, r') { ClosesOnce(source, o, r, r'); }
    } else if i: nat :|
              HeaderEnds(source, start, i) && InHeader(source, start, i)
              && r == if source[i] == ';' then i + 1 else i {
      forall k: nat | (BodyOpens(source, start, k) || HeaderEnds(source, start, k)) && InHeader(source, start, k)
        ensures k == i {
        SameFirst(source, start, i, k);
      }
    }
  }

  lemma ClosesOnce(source: string, o: nat, r: nat, r': nat)
    requires o < |source| && ClosesAt(source, o, r) && ClosesAt(source, o, r')
    ensures r == r'
  {
  }

  lemma SameFirst(source: string, start: nat, a: nat, b: nat)
    requires (BodyOpens(source, start, a) || HeaderEnds(source, start, a)) && InHeader(source, start, a)
    requires (BodyOpens(source, start, b) || HeaderEnds(source, start, b)) && InHeader(source, start, b)
    ensures a == b
  {
  }
}
