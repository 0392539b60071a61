/** Reading the tokens of a well-formed document gives back its element tree. */
module XmlReadBack {
  import opened XmlElements

  /** A document as written: text (or comments, directives, ...) and elements, each tag with the offset behind it. */
  datatype Piece = Text(after: nat) | Elem(tag: Tag, open: nat, body: seq<Piece>, close: nat)

  function Flatten(ps: seq<Piece>): seq<Token> {
    if ps == [] then []
    else
      match ps[0]
      case Text(after) => [Other(after)] + Flatten(ps[1..])
      case Elem(tag, open, body, close) => [Start(tag.local, open)] + Flatten(body) + [End(close)] + Flatten(ps[1..])
  }

  function Behind(p: Piece): nat {
    match p case Text(after) => after case Elem(_, _, _, close) => close
  }

  /** Element i of the list is e, written from offset `pos` on. */
  ghost predicate Denotes(source: string, nodes: seq<Node>, i: nat, e: Piece, pos: nat)
    requires e.Elem? && pos <= |source|
    decreases e
  {
    && i < |nodes|
    && nodes[i].name == e.tag.local && nodes[i].end == e.close
    && nodes[i].start == ElementStart(source, pos, e.open)
    && e.open <= |source| && DenoteAll(source, nodes, nodes[i].children, e.body, e.open)
  }

  /** The elements listed are those among the pieces, in order. */
  ghost predicate DenoteAll(source: string, nodes: seq<Node>, cs: seq<nat>, ps: seq<Piece>, pos: nat)
    requires pos <= |source|
    decreases ps
  {
    if ps == [] then cs == []
    else if Behind(ps[0]) > |source| then false
    else if ps[0].Text? then DenoteAll(source, nodes, cs, ps[1..], Behind(ps[0]))
    else
      && cs != [] && Denotes(source, nodes, cs[0], ps[0], pos)
      && DenoteAll(source, nodes, cs[1..], ps[1..], Behind(ps[0]))
  }

  /** The two lists agree on the elements from lo on that the first has. */
  ghost predicate AgreeFrom(a: seq<Node>, b: seq<Node>, lo: nat) {
    |a| <= |b| && forall i | lo <= i < |a| :: a[i] == b[i]
  }

  lemma {:induction false} DenotesFrame(source: string, a: seq<Node>, b: seq<Node>, i: nat, e: Piece, pos: nat)
    requires Ordered(a) && AgreeFrom(a, b, i) && e.Elem? && pos <= |source|
    requires Denotes(source, a, i, e, pos)
    ensures Denotes(source, b, i, e, pos)
    decreases e
  {
    DenoteAllFrame(source, a, b, i, a[i].children, e.body, e.open);
  }

  lemma {:induction false} DenoteAllFrame(source: string, a: seq<Node>, b: seq<Node>, lo: nat, cs: seq<nat>,
                                          ps: seq<Piece>, pos: nat)
    requires Ordered(a) && AgreeFrom(a, b, lo) && pos <= |source|
    requires forall c | c in cs :: lo <= c
    requires DenoteAll(source, a, cs, ps, pos)
    ensures DenoteAll(source, b, cs, ps, pos)
    decreases ps
  {
    if ps != [] {
      if ps[0].Text? {
        DenoteAllFrame(source, a, b, lo, cs, ps[1..], Behind(ps[0]));
      } else {
        assert cs[0] in cs && forall c | c in cs[1..] :: c in cs;
        DenotesFrame(source, a, b, cs[0], ps[0], pos);
        DenoteAllFrame(source, a, b, lo, cs[1..], ps[1..], Behind(ps[0]));
      }
    }
  }

  lemma {:induction false} RunAppend(source: string, s: State, a: seq<Token>, b: seq<Token>)
    requires Indexed(s) && Offsets(source, s.pos, a + b)
    ensures Offsets(source, s.pos, a)
    ensures Offsets(source, Run(source, s, a).pos, b)
    ensures Run(source, s, a + b) == Run(source, Run(source, s, a), b)
    decreases a
  {
    hide Open, Close;
    if a == [] {
      assert a + b == b;
      OffsetsBound(source, s.pos, b);
    } else {
      assert (a + b)[1..] == a[1..] + b;
      RunAppend(source, Step(source, s, a[0]), a[1..], b);
    }
  }

  lemma {:induction false} OffsetsBound(source: string, pos: nat, ts: seq<Token>)
    requires Offsets(source, pos, ts)
    ensures pos <= |source|
    decreases ts
  {
    if ts != [] { OffsetsBound(source, ts[0].after, ts[1..]); }
  }

  /** The offset behind the pieces. */
  function BehindAll(ps: seq<Piece>, pos: nat): nat {
    if ps == [] then pos else Behind(ps[|ps| - 1])
  }

  /** What reading pieces does: the elements are appended, and become children of the innermost open one. */
  ghost predicate Reads(source: string, s: State, ps: seq<Piece>, r: State, cs: seq<nat>)
    requires Indexed(s) && Indexed(r) && s.pos <= |source|
  {
    && r.stack == s.stack && r.pos == BehindAll(ps, s.pos)
    && |s.nodes| <= |r.nodes|
    && (forall i | 0 <= i < |s.nodes| ::
          r.nodes[i] == if s.stack != [] && i == s.stack[|s.stack| - 1]
                        then s.nodes[i].(children := s.nodes[i].children + cs) else s.nodes[i])
    && DenoteAll(source, r.nodes, cs, ps, s.pos)
    && (forall c | c in cs :: |s.nodes| <= c)
    && (cs != [] ==> cs[0] == |s.nodes|)
  }

  /** The tokens of a leading element are its start tag, its body and its end tag. */
  lemma RunElem(source: string, s: State, ps: seq<Piece>) returns (s1: State, r1: State)
    requires Indexed(s) && s.pos <= |source| && Offsets(source, s.pos, Flatten(ps))
    requires ps != [] && ps[0].Elem?
    ensures ps[0].open <= |source| && ps[0].close <= |source|
    ensures s1 == Open(s, ps[0].tag.local, ElementStart(source, s.pos, ps[0].open), ps[0].open)
    ensures Offsets(source, s1.pos, Flatten(ps[0].body)) && r1 == Run(source, s1, Flatten(ps[0].body))
    ensures Offsets(source, ps[0].close, Flatten(ps[1..]))
    ensures Run(source, s, Flatten(ps)) == Run(source, Close(r1, ps[0].close), Flatten(ps[1..]))
  {
    hide Open, Close, ElementStart;
    var e := ps[0];
    var body, rest := Flatten(e.body), [End(e.close)] + Flatten(ps[1..]);
    var ts := Flatten(ps);
    assert ts == [Start(e.tag.local, e.open)] + (body + rest);
    assert ts[0] == Start(e.tag.local, e.open) && ts[1..] == body + rest;
    s1 := Step(source, s, ts[0]);
    RunAppend(source, s1, body, rest);
    r1 := Run(source, s1, body);
    assert rest[0] == End(e.close) && rest[1..] == Flatten(ps[1..]);
    OffsetsBound(source, e.close, rest[1..]);
  }

  /** Opening, reading the body and closing completes one element. */
  lemma ElementComplete(source: string, s: State, e: Piece, s1: State, r1: State, cs: seq<nat>)
    requires Indexed(s) && s.pos <= |source| && e.Elem? && e.open <= |source| && e.close <= |source|
    requires s1 == Open(s, e.tag.local, ElementStart(source, s.pos, e.open), e.open)
    requires Indexed(r1) && Reads(source, s1, e.body, r1, cs)
    ensures Reads(source, s, [e], Close(r1, e.close), [|s.nodes|])
  {
    hide DenoteAll, ElementStart;
    var n := |s.nodes|;
    var r2 := Close(r1, e.close);
    assert s1.stack[|s1.stack| - 1] == n && s1.stack[..|s1.stack| - 1] == s.stack;
    assert r1.nodes[n] == s1.nodes[n].(children := cs);
    assert AgreeFrom(r1.nodes, r2.nodes, n + 1);
    DenoteAllFrame(source, r1.nodes, r2.nodes, n + 1, cs, e.body, e.open);
    assert Denotes(source, r2.nodes, n, e, s.pos);
    DenoteOne(source, r2.nodes, n, e, s.pos);
  }

  lemma DenoteOne(source: string, nodes: seq<Node>, n: nat, e: Piece, pos: nat)
    requires pos <= |source| && e.Elem? && e.close <= |source| && Denotes(source, nodes, n, e, pos)
    ensures DenoteAll(source, nodes, [n], [e], pos)
  {
    assert [e][1..] == [] && [n][1..] == [];
  }

  lemma ReadsThen(source: string, s: State, e: Piece, r2: State, ps: seq<Piece>, r3: State, cs: seq<nat>)
    requires Indexed(s) && Indexed(r2) && Indexed(r3) && s.pos <= |source| && e.Elem? && e.close <= |source|
    requires Reads(source, s, [e], r2, [|s.nodes|]) && Reads(source, r2, ps, r3, cs)
    ensures Reads(source, s, [e] + ps, r3, [|s.nodes|] + cs)
  {
    hide Denotes;
    var n := |s.nodes|;
    assert ([e] + ps)[1..] == ps && ([n] + cs)[1..] == cs;
    assert Denotes(source, r2.nodes, n, e, s.pos);
    forall i | 0 <= i < n && s.stack != [] && i == s.stack[|s.stack| - 1]
      ensures r3.nodes[i].children == s.nodes[i].children + ([n] + cs)
    {
      assert s.nodes[i].children + ([n] + cs) == (s.nodes[i].children + [n]) + cs;
    }
    DenotesFrame(source, r2.nodes, r3.nodes, n, e, s.pos);
  }

  /**
   * From any state, the tokens of well-formed pieces leave the open elements open and add exactly the pieces' trees.
   */
  lemma {:induction false} ReadsPieces(source: string, s: State, ps: seq<Piece>) returns (cs: seq<nat>)
    requires Indexed(s) && Offsets(source, s.pos, Flatten(ps)) && s.pos <= |source|
    ensures Reads(source, s, ps, Run(source, s, Flatten(ps)), cs)
    decreases ps
  {
    hide Open, Close, ElementStart;
    if ps == [] {
      cs := [];
    } else if ps[0].Text? {
      assert Flatten(ps)[0] == Other(ps[0].after) && Flatten(ps)[1..] == Flatten(ps[1..]);
      OffsetsBound(source, ps[0].after, Flatten(ps[1..]));
      cs := ReadsPieces(source, s.(pos := ps[0].after), ps[1..]);
    } else {
      var s1, r1 := RunElem(source, s, ps);
      cs := ReadsElem(source, s, ps, s1, r1);
    }
  }

  lemma {:induction false} ReadsElem(source: string, s: State, ps: seq<Piece>, s1: State, r1: State)
    returns (cs: seq<nat>)
    requires Indexed(s) && s.pos <= |source| && ps != [] && ps[0].Elem?
    requires ps[0].open <= |source| && ps[0].close <= |source|
    requires s1 == Open(s, ps[0].tag.local, ElementStart(source, s.pos, ps[0].open), ps[0].open)
    requires Offsets(source, s1.pos, Flatten(ps[0].body)) && r1 == Run(source, s1, Flatten(ps[0].body))
    requires Offsets(source, ps[0].close, Flatten(ps[1..]))
    ensures Reads(source, s, ps, Run(source, Close(r1, ps[0].close), Flatten(ps[1..])), cs)
    decreases ps, 0
  {
    hide ElementStart, Reads, Run, Flatten;
    var body := ReadsPieces(source, s1, ps[0].body);
    ElementComplete(source, s, ps[0], s1, r1, body);
    var r2 := Close(r1, ps[0].close);
    var rest := ReadsPieces(source, r2, ps[1..]);
    ReadsThen(source, s, ps[0], r2, ps[1..], Run(source, r2, Flatten(ps[1..])), rest);
    assert ps == [ps[0]] + ps[1..];
    cs := [|s.nodes|] + rest;
  }

  /** A whole document read from scratch: nothing stays open, and element 0 is the first one written. */
  lemma ReadBack(source: string, ps: seq<Piece>) returns (cs: seq<nat>)
    requires Offsets(source, 0, Flatten(ps))
    ensures var s := Run(source, Init(), Flatten(ps));
            && s.stack == [] && Finish(source, s.nodes, s.stack) == s.nodes
            && DenoteAll(source, s.nodes, cs, ps, 0)
            && (cs != [] ==> cs[0] == 0)
  {
    cs := ReadsPieces(source, Init(), ps);
  }
}
