/** Exactly which dotted element names can clash with the names of nested elements. */
module XmlClash {
  import opened Decimal
  import opened Paths
  import opened XmlElements
  import opened XmlNames
  import opened XmlUnique

  /** What the decoder can deliver as an element's name: the local part of a name. */
  predicate IsLocal(prefixes: bool, s: string) {
    Plain(prefixes, s) && forall i | 0 <= i < |s| :: NameChar(s[i])
  }

  predicate NameChar(c: char) {
    StartChar(c) || IsDigit(c) || c == '-' || c == '.'
  }

  ghost predicate AllLocal(nodes: seq<Node>, prefixes: bool) {
    forall i | 0 <= i < |nodes| :: IsLocal(prefixes, nodes[i].name)
  }

  /** One link of a nested chain: this many namesakes, of which the chosen one holds the next link. */
  datatype Link = Link(name: string, siblings: nat, chosen: nat)

  function LinkSegment(l: Link): string {
    if l.siblings > 1 then l.name + "." + Render(l.chosen) else l.name
  }

  ghost predicate Sound(prefixes: bool, links: seq<Link>) {
    forall l | l in links :: l.chosen < l.siblings && '.' !in l.name && IsLocal(prefixes, l.name)
  }

  function Spelling(links: seq<Link>): string
    requires links != []
  {
    LinkSegment(links[0]) + if |links| == 1 then "" else "." + Spelling(links[1..])
  }

  lemma SpellingCons(l: Link, more: seq<Link>)
    requires more != []
    ensures Spelling([l] + more) == LinkSegment(l) + ("." + Spelling(more))
  {
    assert ([l] + more)[1..] == more;
  }

  lemma RegularTail(prefixes: bool, ps: seq<string>, n: nat)
    requires n < |ps| && Regular(prefixes, ps) && Plain(prefixes, ps[n])
    ensures Regular(prefixes, ps[n..])
  {
    forall m: nat ensures !Odd(prefixes, ps[n..], m) { assert !Odd(prefixes, ps, n + m); }
  }

  ghost predicate NameChars(ps: seq<string>) {
    forall p, i | p in ps && 0 <= i < |p| :: NameChar(p[i])
  }

  /** Regular pieces as a chain: a number makes the name before it one of sufficiently many. */
  lemma {:induction false} Links(prefixes: bool, ps: seq<string>) returns (links: seq<Link>)
    requires ps != [] && Regular(prefixes, ps) && DotFree(ps) && NameChars(ps)
    ensures links != [] && Sound(prefixes, links) && Spelling(links) == Join(ps)
    decreases |ps|
  {
    hide Spelling, Join, Regular, LinkSegment;
    var l, n := FirstOne(prefixes, ps);
    links := [l];
    if n < |ps| {
      RegularTail(prefixes, ps, n);
      var more := Links(prefixes, ps[n..]);
      links := [l] + more;
      SpellingCons(l, more);
    } else {
      SpellingOne(l);
    }
  }

  lemma SpellingOne(l: Link)
    ensures Spelling([l]) == LinkSegment(l)
  {
  }

  lemma Regroup(a: string, b: string, c: string)
    ensures a + ("." + (b + c)) == (a + "." + b) + c
  {
  }

  function Behind(ps: seq<string>): string {
    if ps == [] then "" else "." + Join(ps)
  }

  lemma JoinFirst(ps: seq<string>)
    requires ps != []
    ensures Join(ps) == ps[0] + Behind(ps[1..])
  {
    if |ps| == 1 { assert ps[0] + "" == ps[0]; }
  }

  /** The first link takes one piece or, if a number follows, two. */
  lemma FirstOne(prefixes: bool, ps: seq<string>) returns (l: Link, n: nat)
    requires ps != [] && Regular(prefixes, ps) && DotFree(ps) && NameChars(ps)
    ensures 0 < n <= |ps| && Sound(prefixes, [l]) && (n < |ps| ==> Plain(prefixes, ps[n]))
    ensures Join(ps) == LinkSegment(l) + Behind(ps[n..])
  {
    hide Join, Render;
    assert !Odd(prefixes, ps, 0) && ps[0] in ps;
    JoinFirst(ps);
    if |ps| > 1 && !Plain(prefixes, ps[1]) {
      assert !Odd(prefixes, ps, 1) && !Odd(prefixes, ps, 2);
      var k: nat :| ps[1] == Render(k);
      l, n := Link(ps[0], k + 2, k), 2;
      JoinFirst(ps[1..]);
      assert ps[1..][1..] == ps[2..];
      assert Behind(ps[1..]) == "." + (ps[1] + Behind(ps[2..]));
      Regroup(ps[0], ps[1], Behind(ps[2..]));
    } else {
      l, n := Link(ps[0], 1, 0), 1;
    }
  }

  /** The namesakes that start at index base. */
  function Row(links: seq<Link>, base: nat): seq<nat> {
    if links == [] then [] else seq(links[0].siblings, j requires 0 <= j < links[0].siblings => base + j)
  }

  /** The source the chain takes up, two characters for each element. */
  function Width(links: seq<Link>): nat {
    if links == [] then 0 else 2 * links[0].siblings + Width(links[1..])
  }

  /** The j-th namesake of the first row, which starts at index base and at this position of the source. */
  function RowNode(links: seq<Link>, base: nat, start: nat, j: nat): (node: Node)
    requires links != []
    ensures node.name == links[0].name
    ensures node.children == if j == links[0].chosen then Row(links[1..], base + links[0].siblings) else []
  {
    var l, inner := links[0], Width(links[1..]);
    var at := start + 2 * j + if j > l.chosen then inner else 0;
    if j == l.chosen then Node(l.name, at, at + 2 + inner, Row(links[1..], base + l.siblings))
    else Node(l.name, at, at + 2, [])
  }

  function FirstRow(links: seq<Link>, base: nat, start: nat): (row: seq<Node>)
    requires links != []
    ensures |row| == links[0].siblings && forall j | 0 <= j < |row| :: row[j] == RowNode(links, base, start, j)
  {
    seq(links[0].siblings, j requires 0 <= j => RowNode(links, base, start, j))
  }

  /** The nodes of the chain. */
  function Chain(links: seq<Link>, base: nat, start: nat): seq<Node> {
    if links == [] then []
    else
      FirstRow(links, base, start) + Chain(links[1..], base + links[0].siblings, start + 2 * links[0].chosen + 1)
  }

  function Below(links: seq<Link>, base: nat, start: nat): seq<Node>
    requires links != []
  {
    Chain(links[1..], base + links[0].siblings, start + 2 * links[0].chosen + 1)
  }

  lemma ChainStep(links: seq<Link>, base: nat, start: nat)
    requires links != []
    ensures var c, chain, below := links[0].siblings, Chain(links, base, start), Below(links, base, start);
            && |chain| == c + |below|
            && (forall i | 0 <= i < c :: chain[i] == RowNode(links, base, start, i))
            && (forall i | c <= i < |chain| :: chain[i] == below[i - c])
            && chain[c..] == below
  {
    hide RowNode, FirstRow;
    assert Chain(links, base, start) == FirstRow(links, base, start) + Below(links, base, start);
    hide Chain;
  }

  lemma RowFits(links: seq<Link>, base: nat, start: nat)
    ensures |Row(links, base)| <= |Chain(links, base, start)|
    ensures forall c | c in Row(links, base) :: base <= c < base + |Chain(links, base, start)|
  {
    if links != [] { ChainStep(links, base, start); }
  }

  /** `r` holding the chain, next to an element with the dotted name. */
  function Doc(links: seq<Link>, dotted: string): (nodes: seq<Node>) {
    var chain, w := Chain(links, 1, 1), Width(links);
    [Node("r", 0, w + 4, Row(links, 1) + [|chain| + 1])] + chain + [Node(dotted, w + 1, w + 3, [])]
  }

  /** The i-th node from index base on has only children up to this index, and a proper name without dots. */
  ghost predicate LinkNode(prefixes: bool, n: Node, i: nat, end: nat) {
    && (forall c | c in n.children :: i < c < end)
    && '.' !in n.name && IsLocal(prefixes, n.name)
  }

  lemma {:induction false} ChainNodes(prefixes: bool, links: seq<Link>, base: nat, start: nat)
    requires Sound(prefixes, links)
    ensures var nodes := Chain(links, base, start);
            forall i | 0 <= i < |nodes| :: LinkNode(prefixes, nodes[i], base + i, base + |nodes|)
  {
    hide Chain, IsLocal;
    if links == [] {
      NoChain(base, start);
    } else {
      var c, nodes, below := links[0].siblings, Chain(links, base, start), Below(links, base, start);
      ChainStep(links, base, start);
      ChainNodes(prefixes, links[1..], base + c, start + 2 * links[0].chosen + 1);
      forall i | 0 <= i < |nodes| ensures LinkNode(prefixes, nodes[i], base + i, base + |nodes|) {
        if i < c {
          RowFits(links[1..], base + c, start + 2 * links[0].chosen + 1);
        } else {
          var k := i - c;
          assert nodes[i] == below[k] == Chain(links[1..], base + c, start + 2 * links[0].chosen + 1)[k];
        }
      }
    }
  }

  lemma NoChain(base: nat, start: nat)
    ensures Chain([], base, start) == []
  {
  }

  lemma DocStep(links: seq<Link>, dotted: string)
    ensures var chain, nodes := Chain(links, 1, 1), Doc(links, dotted);
            && |nodes| == |chain| + 2 && nodes[0].name == "r" && nodes[0].children == Row(links, 1) + [|chain| + 1]
            && (forall i | 0 < i <= |chain| :: nodes[i] == chain[i - 1]) && nodes[1..1 + |chain|] == chain
            && nodes[|chain| + 1].name == dotted && nodes[|chain| + 1].children == []
  {
    hide Chain, Row;
  }

  lemma DocNodes(prefixes: bool, links: seq<Link>, dotted: string)
    requires links != [] && Sound(prefixes, links) && IsLocal(prefixes, dotted) && '.' in dotted
    ensures var nodes := Doc(links, dotted);
            Ordered(nodes) && AllLocal(nodes, prefixes) && OnlyDotted(nodes, dotted, prefixes)
  {
    hide Chain, Row, Doc;
    var nodes := Doc(links, dotted);
    ChainNodes(prefixes, links, 1, 1);
    DocStep(links, dotted);
    RowFits(links, 1, 1);
  }

  /** A child and what is below it are among what is emitted for its parent. */
  lemma {:induction false} ChildListed(nodes: seq<Node>, i: nat, j: nat, k: nat, path: string)
    requires Ordered(nodes) && i < |nodes| && j <= k < |nodes[i].children| && Names(nodes, i)[k] != ""
    ensures var c, qn := nodes[i].children[k], ChildName(nodes, i, k, path);
            && i < c < |nodes| && Named(c, qn) in Emitted(nodes, i, j, path)
            && forall e | e in Emitted(nodes, c, 0, qn) :: e in Emitted(nodes, i, j, path)
    decreases k - j
  {
    hide Emitted, Names, Segment;
    EmittedStep(nodes, i, j, path);
    if j < k {
      ChildListed(nodes, i, j + 1, k, path);
    } else {
      var qn := NameOf(nodes, i, k, path);
    }
  }

  /** Of n names the first c are x. */
  lemma {:induction false} Counted(names: seq<string>, x: string, c: nat, n: nat)
    requires c <= |names| && n <= |names| && forall j | 0 <= j < |names| :: names[j] == x <==> j < c
    ensures Occurrences(names[..n], x) == if n < c then n else c
  {
    if n > 0 {
      Counted(names, x, c, n - 1);
      OccurrencesStep(names, n - 1);
    }
  }

  lemma ChosenSegment(names: seq<string>, l: Link)
    requires l.chosen < l.siblings <= |names|
    requires forall j | 0 <= j < |names| :: names[j] == l.name <==> j < l.siblings
    ensures Segment(names, l.chosen) == LinkSegment(l)
  {
    hide Occurrences, Render;
    Counted(names, l.name, l.siblings, |names|);
    Counted(names, l.name, l.siblings, l.chosen);
    assert names[..|names|] == names;
  }

  /** Here the chain's nodes stand, below p, which has at most one more child, of another name. */
  ghost predicate Holds(nodes: seq<Node>, p: nat, links: seq<Link>, base: nat, start: nat, more: seq<nat>) {
    && Ordered(nodes) && p < |nodes| && nodes[p].children == Row(links, base) + more
    && (forall c | c in more :: c < |nodes| && '.' in nodes[c].name)
    && base + |Chain(links, base, start)| <= |nodes|
    && nodes[base..base + |Chain(links, base, start)|] == Chain(links, base, start)
  }

  lemma HeldNodes(nodes: seq<Node>, p: nat, links: seq<Link>, base: nat, start: nat, more: seq<nat>)
    requires links != [] && Holds(nodes, p, links, base, start, more)
    ensures var l, chain, below := links[0], Chain(links, base, start), Below(links, base, start);
            && |chain| == l.siblings + |below| && base + |chain| <= |nodes|
            && (forall j | 0 <= j < l.siblings :: nodes[base + j] == RowNode(links, base, start, j))
            && nodes[base + l.siblings..base + |chain|] == below
  {
    hide RowNode, Chain, Ordered;
    ChainStep(links, base, start);
    var c, chain := links[0].siblings, Chain(links, base, start);
    forall j | 0 <= j < |chain| ensures nodes[base + j] == chain[j] {
      assert nodes[base..base + |chain|][j] == nodes[base + j];
    }
    assert nodes[base + c..base + |chain|] == chain[c..];
  }

  lemma HeldNames(prefixes: bool, nodes: seq<Node>, p: nat, links: seq<Link>, base: nat, start: nat, more: seq<nat>)
    requires links != [] && Sound(prefixes, links) && Holds(nodes, p, links, base, start, more)
    ensures var l, names := links[0], Names(nodes, p);
            && l.chosen < l.siblings <= |names| && nodes[p].children[l.chosen] == base + l.chosen
            && forall j | 0 <= j < |names| :: names[j] == l.name <==> j < l.siblings
  {
    hide Chain;
    HeldNodes(nodes, p, links, base, start, more);
    var l, names := links[0], Names(nodes, p);
    assert l in links;
    forall j | 0 <= j < |names| ensures names[j] == l.name <==> j < l.siblings {
      if j < l.siblings {
        assert nodes[p].children[j] == base + j && nodes[base + j] == RowNode(links, base, start, j);
      } else {
        assert nodes[p].children[j] == more[j - l.siblings] && more[j - l.siblings] in more;
      }
    }
  }

  /** The chosen child of the first row. */
  lemma FirstLink(prefixes: bool, nodes: seq<Node>, p: nat, links: seq<Link>, base: nat, start: nat, more: seq<nat>)
    requires links != [] && Sound(prefixes, links) && Holds(nodes, p, links, base, start, more)
    ensures var l, c, below := links[0], base + links[0].chosen, Below(links, base, start);
            && Ordered(nodes) && p < |nodes| && c < |nodes|
            && l.chosen < |nodes[p].children| && nodes[p].children[l.chosen] == c
            && Names(nodes, p)[l.chosen] == l.name != "" && Segment(Names(nodes, p), l.chosen) == LinkSegment(l)
            && Holds(nodes, c, links[1..], base + l.siblings, start + 2 * l.chosen + 1, [])
            && |Chain(links, base, start)| == l.siblings + |below| && l.chosen < l.siblings
  {
    hide Segment, Chain, LinkSegment, NameChar, RowNode, Row;
    assert links[0] in links;
    HeldNodes(nodes, p, links, base, start, more);
    HeldNames(prefixes, nodes, p, links, base, start, more);
    ChosenSegment(Names(nodes, p), links[0]);
    HeldBelow(nodes, p, links, base, start, more);
  }

  lemma HeldBelow(nodes: seq<Node>, p: nat, links: seq<Link>, base: nat, start: nat, more: seq<nat>)
    requires links != [] && links[0].chosen < links[0].siblings && Holds(nodes, p, links, base, start, more)
    ensures Holds(nodes, base + links[0].chosen, links[1..], base + links[0].siblings,
                  start + 2 * links[0].chosen + 1, [])
  {
    hide Chain, RowNode, Ordered, Row;
    HeldNodes(nodes, p, links, base, start, more);
    var below := Row(links[1..], base + links[0].siblings);
    assert nodes[base + links[0].chosen] == RowNode(links, base, start, links[0].chosen) && below == below + [];
  }

  /** The chain ends in an element whose name spells the whole chain. */
  lemma {:induction false} ChainEmits(prefixes: bool, nodes: seq<Node>, p: nat, links: seq<Link>, base: nat,
                                      start: nat, more: seq<nat>, path: string) returns (e: Named)
    requires links != [] && Sound(prefixes, links) && Holds(nodes, p, links, base, start, more)
    ensures p < |nodes| && Ordered(nodes) && e in Emitted(nodes, p, 0, path)
    ensures e.qn == path + "." + Spelling(links) && e.element < base + |Chain(links, base, start)|
    decreases |links|
  {
    hide Emitted, Segment, Names, Chain, Holds, LinkSegment, IsLocal;
    FirstLink(prefixes, nodes, p, links, base, start, more);
    var l, c := links[0], base + links[0].chosen;
    ChildListed(nodes, p, 0, l.chosen, path);
    var qn := NameOf(nodes, p, l.chosen, path);
    e := Named(c, qn);
    if |links| > 1 {
      e := ChainEmits(prefixes, nodes, c, links[1..], base + l.siblings, start + 2 * l.chosen + 1, [], qn);
      assert path + "." + (LinkSegment(l) + ("." + Spelling(links[1..]))) == qn + "." + Spelling(links[1..]);
    }
  }

  /** In that document the end of the chain and the element next to it share their name. */
  lemma ChainClashes(prefixes: bool, links: seq<Link>)
    requires links != [] && Sound(prefixes, links) && '.' in Spelling(links) && IsLocal(prefixes, Spelling(links))
    ensures var nodes := Doc(links, Spelling(links));
            && Ordered(nodes) && AllLocal(nodes, prefixes) && OnlyDotted(nodes, Spelling(links), prefixes)
            && !Distinct(Document(nodes))
  {
    hide *;
    var dotted := Spelling(links);
    var nodes, n := Doc(links, dotted), |Chain(links, 1, 1)|;
    DocNodes(prefixes, links, dotted);
    DocHolds(prefixes, links, dotted);
    var e := ChainEmits(prefixes, nodes, 0, links, 1, 1, [n + 1], "r");
    var f := WholeEmitted(prefixes, links, dotted);
    DocEmits(links, dotted);
    NotDistinct(Document(nodes), e, f);
  }

  lemma DocHolds(prefixes: bool, links: seq<Link>, dotted: string)
    requires links != [] && Sound(prefixes, links) && '.' in dotted && Ordered(Doc(links, dotted))
    ensures Holds(Doc(links, dotted), 0, links, 1, 1, [|Chain(links, 1, 1)| + 1])
  {
    hide Chain, Row, Doc, Sound;
    DocStep(links, dotted);
  }

  lemma DocEmits(links: seq<Link>, dotted: string)
    requires Ordered(Doc(links, dotted))
    ensures forall e | e in Emitted(Doc(links, dotted), 0, 0, "r") :: e in Document(Doc(links, dotted))
  {
    hide Chain, Row, Emitted, Doc;
    DocStep(links, dotted);
  }

  lemma WholeSegment(prefixes: bool, links: seq<Link>, dotted: string)
    requires links != [] && Sound(prefixes, links) && '.' in dotted && Ordered(Doc(links, dotted))
    ensures var nodes, n := Doc(links, dotted), |Row(links, 1)|;
            && n < |nodes[0].children| && nodes[0].children[n] == |Chain(links, 1, 1)| + 1 && n < |Names(nodes, 0)|
            && Names(nodes, 0)[n] == dotted && (forall j | 0 <= j < n :: Names(nodes, 0)[j] != dotted)
            && |Names(nodes, 0)| == n + 1
  {
    hide Chain, Doc, IsLocal, Ordered;
    var nodes, n := Doc(links, dotted), |Row(links, 1)|;
    DocStep(links, dotted);
    RowFits(links, 1, 1);
    ChainNodes(prefixes, links, 1, 1);
    var chain := Chain(links, 1, 1);
    forall j | 0 <= j < n ensures Names(nodes, 0)[j] != dotted {
      assert nodes[0].children[j] == Row(links, 1)[j] == 1 + j && nodes[1 + j] == chain[j];
      assert LinkNode(prefixes, chain[j], 1 + j, 1 + |chain|);
    }
  }

  lemma LastSegment(names: seq<string>, n: nat)
    requires |names| == n + 1 && forall j | 0 <= j < n :: names[j] != names[n]
    ensures Segment(names, n) == names[n]
  {
    Counted(names[..n], names[n], 0, n);
    OccurrencesStep(names, n);
    assert names[..n + 1] == names && names[..n][..n] == names[..n];
  }

  /** The element with the dotted name has no namesakes. */
  lemma WholeEmitted(prefixes: bool, links: seq<Link>, dotted: string) returns (f: Named)
    requires links != [] && Sound(prefixes, links) && '.' in dotted && Ordered(Doc(links, dotted))
    ensures f in Emitted(Doc(links, dotted), 0, 0, "r") && f == Named(|Chain(links, 1, 1)| + 1, "r" + "." + dotted)
  {
    hide Emitted, Segment, Chain, Row, Names, Ordered, Sound;
    var nodes, n := Doc(links, dotted), |Row(links, 1)|;
    WholeSegment(prefixes, links, dotted);
    LastSegment(Names(nodes, 0), n);
    ChildListed(nodes, 0, 0, n, "r");
    var qn := NameOf(nodes, 0, n, "r");
    f := Named(|Chain(links, 1, 1)| + 1, qn);
  }

  lemma NotDistinct(es: seq<Named>, e: Named, f: Named)
    requires e in es && f in es && e != f && e.qn == f.qn
    ensures !Distinct(es)
  {
    var a :| 0 <= a < |es| && es[a] == e;
    var b :| 0 <= b < |es| && es[b] == f;
    assert a < b || b < a;
  }

  /** Some document of names the decoder can deliver, this one the only dotted one, has two elements of one name. */
  ghost predicate CanClash(prefixes: bool, dotted: string) {
    exists nodes ::
      && Ordered(nodes) && AllLocal(nodes, prefixes) && OnlyDotted(nodes, dotted, prefixes)
      && !Distinct(Document(nodes))
  }

  /**
   * A dotted name can clash, in a document where it is the only dotted one, exactly if each of its pieces is a name or
   * the number of a namesake behind one; if elements may carry namespace prefixes, exactly if no piece is empty.
   */
  lemma ClashIff(prefixes: bool, dotted: string)
    requires IsLocal(prefixes, dotted) && '.' in dotted
    ensures CanClash(prefixes, dotted) <==> Regular(prefixes, Pieces(dotted))
    ensures prefixes ==> (CanClash(prefixes, dotted) <==> forall p | p in Pieces(dotted) :: p != "")
  {
    var ps := Pieces(dotted);
    PiecesDotFree(dotted);
    if Regular(prefixes, ps) {
      PiecesJoin(dotted);
      PiecesLocal(dotted);
      var links := Links(prefixes, ps);
      ChainClashes(prefixes, links);
    } else {
      forall nodes | Ordered(nodes) && OnlyDotted(nodes, dotted, prefixes) ensures Distinct(Document(nodes)) {
        IrregularDistinct(nodes, dotted, prefixes);
      }
    }
    if prefixes { PrefixedRegular(ps); }
  }

  /** `a.1` is what the second of two `a` is called; `1b` takes an element `p:1b`. */
  lemma NumbersClash()
    ensures CanClash(false, "a.1") && !CanClash(false, "a.1b") && CanClash(true, "a.1b")
  {
    hide CanClash, Pieces;
    TwoPieces("a", "1");
    TwoPieces("a", "1b");
    assert "a" + "." + "1" == "a.1" && "a" + "." + "1b" == "a.1b";
    ClashIff(false, "a.1");
    ClashIff(false, "a.1b");
    ClashIff(true, "a.1b");
    assert Render(1) == "1";
    NoNumber();
    assert Odd(false, ["a", "1b"], 1);
    assert Pieces("a.1b") == ["a", "1b"];
  }

  lemma NoNumber()
    ensures !IsNumber("1b")
  {
    forall n: nat ensures Render(n) != "1b" { assert IsDigit(Render(n)[|Render(n)| - 1]) && !IsDigit('b'); }
  }

  lemma TwoPieces(a: string, b: string)
    requires '.' !in a && '.' !in b
    ensures Pieces(a + "." + b) == [a, b]
  {
    OnePiece(a);
    OnePiece(b);
    PiecesApart(a, b);
  }

  lemma PrefixedRegular(ps: seq<string>)
    ensures Regular(true, ps) <==> forall p | p in ps :: p != ""
  {
    if Regular(true, ps) {
      forall m | 0 <= m < |ps| ensures ps[m] != "" { assert !Odd(true, ps, m); }
    } else {
      var m: nat :| Odd(true, ps, m);
      assert ps[m] in ps;
    }
  }

  lemma {:induction false} PiecesLocal(s: string)
    requires forall i | 0 <= i < |s| :: NameChar(s[i])
    ensures NameChars(Pieces(s))
  {
    if s != "" {
      var ps := Pieces(s[1..]);
      PiecesLocal(s[1..]);
      assert ps[0] in ps && forall p | p in ps[1..] :: p in ps;
    }
  }

  /** A pair of siblings of different names. */
  lemma PairSegments(a: string, b: string)
    requires a != b
    ensures Segment([a, b], 0) == a && Segment([a, b], 1) == b
  {
    assert [a, b][..1] == [a] && [a][..0] == [];
    assert Occurrences([a], a) == 1 && Occurrences([a], b) == 0;
  }

  function DottedDoc(): (nodes: seq<Node>)
    ensures Ordered(nodes) && |nodes| == 4
    ensures nodes[0].children == [1, 3] && nodes[1].children == [2] && nodes[2].children == []
            && nodes[3].children == []
    ensures nodes[0].name == "r" && nodes[1].name == "a" && nodes[2].name == "b" && nodes[3].name == "a.b"
  {
    [Node("r", 0, 9, [1, 3]), Node("a", 1, 4, [2]), Node("b", 2, 3, []), Node("a.b", 5, 8, [])]
  }

  /** With dots two elements can share a name: `a` holding `b`, next to an element called `a.b`. */
  lemma DottedNamesClash()
    ensures Document(DottedDoc()) == [Named(0, "r"), Named(1, "r.a"), Named(2, "r.a.b"), Named(3, "r.a.b")]
  {
    hide Emitted, Segment, Names, DottedDoc, Occurrences, Render, Ordered;
    var nodes := DottedDoc();
    DottedSegments();
    assert Emitted(nodes, 1, 0, "r.a") == [Named(2, "r.a.b")] by {
      EmittedStep(nodes, 1, 0, "r.a");
      EmittedStep(nodes, 2, 0, "r.a.b");
      EmittedStep(nodes, 1, 1, "r.a");
    }
    assert Emitted(nodes, 0, 1, "r") == [Named(3, "r.a.b")] by {
      EmittedStep(nodes, 0, 1, "r");
      EmittedStep(nodes, 3, 0, "r.a.b");
      EmittedStep(nodes, 0, 2, "r");
    }
    EmittedStep(nodes, 0, 0, "r");
  }

  lemma DottedSegments()
    ensures "r" + "." + Segment(Names(DottedDoc(), 0), 0) == "r.a"
    ensures "r" + "." + Segment(Names(DottedDoc(), 0), 1) == "r.a.b"
    ensures "r.a" + "." + Segment(Names(DottedDoc(), 1), 0) == "r.a.b"
  {
    assert Names(DottedDoc(), 0) == ["a", "a.b"] && Names(DottedDoc(), 1) == ["b"];
    PairSegments("a", "a.b");
    assert ["b"][..0] == [];
  }
}
