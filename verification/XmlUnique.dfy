/** When the qualified names of XML elements are unique. */
module XmlUnique {
  import opened Decimal
  import opened Paths
  import opened XmlElements
  import opened XmlNames

  /** q is p itself or continues it with a dot. */
  predicate Continues(p: string, q: string) {
    p <= q && (|q| > |p| ==> q[|p|] == '.')
  }

  lemma NotShorter(a: string, x: string, b: string, y: string, stop: char)
    requires a + x == b + y && stop !in b && (x == "" || x[0] == stop)
    ensures |a| >= |b|
  {
    assert x != "" ==> (a + x)[|a|] == stop;
    forall i | 0 <= i < |b| ensures (b + y)[i] != stop { assert (b + y)[i] == b[i]; }
  }

  /** The text before the first stop character is determined. */
  lemma SamePrefix(a: string, x: string, b: string, y: string, stop: char)
    requires a + x == b + y && stop !in a && stop !in b
    requires (x == "" || x[0] == stop) && (y == "" || y[0] == stop)
    ensures a == b && x == y
  {
    var s := a + x;
    NotShorter(a, x, b, y, stop);
    NotShorter(b, y, a, x, stop);
    assert s[..|a|] == a && s[..|b|] == b && s[|a|..] == x && s[|b|..] == y;
  }

  /** No name continues the segments of two different siblings that share their name or have no dots in it. */
  lemma SameNumber(names: seq<string>, j: nat, k: nat, q: string)
    requires j < |names| && k < |names|
    requires names[j] == names[k] || ('.' !in names[j] && '.' !in names[k])
    requires Continues(Segment(names, j), q) && Continues(Segment(names, k), q)
    ensures j == k
  {
    hide Occurrences, Render;
    var a, b := names[j], names[k];
    ContinuesName(names, j, q);
    ContinuesName(names, k, q);
    if a != b { SamePrefix(a, q[|a|..], b, q[|b|..], '.'); }
    if j < k { RanksDiffer(names, j, k); }
    if k < j { RanksDiffer(names, k, j); }
    if j != k { SameRank(a, Occurrences(names[..j], a), Occurrences(names[..k], a), q); }
  }

  lemma ContinuesName(names: seq<string>, k: nat, q: string)
    requires k < |names| && Continues(Segment(names, k), q)
    ensures names[k] <= q && q == names[k] + q[|names[k]|..] && Continues(names[k], q)
  {
    assert names[k] <= Segment(names, k);
  }

  lemma SameRank(name: string, m: nat, n: nat, q: string)
    requires Continues(name + "." + Render(m), q) && Continues(name + "." + Render(n), q)
    ensures m == n
  {
    hide Render;
    var t := q[|name| + 1..];
    var x, y := t[|Render(m)|..], t[|Render(n)|..];
    assert q == name + "." + Render(m) + q[|name| + 1 + |Render(m)|..];
    assert q == name + "." + Render(n) + q[|name| + 1 + |Render(n)|..];
    assert t == Render(m) + x && t == Render(n) + y;
    SamePrefix(Render(m), x, Render(n), y, '.');
    RenderInjective(m, n);
  }

  ghost predicate Distinct(es: seq<Named>) {
    forall a, b | 0 <= a < b < |es| :: es[a].qn != es[b].qn
  }

  /** A name can stand for a whole piece: without namespace prefixes it has to start like an XML name. */
  predicate Plain(prefixes: bool, s: string) {
    s != "" && (prefixes || StartChar(s[0]))
  }

  /** Letters, `_` and what is beyond ASCII. */
  predicate StartChar(c: char) {
    'a' <= c <= 'z' || 'A' <= c <= 'Z' || c == '_' || c >= 128 as char
  }

  ghost predicate IsNumber(s: string) {
    exists n: nat :: s == Render(n)
  }

  /** The m-th piece is neither a name nor the number of a namesake behind one. */
  ghost predicate Odd(prefixes: bool, ps: seq<string>, m: nat) {
    && m < |ps| && !Plain(prefixes, ps[m])
    && !(m > 0 && Plain(prefixes, ps[m - 1]) && IsNumber(ps[m]))
  }

  /** Every piece is a name or the number of a namesake behind one. */
  ghost predicate Regular(prefixes: bool, ps: seq<string>) {
    forall m: nat :: !Odd(prefixes, ps, m)
  }

  /** The one dotted name, its first odd piece, and whether names may have carried a namespace prefix. */
  datatype Dotted = Dotted(name: string, first: nat, prefixes: bool)

  ghost predicate Irregular(d: Dotted) {
    '.' in d.name && Odd(d.prefixes, Pieces(d.name), d.first) && Clean(d.name, d)
  }

  /** No odd piece before the first one of the dotted name. */
  ghost predicate Clean(t: string, d: Dotted) {
    forall m: nat | m < d.first :: !Odd(d.prefixes, Pieces(t), m)
  }

  /** Every name is free of dots or is this one. */
  ghost predicate OnlyDotted(nodes: seq<Node>, dotted: string, prefixes: bool) {
    forall i | 0 <= i < |nodes| ::
      nodes[i].name == dotted || ('.' !in nodes[i].name && (nodes[i].name == "" || Plain(prefixes, nodes[i].name)))
  }

  /** Behind regular pieces the odd ones are those of the rest. */
  lemma OddBehind(prefixes: bool, ps: seq<string>, qs: seq<string>, m: nat)
    requires Regular(prefixes, ps)
    ensures Odd(prefixes, ps + qs, m) ==> m >= |ps| && Odd(prefixes, qs, m - |ps|)
  {
    assert !Odd(prefixes, ps, m);
  }

  /** A continuation starts with the pieces of its beginning. */
  lemma PiecesContinue(n: string, t: string)
    requires Continues(n, t)
    ensures Pieces(n) <= Pieces(t)
  {
    if |t| > |n| {
      PiecesApart(n, t[|n| + 1..]);
      assert t == n + "." + t[|n| + 1..];
    }
  }

  lemma OddWithin(prefixes: bool, ps: seq<string>, qs: seq<string>, m: nat)
    requires ps <= qs && m < |ps|
    ensures Odd(prefixes, qs, m) <==> Odd(prefixes, ps, m)
  {
  }

  /** The segment of a dot-free name is regular. */
  lemma SegmentRegular(prefixes: bool, names: seq<string>, k: nat)
    requires k < |names| && '.' !in names[k] && Plain(prefixes, names[k])
    ensures Regular(prefixes, Pieces(Segment(names, k)))
  {
    hide Render, Occurrences, Plain;
    var x, r := names[k], Render(Occurrences(names[..k], names[k]));
    OnePiece(x);
    OnePiece(r);
    PiecesApart(x, r);
  }

  lemma SegmentContinues(names: seq<string>, k: nat)
    requires k < |names|
    ensures Continues(names[k], Segment(names, k))
  {
  }

  /** Some text has its first odd piece where the dotted name has, exactly if it begins with that name. */
  ghost predicate Marked(t: string, isDotted: bool, d: Dotted) {
    Clean(t, d) && (Odd(d.prefixes, Pieces(t), d.first) <==> isDotted)
  }

  lemma DottedMarked(t: string, d: Dotted)
    requires Irregular(d) && Continues(d.name, t)
    ensures Marked(t, true, d)
  {
    PiecesContinue(d.name, t);
    forall m: nat | m <= d.first
      ensures Odd(d.prefixes, Pieces(t), m) <==> Odd(d.prefixes, Pieces(d.name), m) {
      OddWithin(d.prefixes, Pieces(d.name), Pieces(t), m);
    }
  }

  ghost predicate OneOf(name: string, d: Dotted) {
    name == d.name || ('.' !in name && Plain(d.prefixes, name))
  }

  lemma SegmentMarked(names: seq<string>, m: nat, d: Dotted)
    requires m < |names| && OneOf(names[m], d) && Irregular(d)
    ensures Marked(Segment(names, m), names[m] == d.name, d)
  {
    hide Segment, Odd;
    SegmentContinues(names, m);
    if names[m] == d.name { DottedMarked(Segment(names, m), d); } else { SegmentRegular(d.prefixes, names, m); }
  }

  lemma BelowMarked(names: seq<string>, m: nat, d: Dotted, below: string)
    requires m < |names| && OneOf(names[m], d) && Irregular(d) && Clean(below, d)
    ensures Marked(Segment(names, m) + "." + below, names[m] == d.name, d)
  {
    hide Segment, Odd;
    SegmentContinues(names, m);
    var seg := Segment(names, m);
    if names[m] == d.name {
      ContinuesOn(d.name, seg, below);
      DottedMarked(seg + "." + below, d);
    } else {
      SegmentRegular(d.prefixes, names, m);
      PiecesApart(seg, below);
      forall k: nat | k <= d.first ensures !Odd(d.prefixes, Pieces(seg + "." + below), k) {
        OddBehind(d.prefixes, Pieces(seg), Pieces(below), k);
      }
    }
  }

  lemma ContinuesOn(a: string, b: string, below: string)
    requires Continues(a, b)
    ensures Continues(a, b + "." + below)
  {
    var t := b + "." + below;
    assert t[..|b|] == b && t[|b|] == '.';
    assert |b| > |a| ==> t[|a|] == b[|a|];
  }

  /** The part of a qualified name behind the path and its dot. */
  function Rel(path: string, qn: string): string {
    if |qn| > |path| then qn[|path| + 1..] else ""
  }

  /** The qualified name of the m-th child or of something below it. */
  ghost predicate FromChild(nodes: seq<Node>, i: nat, m: nat, path: string, d: Dotted, qn: string)
    requires Ordered(nodes) && i < |nodes| && m < |nodes[i].children|
  {
    && Continues(ChildName(nodes, i, m, path), qn)
    && path + "." <= qn && Marked(Rel(path, qn), Names(nodes, i)[m] == d.name, d)
  }

  ghost predicate FromSome(nodes: seq<Node>, i: nat, k: nat, path: string, d: Dotted, qn: string)
    requires Ordered(nodes) && i < |nodes|
  {
    exists m | k <= m < |nodes[i].children| :: FromChild(nodes, i, m, path, d, qn)
  }

  lemma NameOf(nodes: seq<Node>, i: nat, k: nat, path: string) returns (qn: string)
    requires Ordered(nodes) && i < |nodes| && k < |nodes[i].children|
    ensures qn == ChildName(nodes, i, k, path) == path + "." + Segment(Names(nodes, i), k)
  {
    qn := ChildName(nodes, i, k, path);
  }

  /** A child's own name. */
  lemma ChildFrom(nodes: seq<Node>, i: nat, k: nat, path: string, d: Dotted)
    requires Ordered(nodes) && OnlyDotted(nodes, d.name, d.prefixes) && Irregular(d)
    requires i < |nodes| && k < |nodes[i].children| && Names(nodes, i)[k] != ""
    ensures FromChild(nodes, i, k, path, d, ChildName(nodes, i, k, path))
  {
    hide Marked, Segment;
    var names := Names(nodes, i);
    var qn := NameOf(nodes, i, k, path);
    SegmentMarked(names, k, d);
    assert qn[|path| + 1..] == Segment(names, k);
    assert qn[..|path| + 1] == path + ".";
  }

  /** A name below a child. */
  lemma BelowFrom(nodes: seq<Node>, i: nat, k: nat, path: string, d: Dotted, qn: string)
    requires Ordered(nodes) && OnlyDotted(nodes, d.name, d.prefixes) && Irregular(d)
    requires i < |nodes| && k < |nodes[i].children| && Names(nodes, i)[k] != ""
    requires var own := ChildName(nodes, i, k, path); own + "." <= qn && Clean(Rel(own, qn), d)
    ensures FromChild(nodes, i, k, path, d, qn) && qn != ChildName(nodes, i, k, path)
  {
    hide Marked, Segment, Clean;
    var names := Names(nodes, i);
    var own := NameOf(nodes, i, k, path);
    BelowMarked(names, k, d, Rel(own, qn));
    assert qn[..|own| + 1] == own + ".";
    assert qn == path + "." + (Segment(names, k) + "." + Rel(own, qn));
    assert qn[|path| + 1..] == Segment(names, k) + "." + Rel(own, qn);
    assert qn[..|path| + 1] == path + ".";
    assert own <= qn && qn[|own|] == '.';
  }

  /** Everything emitted from the k-th child on comes from one of those children. */
  lemma {:induction false} EmittedFrom(nodes: seq<Node>, i: nat, k: nat, path: string, d: Dotted)
    requires Ordered(nodes) && OnlyDotted(nodes, d.name, d.prefixes) && Irregular(d)
    requires i < |nodes| && k <= |nodes[i].children|
    ensures forall e | e in Emitted(nodes, i, k, path) :: FromSome(nodes, i, k, path, d, e.qn)
    decreases |nodes| - i, |nodes[i].children| - k
  {
    hide Ordered, OnlyDotted, Irregular, FromSome, Emitted, Names, ChildName;
    if k < |nodes[i].children| {
      EmittedFrom(nodes, i, k + 1, path, d);
      if Names(nodes, i)[k] != "" { OwnFrom(nodes, i, k, path, d); }
    }
    FromJoin(nodes, i, k, path, d);
  }

  /** The names of the k-th child and below, and those of the later children. */
  lemma FromJoin(nodes: seq<Node>, i: nat, k: nat, path: string, d: Dotted)
    requires Ordered(nodes) && i < |nodes| && k <= |nodes[i].children|
    requires k < |nodes[i].children| ==>
               && (forall e | e in Emitted(nodes, i, k + 1, path) :: FromSome(nodes, i, k + 1, path, d, e.qn))
               && (Names(nodes, i)[k] != "" ==>
                     var c, own := nodes[i].children[k], ChildName(nodes, i, k, path);
                     && c < |nodes| && FromChild(nodes, i, k, path, d, own)
                     && forall e | e in Emitted(nodes, c, 0, own) :: FromChild(nodes, i, k, path, d, e.qn))
    ensures forall e | e in Emitted(nodes, i, k, path) :: FromSome(nodes, i, k, path, d, e.qn)
  {
    EmittedStep(nodes, i, k, path);
    if k < |nodes[i].children| { var qn := NameOf(nodes, i, k, path); }
    hide Ordered, FromChild, Emitted, Names, ChildName;
  }

  /** What a child and the elements below it are named. */
  lemma {:induction false} OwnFrom(nodes: seq<Node>, i: nat, k: nat, path: string, d: Dotted)
    requires Ordered(nodes) && OnlyDotted(nodes, d.name, d.prefixes) && Irregular(d)
    requires i < |nodes| && k < |nodes[i].children| && Names(nodes, i)[k] != ""
    ensures var c, own := nodes[i].children[k], ChildName(nodes, i, k, path);
            && i < c < |nodes|
            && FromChild(nodes, i, k, path, d, own)
            && forall e | e in Emitted(nodes, c, 0, own) :: FromChild(nodes, i, k, path, d, e.qn) && e.qn != own
    decreases |nodes| - i, |nodes[i].children| - k, 0
  {
    hide OnlyDotted, Irregular, ChildName, Names;
    EmittedStep(nodes, i, k, path);
    var c, own := nodes[i].children[k], ChildName(nodes, i, k, path);
    ChildFrom(nodes, i, k, path, d);
    EmittedFrom(nodes, c, 0, own, d);
    forall e | e in Emitted(nodes, c, 0, own)
      ensures FromChild(nodes, i, k, path, d, e.qn) && e.qn != own
    {
      BelowFrom(nodes, i, k, path, d, e.qn);
    }
  }

  lemma ContinuesSegment(path: string, seg: string, q: string)
    requires Continues(path + "." + seg, q)
    ensures |path| + 1 <= |q| && Continues(seg, q[|path| + 1..])
  {
    var p := path + "." + seg;
    assert seg == p[|path| + 1..];
    assert q[..|p|] == p;
    assert q[|path| + 1..][..|seg|] == seg;
  }

  /** No name comes from two different children. */
  lemma ChildrenDiverge(nodes: seq<Node>, i: nat, j: nat, k: nat, path: string, d: Dotted, q: string)
    requires Ordered(nodes) && OnlyDotted(nodes, d.name, d.prefixes)
    requires i < |nodes| && j < |nodes[i].children| && k < |nodes[i].children|
    requires FromChild(nodes, i, j, path, d, q) && FromChild(nodes, i, k, path, d, q)
    ensures j == k
  {
    hide Segment;
    var names := Names(nodes, i);
    assert nodes[i].children[j] in nodes[i].children && nodes[i].children[k] in nodes[i].children;
    ContinuesSegment(path, Segment(names, j), q);
    ContinuesSegment(path, Segment(names, k), q);
    SameNumber(names, j, k, q[|path| + 1..]);
  }

  /**
   * If only one name holds dots, and it has an odd piece, the names emitted below an element are pairwise distinct.
   */
  lemma {:induction false} EmittedDistinct(nodes: seq<Node>, i: nat, k: nat, path: string, d: Dotted)
    requires Ordered(nodes) && OnlyDotted(nodes, d.name, d.prefixes) && Irregular(d)
    requires i < |nodes| && k <= |nodes[i].children|
    ensures Distinct(Emitted(nodes, i, k, path))
    decreases |nodes| - i, |nodes[i].children| - k
  {
    hide Ordered, OnlyDotted, ChildName, Irregular, FromChild;
    EmittedStep(nodes, i, k, path);
    if k < |nodes[i].children| {
      EmittedDistinct(nodes, i, k + 1, path, d);
      var c := nodes[i].children[k];
      if nodes[c].name != "" {
        var qn := NameOf(nodes, i, k, path);
        EmittedDistinct(nodes, c, 0, qn, d);
        OwnApart(nodes, i, k, path, d);
        DistinctJoin([Named(c, qn)], Emitted(nodes, c, 0, qn));
        DistinctJoin([Named(c, qn)] + Emitted(nodes, c, 0, qn), Emitted(nodes, i, k + 1, path));
      }
    }
  }

  /** A child's names differ from its own, and from those of the later siblings. */
  lemma OwnApart(nodes: seq<Node>, i: nat, k: nat, path: string, d: Dotted)
    requires Ordered(nodes) && OnlyDotted(nodes, d.name, d.prefixes) && Irregular(d)
    requires i < |nodes| && k < |nodes[i].children| && Names(nodes, i)[k] != ""
    ensures var c, qn := nodes[i].children[k], ChildName(nodes, i, k, path);
            && i < c < |nodes|
            && (forall e | e in Emitted(nodes, c, 0, qn) :: e.qn != qn)
            && forall e, f | e in [Named(c, qn)] + Emitted(nodes, c, 0, qn) && f in Emitted(nodes, i, k + 1, path) ::
               e.qn != f.qn
  {
    hide Ordered, OnlyDotted, ChildName, Irregular, FromChild, Emitted;
    var c, qn := nodes[i].children[k], ChildName(nodes, i, k, path);
    OwnFrom(nodes, i, k, path, d);
    EmittedFrom(nodes, i, k + 1, path, d);
    forall e, f | e in [Named(c, qn)] + Emitted(nodes, c, 0, qn) && f in Emitted(nodes, i, k + 1, path)
      ensures e.qn != f.qn {
      var m :| k + 1 <= m < |nodes[i].children| && FromChild(nodes, i, m, path, d, f.qn);
      if FromChild(nodes, i, k, path, d, f.qn) { ChildrenDiverge(nodes, i, k, m, path, d, f.qn); }
    }
  }

  lemma DistinctJoin(a: seq<Named>, b: seq<Named>)
    requires Distinct(a) && Distinct(b)
    requires forall e, f | e in a && f in b :: e.qn != f.qn
    ensures Distinct(a + b)
  {
  }

  /**
   * A document in which only one name holds dots, and that name has an odd piece, has pairwise distinct names.
   */
  lemma IrregularDistinct(nodes: seq<Node>, dotted: string, prefixes: bool)
    requires Ordered(nodes) && OnlyDotted(nodes, dotted, prefixes)
    requires '.' in dotted && !Regular(prefixes, Pieces(dotted))
    ensures Distinct(Document(nodes))
  {
    var m: nat :| Odd(prefixes, Pieces(dotted), m);
    var first := FirstOdd(prefixes, Pieces(dotted), m);
    var d := Dotted(dotted, first, prefixes);
    if nodes != [] {
      var path := nodes[0].name;
      EmittedDistinct(nodes, 0, 0, path, d);
      EmittedFrom(nodes, 0, 0, path, d);
      forall e | e in Emitted(nodes, 0, 0, path) ensures e.qn != path { assert path + "." <= e.qn; }
      DistinctJoin([Named(0, path)], Emitted(nodes, 0, 0, path));
    }
  }

  lemma {:induction false} FirstOdd(prefixes: bool, ps: seq<string>, m: nat) returns (first: nat)
    requires Odd(prefixes, ps, m)
    ensures Odd(prefixes, ps, first) && forall k: nat | k < first :: !Odd(prefixes, ps, k)
  {
    if q: nat :| q < m && Odd(prefixes, ps, q) { first := FirstOdd(prefixes, ps, q); } else { first := m; }
  }

  /** All element names of a document are pairwise distinct if no element name holds a dot. */
  lemma DocumentDistinct(nodes: seq<Node>)
    requires Ordered(nodes) && forall i | 0 <= i < |nodes| :: '.' !in nodes[i].name
    ensures Distinct(Document(nodes))
  {
    OnePiece("");
    PiecesApart("", "");
    assert Odd(true, Pieces("."), 0);
    IrregularDistinct(nodes, ".", true);
  }
}
