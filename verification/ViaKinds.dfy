/** Which edge kind a trace reports: the closure's last-hop kind against the recursive query's `MIN(via)`. */
module ViaKinds {
  import opened CallGraph
  import opened BfsLayers
  import opened ClosureStore
  import opened ClosureTheorems
  import opened CteTrace

  /** e ends at `id`, seen from `start`, and its other end is within one step less than the bound. */
  ghost predicate OnWay(E: seq<Edge>, start: Id, outbound: bool, maxDepth: nat, id: Id, e: Edge)
    requires maxDepth > 0
  {
    && e in E && Far(e, outbound) == id
    && if outbound then Within(E, start, e.from, maxDepth - 1) else Within(E, e.to, start, maxDepth - 1)
  }

  /** `via` is the least kind of the edges on the way. */
  ghost predicate LeastKind(E: seq<Edge>, start: Id, outbound: bool, maxDepth: nat, id: Id, via: string)
    requires maxDepth > 0
  {
    && (exists e :: OnWay(E, start, outbound, maxDepth, id, e) && e.kind == via)
    && forall e | OnWay(E, start, outbound, maxDepth, id, e) :: via == e.kind || TextLess(via, e.kind)
  }

  lemma RowIsOnWay(E: seq<Edge>, start: Id, outbound: bool, maxDepth: nat, id: Id, n: nat, via: string)
    requires 0 < n <= maxDepth && ReachRow(E, start, outbound, id, n, via)
    ensures exists e :: OnWay(E, start, outbound, maxDepth, id, e) && e.kind == via
  {
    var e :| e in E && e.kind == via && Far(e, outbound) == id && AtDepth(E, start, outbound, Near(e, outbound), n - 1);
    if outbound { OutboundRowsAreWalks(E, start, e.from, n - 1); } else { InboundRowsAreWalks(E, start, e.to, n - 1); }
    assert OnWay(E, start, outbound, maxDepth, id, e);
  }

  lemma OnWayIsRow(E: seq<Edge>, start: Id, outbound: bool, maxDepth: nat, id: Id, e: Edge) returns (n: nat)
    requires maxDepth > 0 && OnWay(E, start, outbound, maxDepth, id, e)
    ensures 0 < n <= maxDepth && ReachRow(E, start, outbound, id, n, e.kind)
  {
    var m: nat :| m <= maxDepth - 1 && if outbound then Walk(E, start, e.from, m) else Walk(E, e.to, start, m);
    if outbound { OutboundRowsAreWalks(E, start, e.from, m); } else { InboundRowsAreWalks(E, start, e.to, m); }
    n := m + 1;
    assert AtDepth(E, start, outbound, Near(e, outbound), n - 1);
  }

  /**
   * The query reports the least kind of the edges into the reported node (outbound), or out of it (inbound),
   * that lie on a walk within the bound.
   */
  lemma QueryViaIsLeast(E: seq<Edge>, start: Id, outbound: bool, maxDepth: nat, id: Id, via: string)
    requires maxDepth > 0
    ensures CteVia(E, start, outbound, maxDepth, id, via) <==> LeastKind(E, start, outbound, maxDepth, id, via)
  {
    hide ReachRow, OnWay;
    if n: nat :| 0 < n <= maxDepth && ReachRow(E, start, outbound, id, n, via) {
      RowIsOnWay(E, start, outbound, maxDepth, id, n, via);
    }
    if e :| OnWay(E, start, outbound, maxDepth, id, e) && e.kind == via {
      var n := OnWayIsRow(E, start, outbound, maxDepth, id, e);
    }
    if CteVia(E, start, outbound, maxDepth, id, via) {
      forall e | OnWay(E, start, outbound, maxDepth, id, e) ensures via == e.kind || TextLess(via, e.kind) {
        var n := OnWayIsRow(E, start, outbound, maxDepth, id, e);
      }
    }
    if LeastKind(E, start, outbound, maxDepth, id, via) {
      forall n: nat, v | 0 < n <= maxDepth && ReachRow(E, start, outbound, id, n, v)
        ensures via == v || TextLess(via, v) {
        RowIsOnWay(E, start, outbound, maxDepth, id, n, v);
      }
    }
  }

  /** The closure row a trace in either direction reads. */
  function RowKey(project: string, start: Id, outbound: bool, id: Id): Key {
    if outbound then Key(project, start, id) else Key(project, id, start)
  }

  /** Outbound, the row's kind is the query's exactly if no edge on the way into the node has a lesser one. */
  lemma OutboundViaIff(t: Table, before: Table, E: seq<Edge>, project: string, D: nat, start: Id, id: Id, maxDepth: nat)
    requires IsClosure(t, before, E, project, D)
    requires Key(project, start, id) in t && t[Key(project, start, id)].depth <= maxDepth
    ensures var via := t[Key(project, start, id)].via;
            && maxDepth > 0
            && (CteVia(E, start, true, maxDepth, id, via) <==>
                  forall e | OnWay(E, start, true, maxDepth, id, e) :: via == e.kind || TextLess(via, e.kind))
  {
    hide IsClosure, CteVia;
    RowsAreShortestPaths(t, before, E, project, D, start, id);
    var c := t[Key(project, start, id)];
    QueryViaIsLeast(E, start, true, maxDepth, id, c.via);
    var e :| e in E && e.to == id && e.kind == c.via && Shortest(E, start, e.from, c.depth - 1);
    assert OnWay(E, start, true, maxDepth, id, e);
  }

  /**
   * Inbound, the row keeps the kind of the last edge of a shortest path from the reported node to `start`; it is the
   * query's exactly if it is the least kind of the edges out of the reported node on the way to `start`.
   */
  lemma InboundViaIff(t: Table, before: Table, E: seq<Edge>, project: string, D: nat, start: Id, id: Id, maxDepth: nat)
    requires IsClosure(t, before, E, project, D)
    requires Key(project, id, start) in t && t[Key(project, id, start)].depth <= maxDepth
    ensures var (d, via) := (t[Key(project, id, start)].depth, t[Key(project, id, start)].via);
            && maxDepth > 0 && 0 < d && Shortest(E, id, start, d)
            && (exists f :: f in E && f.to == start && f.kind == via && Shortest(E, id, f.from, d - 1))
            && (exists e :: OnWay(E, start, false, maxDepth, id, e))
            && (CteVia(E, start, false, maxDepth, id, via) <==> LeastKind(E, start, false, maxDepth, id, via))
  {
    hide IsClosure, CteVia;
    RowsAreShortestPaths(t, before, E, project, D, id, start);
    var c := t[Key(project, id, start)];
    QueryViaIsLeast(E, start, false, maxDepth, id, c.via);
    var e := WalkFirst(E, id, start, c.depth);
    assert OnWay(E, start, false, maxDepth, id, e);
  }

  /** Every row a trace can show carries the query's kind. */
  ghost predicate ViasAgree(t: Table, E: seq<Edge>, project: string) {
    forall start, outbound, id, maxDepth: nat
      | RowKey(project, start, outbound, id) in t && t[RowKey(project, start, outbound, id)].depth <= maxDepth ::
      CteVia(E, start, outbound, maxDepth, id, t[RowKey(project, start, outbound, id)].via)
  }

  ghost predicate OneKind(E: seq<Edge>) {
    forall e, f | e in E && f in E :: e.kind == f.kind
  }

  /** If all call edges have one kind the two traces report the same kinds. */
  lemma OneKindAgrees(t: Table, before: Table, E: seq<Edge>, project: string, D: nat)
    requires IsClosure(t, before, E, project, D) && OneKind(E)
    ensures ViasAgree(t, E, project)
  {
    hide IsClosure, CteVia;
    forall start, outbound, id, maxDepth: nat
      | RowKey(project, start, outbound, id) in t && t[RowKey(project, start, outbound, id)].depth <= maxDepth
      ensures CteVia(E, start, outbound, maxDepth, id, t[RowKey(project, start, outbound, id)].via)
    {
      if outbound {
        OutboundViaIff(t, before, E, project, D, start, id, maxDepth);
        RowsAreShortestPaths(t, before, E, project, D, start, id);
      } else {
        InboundViaIff(t, before, E, project, D, start, id, maxDepth);
      }
    }
  }

  /** No two edges lead into one node, and no node leads back to itself. */
  ghost predicate CallForest(E: seq<Edge>) {
    && (forall e, f | e in E && f in E && e.to == f.to :: e == f)
    && forall v, n: nat | n > 0 :: !Walk(E, v, v, n)
  }

  /** An edge and the next one along a path have the same kind. */
  ghost predicate KindsPassOn(E: seq<Edge>) {
    forall e, f | e in E && f in E && e.to == f.from :: e.kind == f.kind
  }

  /** Where kinds pass on, every edge of a path has the kind of its last one. */
  lemma {:induction false} KindAlongWalk(E: seq<Edge>, e: Edge, f: Edge, n: nat)
    requires forall e, f | e in E && f in E && e.to == f.to :: e == f
    requires KindsPassOn(E) && e in E && f in E && Walk(E, e.to, f.to, n)
    ensures e.kind == f.kind
    decreases n
  {
    if n > 0 {
      var g :| g in E && g.to == f.to && Walk(E, e.to, g.from, n - 1);
      if n > 1 {
        var h :| h in E && h.to == g.from && Walk(E, e.to, h.from, n - 2);
        KindAlongWalk(E, e, h, n - 1);
      }
    }
  }

  /** In a call forest the kinds always agree exactly if rows are one step deep or kinds never change on a path. */
  lemma ForestAgreesIff(t: Table, before: Table, E: seq<Edge>, project: string, D: nat)
    requires IsClosure(t, before, E, project, D) && CallForest(E)
    ensures ViasAgree(t, E, project) <==> D < 2 || KindsPassOn(E)
  {
    hide IsClosure, CteVia;
    if D < 2 || KindsPassOn(E) { PassingOnAgrees(t, before, E, project, D); }
    if ViasAgree(t, E, project) && D >= 2 {
      forall e, f | e in E && f in E && e.to == f.from ensures e.kind == f.kind {
        ChangeDisagrees(t, before, E, project, D, e, f);
      }
    }
  }

  lemma PassingOnAgrees(t: Table, before: Table, E: seq<Edge>, project: string, D: nat)
    requires IsClosure(t, before, E, project, D) && CallForest(E) && (D < 2 || KindsPassOn(E))
    ensures ViasAgree(t, E, project)
  {
    hide IsClosure, CteVia;
    forall start, outbound, id, maxDepth: nat
      | RowKey(project, start, outbound, id) in t && t[RowKey(project, start, outbound, id)].depth <= maxDepth
      ensures CteVia(E, start, outbound, maxDepth, id, t[RowKey(project, start, outbound, id)].via)
    {
      if outbound {
        OutboundViaIff(t, before, E, project, D, start, id, maxDepth);
        RowsAreShortestPaths(t, before, E, project, D, start, id);
      } else {
        InboundViaIff(t, before, E, project, D, start, id, maxDepth);
        var c := t[Key(project, id, start)];
        var f :| f in E && f.to == start && f.kind == c.via && Shortest(E, id, f.from, c.depth - 1);
        forall e | OnWay(E, start, false, maxDepth, id, e) ensures e.kind == f.kind {
          var n: nat :| n <= maxDepth - 1 && Walk(E, e.to, start, n);
          if D < 2 {
            RowsAreShortestPaths(t, before, E, project, D, id, start);
            DirectEdge(E, e, f, n);
          } else {
            KindAlongWalk(E, e, f, n);
          }
        }
      }
    }
  }

  /** Where an edge leads from one node to another, no other edge out of the first lies on a way to the second. */
  lemma DirectEdge(E: seq<Edge>, e: Edge, f: Edge, n: nat)
    requires CallForest(E) && e in E && f in E && e.from == f.from && Walk(E, e.to, f.to, n)
    ensures e == f
  {
    if n > 0 {
      var g :| g in E && g.to == f.to && Walk(E, e.to, g.from, n - 1);
      WalkPrepend(E, e, f.from, n - 1);
    }
  }

  /** Two edges in a row: the inbound trace of the last node reports the second kind, the query the first. */
  lemma ChangeDisagrees(t: Table, before: Table, E: seq<Edge>, project: string, D: nat, e: Edge, f: Edge)
    requires IsClosure(t, before, E, project, D) && D >= 2 && CallForest(E)
    requires e in E && f in E && e.to == f.from && ViasAgree(t, E, project)
    ensures e.kind == f.kind
  {
    hide IsClosure, CteVia;
    TwoApart(E, e, f);
    assert Within(E, e.from, f.to, D);
    RowsAreShortestPaths(t, before, E, project, D, e.from, f.to);
    var c := t[Key(project, e.from, f.to)];
    assert c.depth == 2;
    assert RowKey(project, f.to, false, e.from) in t;
    assert CteVia(E, f.to, false, 2, e.from, c.via);
    InboundViaIff(t, before, E, project, D, f.to, e.from, 2);
    var g :| OnWay(E, f.to, false, 2, e.from, g) && g.kind == c.via;
    OnlyWay(E, e, f, g);
  }

  lemma OneStep(E: seq<Edge>, u: Id, v: Id)
    ensures Walk(E, u, v, 1) <==> exists g :: g in E && g.from == u && g.to == v
  {
    if g :| g in E && g.from == u && g.to == v { assert Walk(E, u, g.from, 0); }
    if Walk(E, u, v, 1) {
      var g :| g in E && g.to == v && Walk(E, u, g.from, 0);
    }
  }

  lemma TwoApart(E: seq<Edge>, e: Edge, f: Edge)
    requires CallForest(E) && e in E && f in E && e.to == f.from
    ensures e.from != f.to && Shortest(E, e.from, f.to, 2)
  {
    OneStep(E, e.from, e.to);
    OneStep(E, e.from, f.to);
    assert Walk(E, e.from, f.to, 2);
  }

  lemma OnlyWay(E: seq<Edge>, e: Edge, f: Edge, g: Edge)
    requires CallForest(E) && e in E && f in E && e.to == f.from
    requires OnWay(E, f.to, false, 2, e.from, g)
    ensures g == e
  {
    TwoApart(E, e, f);
    OneStep(E, e.from, g.to);
    OneStep(E, g.to, f.to);
    var n: nat :| n <= 1 && Walk(E, g.to, f.to, n);
  }

  lemma {:induction false} TextLessIrreflexive(a: string)
    ensures !TextLess(a, a)
  {
    if a != "" { TextLessIrreflexive(a[1..]); }
  }

  /** Edge i is the first one read that links its ends. */
  predicate FirstBetween(E: seq<Edge>, i: nat) {
    i < |E| && forall j | 0 <= j < i :: !(E[j].from == E[i].from && E[j].to == E[i].to)
  }

  /** If the first of several parallel edges has not the least kind, the traces disagree at every depth. */
  lemma ParallelDisagrees(t: Table, before: Table, E: seq<Edge>, project: string, D: nat, i: nat, least: Edge,
                          maxDepth: nat)
    requires IsClosure(t, before, E, project, D) && D > 0 && maxDepth > 0 && FirstBetween(E, i)
    requires E[i].from != E[i].to && least in E && least.from == E[i].from && least.to == E[i].to
    requires TextLess(least.kind, E[i].kind)
    ensures var k := Key(project, E[i].from, E[i].to);
            && k in t && t[k] == Cell(1, E[i].kind)
            && !CteVia(E, E[i].from, true, maxDepth, E[i].to, t[k].via)
  {
    hide IsClosure, CteVia;
    var e := E[i];
    FirstEdgeKept(t, before, E, project, D, i);
    QueryViaIsLeast(E, e.from, true, maxDepth, e.to, e.kind);
    assert Walk(E, e.from, e.from, 0);
    assert OnWay(E, e.from, true, maxDepth, e.to, least);
    if TextLess(e.kind, least.kind) { TextLessTransitive(e.kind, least.kind, e.kind); }
    TextLessIrreflexive(e.kind);
  }

  /** The row of two linked nodes has the kind of the first edge read between them. */
  lemma FirstEdgeKept(t: Table, before: Table, E: seq<Edge>, project: string, D: nat, i: nat)
    requires IsClosure(t, before, E, project, D) && D > 0 && FirstBetween(E, i) && E[i].from != E[i].to
    ensures var k := Key(project, E[i].from, E[i].to); k in t && t[k] == Cell(1, E[i].kind)
  {
    hide Layer, Seen, Fresh, Out, AllOut, Ids;
    var e := E[i];
    OneStep(E, e.from, e.to);
    assert Within(E, e.from, e.to, D);
    RowsAreShortestPaths(t, before, E, project, D, e.from, e.to);
    var c := t[Key(project, e.from, e.to)];
    FirstRound(E, e.from);
    FirstHopKept(E, i, {e.from});
    assert RowAt(E, e.from, e.to, c, D);
    LayersDisjoint(E, e.from, 1, Hop(e.to, e.kind), c.depth, Hop(e.to, c.via));
  }

  /** Of a node's out-edges the first one to each new node is kept. */
  lemma {:induction false} FirstHopKept(E: seq<Edge>, i: nat, seen: set<Id>)
    requires FirstBetween(E, i) && E[i].to !in seen
    ensures Hop(E[i].to, E[i].kind) in Fresh(Out(E, E[i].from), seen)
  {
    hide Ids;
    var init, last, u := E[..|E| - 1], E[|E| - 1], E[i].from;
    assert Out(E, u) == Out(init, u) + if last.from == u then [Hop(last.to, last.kind)] else [];
    hide Out, Fresh;
    if i < |init| {
      FirstHopKept(init, i, seen);
      assert Out(init, u) + [] == Out(init, u);
      if last.from == u { FreshGrows(Out(init, u), Hop(last.to, last.kind), seen); }
    } else {
      NoHopYet(init, u, last.to);
      FreshGrows(Out(init, u), Hop(last.to, last.kind), seen);
    }
  }

  lemma FreshGrows(hops: seq<Hop>, h: Hop, seen: set<Id>)
    ensures forall x | x in Fresh(hops, seen) :: x in Fresh(hops + [h], seen)
    ensures h.to !in seen && !Reaches(hops, h.to) ==> h in Fresh(hops + [h], seen)
  {
    assert (hops + [h])[..|hops|] == hops;
    FreshMember(hops, seen);
  }

  lemma NoHopYet(E: seq<Edge>, u: Id, v: Id)
    requires forall e | e in E :: !(e.from == u && e.to == v)
    ensures !Reaches(Out(E, u), v)
  {
    forall h | h in Out(E, u) ensures h.to != v { OutMember(E, u, h); }
  }

  lemma FirstRound(E: seq<Edge>, u: Id)
    ensures Layer(E, u, 1) == Fresh(Out(E, u), {u})
  {
    hide Fresh, Out;
    var start := [Hop(u, "")];
    assert start[..0] == [];
    assert AllOut(E, start) == AllOut(E, []) + Out(E, u) == Out(E, u);
    assert Seen(E, u, 0) == {u} && Layer(E, u, 0) == start;
  }

  /** Two parallel edges: the closure says HTTP_CALLS, the query CALLS. */
  lemma ParallelEdgesDiffer(t: Table, before: Table, project: string, D: nat)
    requires D > 0
    requires IsClosure(t, before, [Edge(project, "A", "B", "HTTP_CALLS"), Edge(project, "A", "B", "CALLS")], project, D)
    ensures var E := [Edge(project, "A", "B", "HTTP_CALLS"), Edge(project, "A", "B", "CALLS")];
            && Key(project, "A", "B") in t && t[Key(project, "A", "B")].via == "HTTP_CALLS"
            && CteVia(E, "A", true, D, "B", "CALLS")
  {
    hide IsClosure, CteVia;
    var e, e' := Edge(project, "A", "B", "HTTP_CALLS"), Edge(project, "A", "B", "CALLS");
    var E := [e, e'];
    assert e in E && e' in E && TextLess("CALLS", "HTTP_CALLS");
    FirstEdgeKept(t, before, E, project, D, 0);
    assert Walk(E, "A", "A", 0);
    assert OnWay(E, "A", true, D, "B", e');
    QueryViaIsLeast(E, "A", true, D, "B", "CALLS");
  }

  /** A chain without parallel edges: traced inbound, the closure says CALLS for X, the query HTTP_CALLS. */
  lemma InboundChainDiffers(t: Table, before: Table, project: string, D: nat)
    requires D >= 2
    requires IsClosure(t, before, [Edge(project, "X", "Y", "HTTP_CALLS"), Edge(project, "Y", "S", "CALLS")], project, D)
    ensures var E := [Edge(project, "X", "Y", "HTTP_CALLS"), Edge(project, "Y", "S", "CALLS")];
            && TraceResult("X", 2, "CALLS") in InboundRows(t, project, "S", 2)
            && CteVia(E, "S", false, 2, "X", "HTTP_CALLS") && !CteVia(E, "S", false, 2, "X", "CALLS")
  {
    hide IsClosure, CteVia;
    var e, f := Edge(project, "X", "Y", "HTTP_CALLS"), Edge(project, "Y", "S", "CALLS");
    ChainRow(t, before, [e, f], project, D, e, f);
    ChainQuery([e, f], e, f, "HTTP_CALLS");
    ChainQuery([e, f], e, f, "CALLS");
  }

  lemma ChainRow(t: Table, before: Table, E: seq<Edge>, project: string, D: nat, e: Edge, f: Edge)
    requires IsClosure(t, before, E, project, D) && D >= 2
    requires E == [e, f] && e.to == f.from && e.from != e.to && f.from != f.to && e.from != f.to
    ensures var k := Key(project, e.from, f.to); k in t && t[k] == Cell(2, f.kind)
  {
    hide IsClosure;
    assert e in E && f in E;
    OneStep(E, e.from, e.to);
    OneStep(E, e.from, f.to);
    assert Walk(E, e.from, f.to, 2);
    assert Within(E, e.from, f.to, D);
    RowsAreShortestPaths(t, before, E, project, D, e.from, f.to);
  }

  /** Inbound over two edges in a row, the query reports the first one's kind. */
  lemma ChainQuery(E: seq<Edge>, e: Edge, f: Edge, via: string)
    requires E == [e, f] && e.to == f.from && e.from != e.to && f.from != f.to && e.from != f.to
    ensures CteVia(E, f.to, false, 2, e.from, via) <==> via == e.kind
  {
    hide CteVia;
    assert e in E && f in E;
    OneStep(E, f.from, f.to);
    assert OnWay(E, f.to, false, 2, e.from, e);
    QueryViaIsLeast(E, f.to, false, 2, e.from, via);
  }
}
