/** What the closure table means, for every edge table, project and depth. */
module ClosureTheorems {
  import opened CallGraph
  import opened BfsLayers
  import opened ClosureStore

  /** A row exists exactly for a different node within distance D, and carries that distance. */
  lemma RowsAreShortestPaths(t: Table, before: Table, E: seq<Edge>, project: string, D: nat, from: Id, to: Id)
    requires IsClosure(t, before, E, project, D)
    ensures Key(project, from, to) in t <==> to != from && Within(E, from, to, D)
    ensures Key(project, from, to) in t ==>
              var c := t[Key(project, from, to)];
              && 1 <= c.depth <= D && Shortest(E, from, to, c.depth)
              && exists e | e in E :: e.to == to && e.kind == c.via && Shortest(E, from, e.from, c.depth - 1)
  {
    hide Layer, Seen, Fresh, Out, AllOut, Ids;
    LayerIsDistance(E, from, D);
    var k := Key(project, from, to);
    if k in t {
      var c := t[k];
      assert RowAt(E, k.from, k.to, c, D);
      LayerIsDistance(E, from, c.depth);
      assert Reaches(Layer(E, from, c.depth), to);
      assert to in Ids(Layer(E, from, c.depth));
      var e := LayerKind(E, from, c.depth, Hop(to, c.via));
    }
  }

  /** A closure of depth D cut at depth j is the closure of depth j, via kinds included. */
  lemma Truncation(t: Table, t': Table, before: Table, before': Table, E: seq<Edge>, project: string, D: nat, j: nat,
                   from: Id, to: Id)
    requires IsClosure(t, before, E, project, D) && IsClosure(t', before', E, project, j) && j <= D
    ensures var k := Key(project, from, to);
            && (k in t' <==> k in t && t[k].depth <= j)
            && (k in t' ==> t'[k] == t[k])
  {
    hide Layer, Seen, Fresh, Out, AllOut, Ids;
    var k := Key(project, from, to);
    RowsAreShortestPaths(t, before, E, project, D, from, to);
    RowsAreShortestPaths(t', before', E, project, j, from, to);
    if k in t' {
      var n: nat :| n <= j && Walk(E, from, to, n);
      assert Within(E, from, to, D);
      assert RowAt(E, k.from, k.to, t[k], D) && RowAt(E, k.from, k.to, t'[k], j);
      LayersDisjoint(E, from, t[k].depth, Hop(to, t[k].via), t'[k].depth, Hop(to, t'[k].via));
    }
    if k in t && t[k].depth <= j {
      assert Within(E, from, to, j);
    }
  }

  /** The closure is a function of the project's current call edges: rebuilding changes nothing. */
  lemma RebuildIsIdempotent(t: Table, t': Table, before: Table, E: seq<Edge>, project: string, D: nat)
    requires IsClosure(t, before, E, project, D) && IsClosure(t', t, E, project, D)
    ensures t' == t
  {
    hide IsClosure;
    forall k ensures (k in t' <==> k in t) && (k in t' ==> t'[k] == t[k]) {
      if k.project == project {
        Truncation(t, t', before, t, E, project, D, D, k.from, k.to);
        RowsAreShortestPaths(t, before, E, project, D, k.from, k.to);
        RowsAreShortestPaths(t', t, E, project, D, k.from, k.to);
      } else {
        OtherProject(t', t, E, project, D, k);
      }
    }
  }

  lemma {:induction false} SameWalks(E: seq<Edge>, E': seq<Edge>, u: Id, v: Id, n: nat)
    requires forall e :: e in E <==> e in E'
    ensures Walk(E, u, v, n) <==> Walk(E', u, v, n)
    decreases n
  {
    if n > 0 {
      forall e | e in E ensures Walk(E, u, e.from, n - 1) <==> Walk(E', u, e.from, n - 1) {
        SameWalks(E, E', u, e.from, n - 1);
      }
    }
  }

  /**
   * Reading the same edges in another order gives the same pairs and depths, and the same row wherever
   * the edges into the target have one kind.
   */
  lemma RebuildInAnyOrder(t: Table, t': Table, before: Table, before': Table, E: seq<Edge>, E': seq<Edge>,
                          project: string, D: nat, k: Key)
    requires IsClosure(t, before, E, project, D) && IsClosure(t', before', E', project, D)
    requires k.project == project && forall e :: e in E <==> e in E'
    ensures (k in t <==> k in t') && (k in t ==> t[k].depth == t'[k].depth)
    ensures k in t && (forall e, f | e in E && f in E && e.to == f.to == k.to :: e.kind == f.kind) ==> t[k] == t'[k]
  {
    hide IsClosure, Walk;
    RowsAreShortestPaths(t, before, E, project, D, k.from, k.to);
    RowsAreShortestPaths(t', before', E', project, D, k.from, k.to);
    forall n: nat ensures Walk(E, k.from, k.to, n) <==> Walk(E', k.from, k.to, n) { SameWalks(E, E', k.from, k.to, n); }
  }

  lemma OtherProject(t: Table, before: Table, E: seq<Edge>, project: string, D: nat, k: Key)
    requires IsClosure(t, before, E, project, D) && k.project != project
    ensures (k in t <==> k in before) && (k in t ==> t[k] == before[k])
  {
  }

  /** Outbound rows: the nodes at distance at most min(requested, built). */
  lemma OutboundIsNeighbourhood(t: Table, before: Table, E: seq<Edge>, project: string, D: nat, start: Id,
                                maxDepth: int, v: Id, d: nat)
    requires IsClosure(t, before, E, project, D)
    ensures (exists r :: r in OutboundRows(t, project, start, maxDepth) && r.id == v && r.depth == d)
            <==> v != start && d <= D && d <= maxDepth && Shortest(E, start, v, d)
  {
    hide IsClosure;
    var k := Key(project, start, v);
    RowsAreShortestPaths(t, before, E, project, D, start, v);
    if v != start && d <= D && d <= maxDepth && Shortest(E, start, v, d) {
      assert Within(E, start, v, D);
      assert t[k].depth == d;
      assert TraceResult(v, t[k].depth, t[k].via) in OutboundRows(t, project, start, maxDepth);
    }
  }

  /** Inbound rows are the exact converse of outbound rows, via kind included. */
  lemma InboundIsConverse(t: Table, project: string, u: Id, v: Id, maxDepth: int, d: nat, via: string)
    ensures TraceResult(v, d, via) in OutboundRows(t, project, u, maxDepth)
            <==> TraceResult(u, d, via) in InboundRows(t, project, v, maxDepth)
  {
    if TraceResult(v, d, via) in OutboundRows(t, project, u, maxDepth) {
      assert Key(project, u, v) in t;
    }
    if TraceResult(u, d, via) in InboundRows(t, project, v, maxDepth) {
      assert Key(project, u, v) in t;
    }
  }

  /** Some edge of the project calls from u to v: directly, over HTTP or asynchronously. */
  predicate Calls(edges: seq<Edge>, project: string, u: Id, v: Id) {
    exists e | e in edges ::
      e.project == project && e.from == u && e.to == v && e.kind in ["CALLS", "HTTP_CALLS", "ASYNC_CALLS"]
  }

  /** The nodes of a chain of calls. */
  predicate IsCallChain(edges: seq<Edge>, project: string, p: seq<Id>, from: Id, to: Id) {
    && |p| > 0 && p[0] == from && p[|p| - 1] == to
    && forall i | 0 <= i < |p| - 1 :: Calls(edges, project, p[i], p[i + 1])
  }

  /**
   * What a build stores, said of the edge table itself: a row for two different nodes joined by a chain of at most D
   * calls, with the length of the shortest chain and the kind of a call into the target.
   */
  lemma StoredCallChains(t: Table, before: Table, edges: seq<Edge>, project: string, D: nat, from: Id, to: Id)
    requires IsClosure(t, before, Select(edges, project, true), project, D)
    ensures Key(project, from, to) in t
            <==> from != to && exists p :: IsCallChain(edges, project, p, from, to) && |p| - 1 <= D
    ensures Key(project, from, to) in t ==>
              var c := t[Key(project, from, to)];
              && (exists p :: IsCallChain(edges, project, p, from, to) && |p| - 1 == c.depth)
              && (forall p | IsCallChain(edges, project, p, from, to) :: c.depth <= |p| - 1)
              && (c.via == "CALLS" || c.via == "HTTP_CALLS" || c.via == "ASYNC_CALLS")
              && exists e | e in edges :: e.project == project && e.to == to && e.kind == c.via
  {
    hide IsClosure, IsCallChain, Walk;
    var E := Select(edges, project, true);
    RowsAreShortestPaths(t, before, E, project, D, from, to);
    forall n: nat
      ensures Walk(E, from, to, n) <==> exists p :: IsCallChain(edges, project, p, from, to) && |p| - 1 == n
    {
      ChainIsWalk(edges, project, from, to, n);
    }
    ChainLength(edges, project, from, to);
    assert forall p | IsCallChain(edges, project, p, from, to) :: Walk(E, from, to, |p| - 1);
  }

  lemma ChainLength(edges: seq<Edge>, project: string, from: Id, to: Id)
    ensures forall p | IsCallChain(edges, project, p, from, to) :: |p| > 0
  {
  }

  lemma ChainIsWalk(edges: seq<Edge>, project: string, from: Id, to: Id, n: nat)
    ensures Walk(Select(edges, project, true), from, to, n)
            <==> exists p :: IsCallChain(edges, project, p, from, to) && |p| - 1 == n
  {
    WalkIsPath(Select(edges, project, true), from, to, n);
    forall p ensures IsPath(Select(edges, project, true), p, from, to) <==> IsCallChain(edges, project, p, from, to) {
      ChainIsPath(edges, project, p, from, to);
    }
    hide *;
  }

  lemma ChainIsPath(edges: seq<Edge>, project: string, p: seq<Id>, from: Id, to: Id)
    ensures IsPath(Select(edges, project, true), p, from, to) <==> IsCallChain(edges, project, p, from, to)
  {
    var E := Select(edges, project, true);
    forall u, v ensures Linked(E, u, v) <==> Calls(edges, project, u, v) { }
  }
}
