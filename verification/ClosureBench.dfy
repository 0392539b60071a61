/** The benchmark's own closure builder: no kind filter, no via kinds, a fresh side table. */
module ClosureBench {
  import opened CallGraph
  import opened BfsLayers
  import opened ClosureStore
  import opened ClosureTheorems

  type DepthTable = map<Key, nat>

  function Targets(hops: seq<Hop>): seq<Id> {
    seq(|hops|, i requires 0 <= i < |hops| => hops[i].to)
  }

  function Depths(t: Table): DepthTable {
    map k | k in t :: t[k].depth
  }

  /** The benchmark's variables are a projection of a `BuildClosure` search. */
  ghost predicate Mirrors(seen: map<Id, nat>, next: seq<Id>, tx: DepthTable, s: Search) {
    seen == s.seen && next == Targets(s.next) && tx == Depths(s.tx)
  }

  method MeasureClosure(edges: seq<Edge>, project: string, maxDepth: int) returns (err: bool, rows: DepthTable)
    ensures !err ==> forall k :: k in rows <==>
              k.project == project && k.to != k.from && maxDepth >= 0
                  && Within(Select(edges, project, false), k.from, k.to, maxDepth)
    ensures !err ==> forall k | k in rows :: Shortest(Select(edges, project, false), k.from, k.to, rows[k])
  {
    hide Filled, IsClosure, Select, Out, IdsOf, Within, Shortest;
    rows := map[];
    err := SqlError();
    if err { return; }
    ghost var E := Select(edges, project, false);
    var adj := ReadTargets(Select(edges, project, false));
    ghost var full: Table := map[];
    ghost var D: nat := if maxDepth < 0 then 0 else maxDepth;
    NothingFilled(map[], E, project, D);
    var remaining := adj.Keys;
    ghost var done: set<Id> := {};
    while remaining != {}
      invariant done + remaining == adj.Keys && done !! remaining
      invariant Filled(full, map[], E, project, done, D) && rows == Depths(full)
      decreases remaining
    {
      var from :| from in remaining;
      remaining := remaining - {from};
      UnvisitedSource(full, map[], E, project, done, from, D);
      ghost var full0 := full;
      err, rows, full := MeasureSource(rows, full, E, adj, project, from, maxDepth);
      if err { return; }
      FilledExtend(full, full0, map[], E, project, done, from, D);
      done := done + {from};
    }
    err := SqlError();
    if err { return; }
    assert WithoutProject(map[], project) == map[];
    FilledIsClosure(full, map[], E, project, adj.Keys, D);
    forall k
      ensures k in rows <==>
                k.project == project && k.to != k.from && maxDepth >= 0 && Within(E, k.from, k.to, maxDepth)
      ensures k in rows ==> Shortest(E, k.from, k.to, rows[k])
    {
      OtherOrNegative(full, E, project, D, k);
      RowsAreShortestPaths(full, map[], E, project, D, k.from, k.to);
    }
  }

  lemma OtherOrNegative(t: Table, E: seq<Edge>, project: string, D: nat, k: Key)
    requires IsClosure(t, map[], E, project, D)
    ensures k.project != project ==> k !in t
    ensures D == 0 ==> k !in t
  {
    if k.project == project && D == 0 { assert Reached(E, k.from, 0) == {}; }
  }

  function IdsOf(adj: map<Id, seq<Id>>, u: Id): seq<Id> {
    if u in adj then adj[u] else []
  }

  method ReadTargets(rows: seq<Edge>) returns (adj: map<Id, seq<Id>>)
    ensures forall u :: IdsOf(adj, u) == Targets(Out(rows, u))
    ensures forall u :: u in adj <==> Out(rows, u) != []
  {
    hide Out, Targets;
    adj := map[];
    var i := 0;
    assert forall u :: Out(rows[..0], u) == [] && Targets([]) == [] by { OutNothing(rows[..0]); }
    while i < |rows|
      invariant 0 <= i <= |rows|
      invariant forall u :: u in adj <==> Out(rows[..i], u) != []
      invariant forall u :: IdsOf(adj, u) == Targets(Out(rows[..i], u))
    {
      var e := rows[i];
      OutSnoc(rows[..i], e);
      assert rows[..i + 1] == rows[..i] + [e];
      adj := adj[e.from := IdsOf(adj, e.from) + [e.to]];
      i := i + 1;
    }
    assert rows[..i] == rows;
  }

  lemma OutNothing(rows: seq<Edge>)
    requires rows == []
    ensures forall u :: Out(rows, u) == []
    ensures Targets([]) == []
  {
  }

  lemma OutSnoc(rows: seq<Edge>, e: Edge)
    ensures forall u :: Out(rows + [e], u) == Out(rows, u) + if u == e.from then [Hop(e.to, e.kind)] else []
    ensures forall u :: Targets(Out(rows + [e], u)) == Targets(Out(rows, u)) + if u == e.from then [e.to] else []
  {
    assert (rows + [e])[..|rows|] == rows;
  }

  method MeasureSource(rows: DepthTable, ghost full0: Table, ghost E: seq<Edge>, adj: map<Id, seq<Id>>,
                       project: string, from: Id, maxDepth: int)
    returns (err: bool, tx: DepthTable, ghost full: Table)
    requires forall u :: IdsOf(adj, u) == Targets(Out(E, u))
    requires rows == Depths(full0)
    requires forall k | k in full0 :: k.project != project || k.from != from
    ensures !err ==> Filled(full, full0, E, project, {from}, if maxDepth < 0 then 0 else maxDepth) && tx == Depths(full)
  {
    hide Round, Filled, Out, AllOut, IdsOf, Ids, Fresh;
    err, tx, full := false, rows, full0;
    var seen := map[from := 0];
    var frontier := [from];
    var d := 1;
    ghost var execs := 0;
    SearchStart(full0, E, project, from);
    while d <= maxDepth && |frontier| > 0
      invariant 1 <= d && (d <= maxDepth + 1 || d == 1)
      invariant frontier == Targets(Layer(E, from, d - 1))
      invariant Round(Search(seen, [], full, execs), full0, E, project, from, d - 1, []) && tx == Depths(full)
    {
      var next;
      ghost var s;
      ghost var layer := Layer(E, from, d - 1);
      ghost var s0 := Search(seen, [], full, execs);
      err, seen, next, tx, s := MeasureLayer(seen, tx, s0, full0, E, adj, project, from, d, frontier, layer);
      if err { return; }
      RoundClose(s, full0, E, project, from, d - 1);
      frontier, full, execs := next, s.tx, s.execs;
      d := d + 1;
    }
    ghost var D: nat := if maxDepth < 0 then 0 else maxDepth;
    if d <= maxDepth {
      EmptyLayerStays(E, from, d - 1, D);
    }
    RoundIsFilled(Search(seen, [], full, execs), full0, E, project, from, d - 1, D);
  }

  method MeasureLayer(seen0: map<Id, nat>, tx0: DepthTable, ghost s0: Search, ghost base: Table, ghost E: seq<Edge>,
                      adj: map<Id, seq<Id>>, project: string, from: Id, d: nat, frontier: seq<Id>,
                          ghost layer: seq<Hop>)
    returns (err: bool, seen: map<Id, nat>, next: seq<Id>, tx: DepthTable, ghost s: Search)
    requires forall u :: IdsOf(adj, u) == Targets(Out(E, u))
    requires forall k | k in base :: k.project != project || k.from != from
    requires frontier == Targets(layer)
    requires d > 0 && Round(s0, base, E, project, from, d - 1, []) && Mirrors(seen0, [], tx0, s0)
    ensures !err ==> Round(s, base, E, project, from, d - 1, AllOut(E, layer)) && Mirrors(seen, next, tx, s)
  {
    hide Round, Out, IdsOf, Mirrors;
    err, seen, next, tx, s := false, seen0, [], tx0, s0;
    ghost var all: seq<Hop> := [];
    var i := 0;
    while i < |frontier|
      invariant 0 <= i <= |frontier|
      invariant all == AllOut(E, layer[..i])
      invariant Round(s, base, E, project, from, d - 1, all) && Mirrors(seen, next, tx, s)
    {
      var targets := IdsOf(adj, frontier[i]);
      ghost var all0, hops := all, Out(E, layer[i].to);
      assert layer[..i + 1][..i] == layer[..i];
      var j := 0;
      while j < |targets|
        invariant 0 <= j <= |targets|
        invariant all == all0 + hops[..j]
        invariant Round(s, base, E, project, from, d - 1, all) && Mirrors(seen, next, tx, s)
      {
        assert all0 + hops[..j + 1] == all + [hops[j]];
        err, seen, next, tx, s := MeasureEdge(seen, next, tx, s, base, E, project, from, d, all, targets[j], hops[j]);
        if err { return; }
        all := all + [hops[j]];
        j := j + 1;
      }
      assert hops[..j] == hops;
      i := i + 1;
    }
    assert layer[..i] == layer;
  }

  method MeasureEdge(seen0: map<Id, nat>, next0: seq<Id>, tx0: DepthTable, ghost s0: Search, ghost base: Table,
                     ghost E: seq<Edge>,
                     project: string, from: Id, d: nat, ghost all: seq<Hop>, v: Id, ghost e: Hop)
    returns (err: bool, seen: map<Id, nat>, next: seq<Id>, tx: DepthTable, ghost s: Search)
    requires forall k | k in base :: k.project != project || k.from != from
    requires d > 0 && Round(s0, base, E, project, from, d - 1, all) && Mirrors(seen0, next0, tx0, s0) && v == e.to
    ensures !err ==> Round(s, base, E, project, from, d - 1, all + [e]) && Mirrors(seen, next, tx, s)
  {
    hide Round;
    err, seen, next, tx, s := false, seen0, next0, tx0, s0;
    RoundVisit(s0, base, E, project, from, d - 1, all, e);
    if v !in seen {
      err := SqlError();
      if err { return; }
      var k := Key(project, from, v);
      seen, next := seen[v := d], next + [v];
      tx := if k in tx then tx else tx[k := d];
      s := Search(s0.seen[v := d], s0.next + [e], s0.tx[k := Cell(d, e.kind)], s0.execs + 1);
      assert Targets(s.next) == next;
    }
  }

  /** On a graph of call edges only, both builders store the same (from, to, depth) rows. */
  lemma BuildersAgree(edges: seq<Edge>, project: string, D: nat, t: Table, before: Table, rows: DepthTable, k: Key)
    requires forall e | e in edges && e.project == project :: CallsFamily(e.kind)
    requires IsClosure(t, before, Select(edges, project, true), project, D)
    requires forall k ::
             k in rows
             <==> k.project == project && k.to != k.from && Within(Select(edges, project, false), k.from, k.to, D)
    requires forall k | k in rows :: Shortest(Select(edges, project, false), k.from, k.to, rows[k])
    requires k.project == project
    ensures (k in rows <==> k in t) && (k in rows ==> rows[k] == t[k].depth)
  {
    hide IsClosure;
    SameSelection(edges, project);
    RowsAreShortestPaths(t, before, Select(edges, project, true), project, D, k.from, k.to);
  }

  lemma {:induction false} SameSelection(edges: seq<Edge>, project: string)
    requires forall e | e in edges && e.project == project :: CallsFamily(e.kind)
    ensures Select(edges, project, true) == Select(edges, project, false)
  {
    if edges != [] { SameSelection(edges[1..], project); }
  }
}
