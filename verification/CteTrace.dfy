/** The recursive-CTE trace that the closure fast path stands in for. */
module CteTrace {
  import opened CallGraph
  import opened ClosureStore
  import opened ClosureTheorems

  function Near(e: Edge, outbound: bool): Id { if outbound then e.from else e.to }

  function Far(e: Edge, outbound: bool): Id { if outbound then e.to else e.from }

  /** The recursive query `reach` started at `start` yields id at this depth. */
  ghost predicate AtDepth(E: seq<Edge>, start: Id, outbound: bool, id: Id, depth: nat)
    decreases depth
  {
    if depth == 0 then id == start
    else exists e :: e in E && Far(e, outbound) == id && AtDepth(E, start, outbound, Near(e, outbound), depth - 1)
  }

  /** It yields the row (id, depth, via). */
  ghost predicate ReachRow(E: seq<Edge>, start: Id, outbound: bool, id: Id, depth: nat, via: string) {
    if depth == 0 then id == start && via == ""
    else exists e ::
        e in E && e.kind == via && Far(e, outbound) == id
        && AtDepth(E, start, outbound, Near(e, outbound), depth - 1)
  }

  /** `MIN(depth) ... WHERE id != ? AND depth > 0 GROUP BY id`, over rows of depth at most maxDepth. */
  ghost predicate CteDepth(E: seq<Edge>, start: Id, outbound: bool, maxDepth: nat, id: Id, d: nat) {
    && id != start && 0 < d <= maxDepth && AtDepth(E, start, outbound, id, d)
    && forall n: nat | 0 < n < d :: !AtDepth(E, start, outbound, id, n)
  }

  lemma {:induction false} OutboundRowsAreWalks(E: seq<Edge>, start: Id, id: Id, n: nat)
    ensures AtDepth(E, start, true, id, n) <==> Walk(E, start, id, n)
    decreases n
  {
    if n != 0 {
      if AtDepth(E, start, true, id, n) {
        var e :| e in E && Far(e, true) == id && AtDepth(E, start, true, Near(e, true), n - 1);
        OutboundRowsAreWalks(E, start, e.from, n - 1);
      }
      if Walk(E, start, id, n) {
        var e :| e in E && e.to == id && Walk(E, start, e.from, n - 1);
        OutboundRowsAreWalks(E, start, e.from, n - 1);
        assert Far(e, true) == id;
      }
    }
  }

  lemma {:induction false} WalkPrepend(E: seq<Edge>, e: Edge, v: Id, n: nat)
    requires e in E && Walk(E, e.to, v, n)
    ensures Walk(E, e.from, v, n + 1)
    decreases n
  {
    if n == 0 {
      assert Walk(E, e.from, e.from, 0);
    } else {
      var x :| x in E && x.to == v && Walk(E, e.to, x.from, n - 1);
      WalkPrepend(E, e, x.from, n - 1);
    }
  }

  lemma {:induction false} WalkFirst(E: seq<Edge>, u: Id, v: Id, n: nat) returns (e: Edge)
    requires n > 0 && Walk(E, u, v, n)
    ensures e in E && e.from == u && Walk(E, e.to, v, n - 1)
    decreases n
  {
    var x :| x in E && x.to == v && Walk(E, u, x.from, n - 1);
    if n == 1 {
      e := x;
    } else {
      e := WalkFirst(E, u, x.from, n - 1);
      assert Walk(E, e.to, v, n - 1);
    }
  }

  lemma {:induction false} InboundRowsAreWalks(E: seq<Edge>, start: Id, id: Id, n: nat)
    ensures AtDepth(E, start, false, id, n) <==> Walk(E, id, start, n)
    decreases n
  {
    if n != 0 {
      if AtDepth(E, start, false, id, n) {
        var e :| e in E && Far(e, false) == id && AtDepth(E, start, false, Near(e, false), n - 1);
        InboundRowsAreWalks(E, start, e.to, n - 1);
        WalkPrepend(E, e, start, n - 1);
      }
      if Walk(E, id, start, n) {
        var e := WalkFirst(E, id, start, n);
        InboundRowsAreWalks(E, start, e.to, n - 1);
        assert Far(e, false) == id;
      }
    }
  }

  /** A node's distance from the start, seen in one direction. */
  ghost predicate Away(E: seq<Edge>, start: Id, outbound: bool, id: Id, d: nat) {
    if outbound then Shortest(E, start, id, d) else Shortest(E, id, start, d)
  }

  /** Some node lies at this distance. */
  ghost predicate AnyAway(E: seq<Edge>, start: Id, outbound: bool, d: nat) {
    exists v :: Away(E, start, outbound, v, d)
  }

  lemma CteDepthIsShortest(E: seq<Edge>, start: Id, outbound: bool, maxDepth: nat, id: Id, d: nat)
    ensures CteDepth(E, start, outbound, maxDepth, id, d) <==>
            id != start && d <= maxDepth && Away(E, start, outbound, id, d)
  {
    forall n: nat
      ensures AtDepth(E, start, outbound, id, n) <==> if outbound then Walk(E, start, id, n) else Walk(E, id, start, n)
    {
      if outbound { OutboundRowsAreWalks(E, start, id, n); } else { InboundRowsAreWalks(E, start, id, n); }
    }
  }

  /** The closure rows a trace in one direction selects. */
  function Rows(t: Table, project: string, start: Id, outbound: bool, maxDepth: nat): set<TraceResult> {
    if outbound then OutboundRows(t, project, start, maxDepth) else InboundRows(t, project, start, maxDepth)
  }

  ghost predicate HasRow(rows: set<TraceResult>, id: Id, d: nat) {
    exists r :: r in rows && r.id == id && r.depth == d
  }

  /** How far a request reaches in a closure of depth D. */
  function Capped(maxDepth: nat, D: nat): nat {
    if maxDepth < D then maxDepth else D
  }

  /** Whatever the depth asked for, the fast path answers the recursive query cut at the built depth. */
  lemma FastPathIsCapped(t: Table, before: Table, E: seq<Edge>, project: string, D: nat, start: Id, outbound: bool,
                         maxDepth: nat, id: Id, d: nat)
    requires IsClosure(t, before, E, project, D)
    ensures HasRow(Rows(t, project, start, outbound, maxDepth), id, d)
            <==> CteDepth(E, start, outbound, Capped(maxDepth, D), id, d)
  {
    hide IsClosure, CteDepth, OutboundRows, InboundRows, Shortest;
    CteDepthIsShortest(E, start, outbound, Capped(maxDepth, D), id, d);
    if outbound {
      OutboundIsNeighbourhood(t, before, E, project, D, start, maxDepth, id, d);
    } else {
      OutboundIsNeighbourhood(t, before, E, project, D, id, maxDepth, start, d);
      InboundHasRow(t, project, start, maxDepth, id, d);
    }
  }

  lemma InboundHasRow(t: Table, project: string, start: Id, maxDepth: nat, id: Id, d: nat)
    ensures HasRow(InboundRows(t, project, start, maxDepth), id, d)
            <==> HasRow(OutboundRows(t, project, id, maxDepth), start, d)
  {
    hide OutboundRows, InboundRows;
    if r :| r in OutboundRows(t, project, id, maxDepth) && r.id == start && r.depth == d {
      InboundIsConverse(t, project, id, start, maxDepth, d, r.via);
      assert TraceResult(id, d, r.via) in InboundRows(t, project, start, maxDepth);
    }
    if r :| r in InboundRows(t, project, start, maxDepth) && r.id == id && r.depth == d {
      InboundIsConverse(t, project, id, start, maxDepth, d, r.via);
      assert TraceResult(start, d, r.via) in OutboundRows(t, project, id, maxDepth);
    }
  }

  /** A node at some distance has, towards the start, one at every smaller distance. */
  lemma {:induction false} NearerExists(E: seq<Edge>, start: Id, outbound: bool, v: Id, d: nat, k: nat) returns (w: Id)
    requires Away(E, start, outbound, v, d) && k <= d
    ensures Away(E, start, outbound, w, k)
    decreases d
  {
    if k == d { return v; }
    if outbound {
      var e := ShortestStep(E, start, v, d);
      w := NearerExists(E, start, outbound, e.from, d - 1, k);
    } else {
      var e := ShortestFirst(E, v, start, d);
      w := NearerExists(E, start, outbound, e.to, d - 1, k);
    }
  }

  /** A shortest path's first edge leads to a node one step nearer. */
  lemma ShortestFirst(E: seq<Edge>, u: Id, v: Id, d: nat) returns (e: Edge)
    requires d > 0 && Shortest(E, u, v, d)
    ensures e in E && e.from == u && Shortest(E, e.to, v, d - 1)
  {
    e := WalkFirst(E, u, v, d);
    forall n: nat | n < d - 1 ensures !Walk(E, e.to, v, n) {
      if Walk(E, e.to, v, n) { WalkPrepend(E, e, v, n); }
    }
  }

  /** The fast path and the query report the same nodes and depths. */
  ghost predicate SameAnswer(t: Table, E: seq<Edge>, project: string, start: Id, outbound: bool, maxDepth: nat) {
    forall id, d: nat ::
      HasRow(Rows(t, project, start, outbound, maxDepth), id, d) <==> CteDepth(E, start, outbound, maxDepth, id, d)
  }

  /**
   * In each direction the two paths give the same nodes and depths exactly if no more depth is asked for than was
   * built, or no node lies just beyond the built depth.
   */
  lemma FastPathAgrees(t: Table, before: Table, E: seq<Edge>, project: string, D: nat, start: Id, outbound: bool,
                       maxDepth: nat)
    requires IsClosure(t, before, E, project, D)
    ensures SameAnswer(t, E, project, start, outbound, maxDepth)
            <==> maxDepth <= D || !AnyAway(E, start, outbound, D + 1)
  {
    hide IsClosure, CteDepth, Rows, HasRow, Away;
    forall id, d: nat
      ensures HasRow(Rows(t, project, start, outbound, maxDepth), id, d)
              <==> id != start && d <= maxDepth && d <= D && Away(E, start, outbound, id, d)
      ensures CteDepth(E, start, outbound, maxDepth, id, d)
              <==> id != start && d <= maxDepth && Away(E, start, outbound, id, d)
    {
      FastPathIsCapped(t, before, E, project, D, start, outbound, maxDepth, id, d);
      CteDepthIsShortest(E, start, outbound, Capped(maxDepth, D), id, d);
      CteDepthIsShortest(E, start, outbound, maxDepth, id, d);
    }
    if maxDepth > D {
      var next := D + 1;
      if v :| Away(E, start, outbound, v, next) {
        StartIsNear(E, start, outbound, D + 1);
        assert CteDepth(E, start, outbound, maxDepth, v, D + 1);
      } else {
        forall id, d: nat | d > D ensures !Away(E, start, outbound, id, d) {
          if Away(E, start, outbound, id, d) { var w := NearerExists(E, start, outbound, id, d, D + 1); }
        }
      }
    }
  }

  lemma StartIsNear(E: seq<Edge>, start: Id, outbound: bool, d: nat)
    requires d > 0
    ensures !Away(E, start, outbound, start, d)
  {
    assert Walk(E, start, start, 0);
  }

  /** The edges of a path through these nodes. */
  function Chain(project: string, p: seq<Id>): (E: seq<Edge>)
    requires |p| > 0
    ensures |E| == |p| - 1 && forall i | 0 <= i < |E| :: E[i] == Edge(project, p[i], p[i + 1], "CALLS")
  {
    seq(|p| - 1, i requires 0 <= i < |p| - 1 => Edge(project, p[i], p[i + 1], "CALLS"))
  }

  ghost predicate AllDifferent(p: seq<Id>) {
    forall i, j | 0 <= i < j < |p| :: p[i] != p[j]
  }

  /** A node of the path is entered by the edge before it only. */
  lemma ChainEntry(project: string, p: seq<Id>, k: nat, e: Edge)
    requires AllDifferent(p) && k < |p|
    ensures e in Chain(project, p) && e.to == p[k] <==> k > 0 && e == Edge(project, p[k - 1], p[k], "CALLS")
  {
    var E := Chain(project, p);
    if e in E && e.to == p[k] {
      var i :| 0 <= i < |E| && E[i] == e;
      assert p[i + 1] == p[k];
    }
    if k > 0 { assert E[k - 1] in E; }
  }

  lemma {:induction false} ChainWalks(project: string, p: seq<Id>, k: nat, n: nat)
    requires AllDifferent(p) && k < |p|
    ensures Walk(Chain(project, p), p[0], p[k], n) <==> n == k
    decreases n
  {
    var E := Chain(project, p);
    hide Chain;
    if n > 0 {
      forall e ensures e in E && e.to == p[k] <==> k > 0 && e == Edge(project, p[k - 1], p[k], "CALLS") {
        ChainEntry(project, p, k, e);
      }
      if k > 0 {
        ChainWalks(project, p, k - 1, n - 1);
        assert Edge(project, p[k - 1], p[k], "CALLS") in E;
      }
    }
  }

  /** On a path one edge longer than the built depth, the query reports the last node and the closure does not. */
  lemma DeeperRequestDiffers(t: Table, before: Table, project: string, p: seq<Id>)
    requires |p| > 1 && AllDifferent(p) && IsClosure(t, before, Chain(project, p), project, |p| - 2)
    ensures CteDepth(Chain(project, p), p[0], true, |p| - 1, p[|p| - 1], |p| - 1)
    ensures forall r | r in Rows(t, project, p[0], true, |p| - 1) :: r.id != p[|p| - 1]
  {
    hide IsClosure, CteDepth, Rows, Chain;
    var E, n := Chain(project, p), |p| - 1;
    forall m: nat ensures Walk(E, p[0], p[n], m) <==> m == n { ChainWalks(project, p, n, m); }
    CteDepthIsShortest(E, p[0], true, n, p[n], n);
    forall r | r in Rows(t, project, p[0], true, n) ensures r.id != p[n] {
      assert HasRow(Rows(t, project, p[0], true, n), r.id, r.depth);
      FastPathIsCapped(t, before, E, project, n - 1, p[0], true, n, r.id, r.depth);
      CteDepthIsShortest(E, p[0], true, Capped(n, n - 1), r.id, r.depth);
    }
  }

  /** With the default depth of 3: A, B, C, D, F in a row, traced to depth 4, shows F on one path only. */
  lemma DefaultDepthDiffers(t: Table, before: Table, project: string)
    requires IsClosure(t, before, Chain(project, ["A", "B", "C", "D", "F"]), project, 3)
    ensures CteDepth(Chain(project, ["A", "B", "C", "D", "F"]), "A", true, 4, "F", 4)
    ensures forall r | r in Rows(t, project, "A", true, 4) :: r.id != "F"
  {
    hide IsClosure, CteDepth, Rows, HasRow, Chain;
    DeeperRequestDiffers(t, before, project, ["A", "B", "C", "D", "F"]);
  }

  /** `MIN(via)` over every row of the group. */
  ghost predicate CteVia(E: seq<Edge>, start: Id, outbound: bool, maxDepth: nat, id: Id, via: string) {
    && (exists n: nat :: 0 < n <= maxDepth && ReachRow(E, start, outbound, id, n, via))
    && forall n: nat, via' | 0 < n <= maxDepth && ReachRow(E, start, outbound, id, n, via') ::
        via == via'
        || TextLess(via, via')
  }
}
