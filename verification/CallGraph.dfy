/** The edge table read by the closure builders, and shortest paths in it. */
module CallGraph {

  type Id = string

  /** One row of the `edges` table. */
  datatype Edge = Edge(project: string, from: Id, to: Id, kind: string)

  predicate CallsFamily(kind: string) {
    kind == "CALLS" || kind == "HTTP_CALLS" || kind == "ASYNC_CALLS"
  }

  /** `SELECT ... WHERE project_id = ?`, with the kind filter when `callsOnly`; row order is kept. */
  function Select(edges: seq<Edge>, project: string, callsOnly: bool): (rows: seq<Edge>)
    ensures forall e :: e in rows <==> e in edges && e.project == project && (callsOnly ==> CallsFamily(e.kind))
  {
    if edges == [] then []
    else
      (if edges[0].project == project && (callsOnly ==> CallsFamily(edges[0].kind)) then [edges[0]] else [])
      + Select(edges[1..], project, callsOnly)
  }

  /** A walk of exactly n edges leads from u to v. */
  ghost predicate Walk(E: seq<Edge>, u: Id, v: Id, n: nat)
    decreases n
  {
    if n == 0 then u == v
    else exists e :: e in E && e.to == v && Walk(E, u, e.from, n - 1)
  }

  /** d is the shortest-path length from u to v. */
  ghost predicate Shortest(E: seq<Edge>, u: Id, v: Id, d: nat) {
    Walk(E, u, v, d) && forall n: nat | n < d :: !Walk(E, u, v, n)
  }

  predicate Linked(E: seq<Edge>, u: Id, v: Id) {
    exists e | e in E :: e.from == u && e.to == v
  }

  /** An explicit node sequence joined by edges. */
  predicate IsPath(E: seq<Edge>, p: seq<Id>, u: Id, v: Id) {
    && |p| > 0 && p[0] == u && p[|p| - 1] == v
    && forall i | 0 <= i < |p| - 1 :: Linked(E, p[i], p[i + 1])
  }

  /** `Walk` counts the edges of explicit paths. */
  lemma {:induction false} WalkIsPath(E: seq<Edge>, u: Id, v: Id, n: nat)
    ensures Walk(E, u, v, n) <==> exists p :: IsPath(E, p, u, v) && |p| == n + 1
    decreases n
  {
    if n == 0 {
      if u == v { assert IsPath(E, [u], u, v); }
    } else {
      if Walk(E, u, v, n) {
        var e :| e in E && e.to == v && Walk(E, u, e.from, n - 1);
        WalkIsPath(E, u, e.from, n - 1);
        var p :| IsPath(E, p, u, e.from) && |p| == n;
        assert Linked(E, e.from, v);
        assert IsPath(E, p + [v], u, v);
      }
      if exists p :: IsPath(E, p, u, v) && |p| == n + 1 {
        var p :| IsPath(E, p, u, v) && |p| == n + 1;
        assert Linked(E, p[n - 1], p[n - 1 + 1]);
        var e :| e in E && e.from == p[n - 1] && e.to == v;
        assert IsPath(E, p[..n], u, e.from);
        WalkIsPath(E, u, e.from, n - 1);
      }
    }
  }

  /** A node on a walk of length at most n has a shortest-path length, at most n. */
  lemma {:induction false} ShortestExists(E: seq<Edge>, u: Id, v: Id, n: nat) returns (d: nat)
    requires Walk(E, u, v, n)
    ensures d <= n && Shortest(E, u, v, d)
    decreases n
  {
    if m: nat :| m < n && Walk(E, u, v, m) {
      d := ShortestExists(E, u, v, m);
    } else {
      d := n;
    }
  }

  /** v is reached by a walk of at most n edges. */
  ghost predicate Within(E: seq<Edge>, u: Id, v: Id, n: nat) {
    exists m: nat :: m <= n && Walk(E, u, v, m)
  }

  lemma WithinStep(E: seq<Edge>, u: Id, v: Id, n: nat)
    ensures Within(E, u, v, n + 1) <==> Within(E, u, v, n) || Shortest(E, u, v, n + 1)
  {
    if Within(E, u, v, n + 1) {
      var m: nat :| m <= n + 1 && Walk(E, u, v, m);
      var d := ShortestExists(E, u, v, m);
      assert d == n + 1 || d <= n;
    }
  }

  /** A shortest path's last edge leaves a node one step nearer. */
  lemma ShortestStep(E: seq<Edge>, u: Id, v: Id, d: nat) returns (e: Edge)
    requires d > 0 && Shortest(E, u, v, d)
    ensures e in E && e.to == v && Shortest(E, u, e.from, d - 1)
  {
    e :| e in E && e.to == v && Walk(E, u, e.from, d - 1);
    forall n: nat | n < d - 1 ensures !Walk(E, u, e.from, n) {
      if Walk(E, u, e.from, n) { assert Walk(E, u, v, n + 1); }
    }
  }
}
