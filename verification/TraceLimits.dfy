/** Trace results cut off at the limit: which nodes are kept is open, how many at each depth is not. */
module TraceLimits {
  import opened CallGraph
  import opened ClosureStore
  import opened CteTrace
  import opened TraceMerge
  import opened ViaKinds

  /** A node and its depth. */
  type Pair = (Id, nat)

  /** n of the pairs, none deeper than one left out: `ORDER BY depth LIMIT`, with ties in any order. */
  ghost predicate IsCut(all: set<Pair>, kept: set<Pair>, limit: nat) {
    && kept <= all && |kept| == (if |all| < limit then |all| else limit)
    && forall p, q | p in kept && q in all && q !in kept :: p.1 <= q.1
  }

  function UpTo(ps: set<Pair>, d: nat): set<Pair> {
    set p | p in ps && p.1 <= d
  }

  function AtExactly(ps: set<Pair>, d: nat): set<Pair> {
    set p | p in ps && p.1 == d
  }

  lemma Smaller(a: set<Pair>, b: set<Pair>)
    requires a <= b
    ensures |a| <= |b|
  {
    assert b == a + (b - a);
  }

  /** A cut holds all pairs up to a depth, or ends before it. */
  lemma CutUpTo(all: set<Pair>, kept: set<Pair>, limit: nat, d: nat)
    requires IsCut(all, kept, limit)
    ensures |UpTo(kept, d)| == if |UpTo(all, d)| < |kept| then |UpTo(all, d)| else |kept|
  {
    Smaller(UpTo(kept, d), UpTo(all, d));
    Smaller(UpTo(kept, d), kept);
    if q :| q in UpTo(all, d) && q !in kept {
      assert UpTo(kept, d) == kept;
    } else {
      assert UpTo(kept, d) == UpTo(all, d);
    }
  }

  /** Two cuts of the same pairs hold equally many at every depth. */
  lemma CutsAgree(all: set<Pair>, a: set<Pair>, b: set<Pair>, limit: nat, d: nat)
    requires IsCut(all, a, limit) && IsCut(all, b, limit)
    ensures |AtExactly(a, d)| == |AtExactly(b, d)|
  {
    CountAt(all, a, limit, d);
    CountAt(all, b, limit, d);
    CutUpTo(all, a, limit, d);
    CutUpTo(all, b, limit, d);
    if d > 0 {
      CutUpTo(all, a, limit, d - 1);
      CutUpTo(all, b, limit, d - 1);
    }
  }

  lemma CountAt(all: set<Pair>, kept: set<Pair>, limit: nat, d: nat)
    requires IsCut(all, kept, limit)
    ensures |AtExactly(kept, d)| == |UpTo(kept, d)| - if d == 0 then 0 else |UpTo(kept, d - 1)|
  {
    if d == 0 {
      assert UpTo(kept, 0) == AtExactly(kept, 0);
    } else {
      assert UpTo(kept, d) == UpTo(kept, d - 1) + AtExactly(kept, d);
    }
  }

  function Pairs(rows: set<TraceResult>): set<Pair> {
    set r | r in rows :: (r.id, r.depth)
  }

  lemma {:induction false} PairsCount(rows: set<TraceResult>)
    requires IdsUnique(rows)
    ensures |Pairs(rows)| == |rows|
    decreases rows
  {
    if r :| r in rows {
      var rest := rows - {r};
      PairsCount(rest);
      assert Pairs(rows) == Pairs(rest) + {(r.id, r.depth)};
      assert (r.id, r.depth) !in Pairs(rest);
    }
  }

  /** The closure's list is a cut of the rows it selects. */
  lemma TopIsCut(rows: set<TraceResult>, out: seq<TraceResult>, limit: nat)
    requires IdsUnique(rows) && IsTop(rows, out, limit)
    ensures IsCut(Pairs(rows), Pairs(AsSet(out)), limit)
  {
    var kept := AsSet(out);
    forall i, j | 0 <= i < j < |out| ensures out[i] != out[j] {
      TextLessIrreflexive(out[i].id);
      assert Before(out[i], out[j]);
    }
    SeqAsSet(out);
    assert kept <= rows;
    PairsCount(rows);
    PairsCount(kept);
    forall p, q | p in Pairs(kept) && q in Pairs(rows) && q !in Pairs(kept) ensures p.1 <= q.1 {
      var r :| r in out && p == (r.id, r.depth);
      var x :| x in rows && q == (x.id, x.depth);
      assert x !in kept;
      var i :| 0 <= i < |out| && out[i] == r;
      assert Before(out[i], x);
    }
  }

  /** What the recursive query may return for one direction, its limit included. */
  ghost predicate IsCutQuery(E: seq<Edge>, start: Id, outbound: bool, maxDepth: nat, q: seq<TraceResult>) {
    && DistinctIds(q)
    && exists all: set<Pair> ::
         && (forall id, d: nat :: (id, d) in all <==> CteDepth(E, start, outbound, maxDepth, id, d))
         && IsCut(all, Pairs(AsSet(q)), LIMIT)
  }

  /** Where the two paths answer the same, their cut-off answers hold equally many nodes at every depth. */
  lemma CutOffAgrees(t: Table, E: seq<Edge>, project: string, start: Id, outbound: bool, maxDepth: nat,
                     o: seq<TraceResult>, q: seq<TraceResult>, d: nat)
    requires SameAnswer(t, E, project, start, outbound, maxDepth)
    requires IsTop(Rows(t, project, start, outbound, maxDepth), o, LIMIT)
    requires IsCutQuery(E, start, outbound, maxDepth, q)
    ensures |AtExactly(Pairs(AsSet(o)), d)| == |AtExactly(Pairs(AsSet(q)), d)|
  {
    var rows := Rows(t, project, start, outbound, maxDepth);
    TraceIdsUnique(t, project, start, maxDepth);
    assert IdsUnique(rows);
    hide Rows, IsTop, IsCut, CteDepth;
    TopIsCut(rows, o, LIMIT);
    var all: set<Pair> :| (forall id, d: nat :: (id, d) in all <==> CteDepth(E, start, outbound, maxDepth, id, d))
                          && IsCut(all, Pairs(AsSet(q)), LIMIT);
    forall p: Pair ensures p in all <==> p in Pairs(rows) {
      var (id, n) := p;
      assert HasRow(rows, id, n) <==> CteDepth(E, start, outbound, maxDepth, id, n);
    }
    assert all == Pairs(rows);
    CutsAgree(all, Pairs(AsSet(o)), Pairs(AsSet(q)), LIMIT, d);
  }
}
