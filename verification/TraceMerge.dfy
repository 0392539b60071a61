/** Traces in both directions: the recursive query merges them, the closure path lists one after the other. */
module TraceMerge {
  import opened CallGraph
  import opened ClosureStore
  import opened ClosureTheorems
  import opened CteTrace
  import opened ViaKinds

  ghost predicate Lists(rows: seq<TraceResult>, id: Id) {
    exists r :: r in rows && r.id == id
  }

  ghost predicate ListsAt(rows: seq<TraceResult>, id: Id, d: nat) {
    exists r :: r in rows && r.id == id && r.depth == d
  }

  ghost predicate DistinctIds(rows: seq<TraceResult>) {
    forall i, j | 0 <= i < j < |rows| :: rows[i].id != rows[j].id
  }

  /** What one run of the recursive query returns when its limit does not cut: one row per node, in some order. */
  ghost predicate IsQueryResult(E: seq<Edge>, start: Id, outbound: bool, maxDepth: nat, rows: seq<TraceResult>) {
    && DistinctIds(rows)
    && (forall id, d: nat :: CteDepth(E, start, outbound, maxDepth, id, d) <==> ListsAt(rows, id, d))
    && (forall r | r in rows :: CteVia(E, start, outbound, maxDepth, r.id, r.via))
  }

  /** The row kept for an id: the outbound one unless the inbound one is strictly nearer. */
  ghost predicate Kept(outbound: seq<TraceResult>, inbound: seq<TraceResult>, r: TraceResult) {
    if r in outbound then forall x | x in inbound && x.id == r.id :: r.depth <= x.depth
    else r in inbound && forall x | x in outbound && x.id == r.id :: r.depth < x.depth
  }

  /** The merge so far: `byID0` with these rows added. */
  ghost predicate Added(byID0: map<Id, TraceResult>, rows: seq<TraceResult>, byID: map<Id, TraceResult>) {
    && (forall id :: id in byID <==> id in byID0 || Lists(rows, id))
    && (forall id | id in byID && !Lists(rows, id) :: byID[id] == byID0[id])
    && (forall r | r in rows :: r.id in byID && byID[r.id] == Nearer(byID0, r))
  }

  function Nearer(byID: map<Id, TraceResult>, r: TraceResult): TraceResult {
    if r.id in byID && byID[r.id].depth <= r.depth then byID[r.id] else r
  }

  /** An id not listed so far is still as it was. */
  lemma NewId(byID0: map<Id, TraceResult>, rows: seq<TraceResult>, byID: map<Id, TraceResult>, i: nat)
    requires DistinctIds(rows) && i < |rows| && Added(byID0, rows[..i], byID)
    ensures Nearer(byID, rows[i]) == Nearer(byID0, rows[i]) && forall x | x in rows[..i] :: x.id != rows[i].id
  {
    var r := rows[i];
    forall x | x in rows[..i] ensures x.id != r.id {
      var k :| 0 <= k < i && rows[k] == x;
    }
    assert !Lists(rows[..i], r.id);
  }

  lemma AddedStep(byID0: map<Id, TraceResult>, rows: seq<TraceResult>, byID: map<Id, TraceResult>, i: nat)
    requires DistinctIds(rows) && i < |rows| && Added(byID0, rows[..i], byID)
    ensures Added(byID0, rows[..i + 1], byID[rows[i].id := Nearer(byID, rows[i])])
  {
    NewId(byID0, rows, byID, i);
    ListsSnoc(rows, i);
    hide Lists, DistinctIds, Nearer;
  }

  method AddRows(byID0: map<Id, TraceResult>, rows: seq<TraceResult>) returns (byID: map<Id, TraceResult>)
    requires DistinctIds(rows)
    ensures Added(byID0, rows, byID)
  {
    byID := byID0;
    assert Added(byID0, rows[..0], byID);
    hide Added, DistinctIds;
    for i := 0 to |rows|
      invariant Added(byID0, rows[..i], byID)
    {
      var r := rows[i];
      AddedStep(byID0, rows, byID, i);
      var takes := r.id !in byID || r.depth < byID[r.id].depth;
      assert byID[r.id := Nearer(byID, r)] == if takes then byID[r.id := r] else byID;
      if takes { byID := byID[r.id := r]; }
    }
    assert rows[..|rows|] == rows;
  }

  lemma ListsSnoc(rows: seq<TraceResult>, i: nat)
    requires i < |rows|
    ensures forall id :: Lists(rows[..i + 1], id) <==> Lists(rows[..i], id) || id == rows[i].id
    ensures forall r :: r in rows[..i + 1] <==> r in rows[..i] || r == rows[i]
  {
    assert rows[..i + 1] == rows[..i] + [rows[i]];
    assert rows[i] in rows[..i + 1];
  }

  lemma AddedIsMerge(o: seq<TraceResult>, i: seq<TraceResult>, mid: map<Id, TraceResult>, byID: map<Id, TraceResult>)
    requires Added(map[], o, mid) && Added(mid, i, byID)
    ensures IsMerge(o, i, byID)
  {
    forall id | id in byID ensures byID[id].id == id && Kept(o, i, byID[id]) {
      if Lists(i, id) {
        var r :| r in i && r.id == id;
        if Lists(o, id) { var x :| x in o && x.id == id; }
      } else {
        assert Lists(o, id);
        var x :| x in o && x.id == id;
      }
    }
  }

  lemma NothingAdded(byID: map<Id, TraceResult>)
    ensures Added(byID, [], byID)
  {
  }

  /** `traceViaCTE`: the rows of the directions asked for, merged by id; a failing query gives none. */
  method TraceViaCte(direction: string, outbound: seq<TraceResult>, inbound: seq<TraceResult>)
    returns (err: bool, byID: map<Id, TraceResult>)
    requires DistinctIds(outbound) && DistinctIds(inbound)
    ensures err ==> byID == map[]
    ensures !err ==>
              var o := if direction == "outbound" || direction == "both" then outbound else [];
              var i := if direction == "inbound" || direction == "both" then inbound else [];
              IsMerge(o, i, byID)
  {
    hide Added, DistinctIds, IsMerge;
    err, byID := false, map[];
    ghost var o, i := [], [];
    NothingAdded(byID);
    if direction == "outbound" || direction == "both" {
      err := SqlError();
      if err { return true, map[]; }
      byID := AddRows(byID, outbound);
      o := outbound;
    }
    ghost var mid := byID;
    NothingAdded(byID);
    if direction == "inbound" || direction == "both" {
      err := SqlError();
      if err { return true, map[]; }
      byID := AddRows(byID, inbound);
      i := inbound;
    }
    AddedIsMerge(o, i, mid, byID);
  }

  /** The merged rows: every listed id once, with the row kept for it. */
  ghost predicate IsMerge(outbound: seq<TraceResult>, inbound: seq<TraceResult>, byID: map<Id, TraceResult>) {
    && (forall id :: id in byID <==> Lists(outbound, id) || Lists(inbound, id))
    && (forall id | id in byID :: byID[id].id == id && Kept(outbound, inbound, byID[id]))
  }

  function AsSet(out: seq<TraceResult>): (s: set<TraceResult>)
    ensures forall r :: r in s <==> r in out
  {
    set r: TraceResult | r in out
  }

  lemma {:induction false} SeqAsSet(out: seq<TraceResult>)
    requires forall i, j | 0 <= i < j < |out| :: out[i] != out[j]
    ensures |AsSet(out)| == |out|
  {
    if out != [] {
      var init, last := out[..|out| - 1], out[|out| - 1];
      SeqAsSet(init);
      assert AsSet(out) == AsSet(init) + {last};
      assert last !in init;
    }
  }

  lemma EqualSize(small: set<TraceResult>, rows: set<TraceResult>)
    requires small <= rows && |small| == |rows|
    ensures small == rows
  {
    assert |rows - small| == 0;
  }

  /** Below the limit the ordered list holds all rows, each id once. */
  lemma TopIsAll(rows: set<TraceResult>, out: seq<TraceResult>)
    requires IsTop(rows, out, LIMIT) && |rows| <= LIMIT && IdsUnique(rows)
    ensures forall r :: r in out <==> r in rows
    ensures DistinctIds(out)
  {
    forall i, j | 0 <= i < j < |out| ensures out[i].id != out[j].id {
      TextLessIrreflexive(out[i].id);
      assert out[i] in out && out[j] in out;
      assert Before(out[i], out[j]);
    }
    SeqAsSet(out);
    EqualSize(AsSet(out), rows);
  }

  /** The listed rows are the other nodes within the bound, with their distances. */
  ghost predicate ListsNear(E: seq<Edge>, start: Id, outbound: bool, maxDepth: nat, rows: seq<TraceResult>) {
    && DistinctIds(rows)
    && (forall r | r in rows :: r.id != start && r.depth <= maxDepth && Away(E, start, outbound, r.id, r.depth))
    && (forall id, d: nat | id != start && d <= maxDepth && Away(E, start, outbound, id, d) :: Lists(rows, id))
  }

  lemma QueryListsNear(E: seq<Edge>, start: Id, outbound: bool, maxDepth: nat, rows: seq<TraceResult>)
    requires IsQueryResult(E, start, outbound, maxDepth, rows)
    ensures ListsNear(E, start, outbound, maxDepth, rows)
  {
    hide CteDepth, Shortest, CteVia, ListsAt, ListsNear, DistinctIds;
    forall id, d: nat
      ensures ListsAt(rows, id, d) <==> id != start && d <= maxDepth && Away(E, start, outbound, id, d)
    {
      CteDepthIsShortest(E, start, outbound, maxDepth, id, d);
    }
    ListedNear(E, start, outbound, maxDepth, rows);
  }

  lemma ClosureListsNear(t: Table, before: Table, E: seq<Edge>, project: string, D: nat, start: Id, outbound: bool,
                         maxDepth: nat, rows: seq<TraceResult>)
    requires IsClosure(t, before, E, project, D)
    requires |Rows(t, project, start, outbound, maxDepth)| <= LIMIT
    requires IsTop(Rows(t, project, start, outbound, maxDepth), rows, LIMIT)
    ensures ListsNear(E, start, outbound, Capped(maxDepth, D), rows)
  {
    TraceIdsUnique(t, project, start, maxDepth);
    assert IdsUnique(Rows(t, project, start, outbound, maxDepth));
    hide IsClosure, IsTop, Rows, CteDepth, Shortest, ListsNear, DistinctIds, Capped;
    TopIsAll(Rows(t, project, start, outbound, maxDepth), rows);
    var bound := Capped(maxDepth, D);
    forall id, d: nat
      ensures ListsAt(rows, id, d) <==> id != start && d <= bound && Away(E, start, outbound, id, d)
    {
      FastPathIsCapped(t, before, E, project, D, start, outbound, maxDepth, id, d);
      CteDepthIsShortest(E, start, outbound, bound, id, d);
    }
    ListedNear(E, start, outbound, bound, rows);
  }

  lemma ListedNear(E: seq<Edge>, start: Id, outbound: bool, maxDepth: nat, rows: seq<TraceResult>)
    requires DistinctIds(rows)
    requires forall id, d: nat ::
             ListsAt(rows, id, d)
             <==> id != start && d <= maxDepth && Away(E, start, outbound, id, d)
    ensures ListsNear(E, start, outbound, maxDepth, rows)
  {
    hide Away, DistinctIds;
    forall r | r in rows ensures r.id != start && r.depth <= maxDepth && Away(E, start, outbound, r.id, r.depth) {
      assert ListsAt(rows, r.id, r.depth);
    }
  }

  lemma AwayOnce(E: seq<Edge>, start: Id, outbound: bool, id: Id, d: nat, d': nat)
    requires Away(E, start, outbound, id, d) && Away(E, start, outbound, id, d')
    ensures d == d'
  {
  }

  /** v is a different node reached from the start and reaching it, at these distances within the bound. */
  ghost predicate BothWays(E: seq<Edge>, start: Id, maxDepth: nat, v: Id, d: nat, d': nat) {
    v != start && d <= maxDepth && d' <= maxDepth && Away(E, start, true, v, d) && Away(E, start, false, v, d')
  }

  lemma ListsSum(a: seq<TraceResult>, b: seq<TraceResult>)
    ensures forall id :: Lists(a + b, id) <==> Lists(a, id) || Lists(b, id)
    ensures forall id, d: nat :: ListsAt(a + b, id, d) <==> ListsAt(a, id, d) || ListsAt(b, id, d)
  {
  }

  lemma NearIffListed(E: seq<Edge>, start: Id, outbound: bool, maxDepth: nat, rows: seq<TraceResult>, id: Id, d: nat)
    requires ListsNear(E, start, outbound, maxDepth, rows)
    ensures ListsAt(rows, id, d) <==> id != start && d <= maxDepth && Away(E, start, outbound, id, d)
  {
    hide Away;
    if id != start && d <= maxDepth && Away(E, start, outbound, id, d) {
      var r :| r in rows && r.id == id;
      AwayOnce(E, start, outbound, id, d, r.depth);
    }
  }

  /** A different node at this distance, within the bound, in one direction or the other. */
  ghost predicate Near(E: seq<Edge>, start: Id, bound: nat, id: Id, d: nat) {
    id != start && d <= bound && (Away(E, start, true, id, d) || Away(E, start, false, id, d))
  }

  lemma ListedIffNear(E: seq<Edge>, start: Id, bound: nat, o: seq<TraceResult>, i: seq<TraceResult>, id: Id, d: nat)
    requires ListsNear(E, start, true, bound, o) && ListsNear(E, start, false, bound, i)
    ensures ListsAt(o + i, id, d) <==> Near(E, start, bound, id, d)
  {
    hide Away, ListsNear, ListsAt;
    NearIffListed(E, start, true, bound, o, id, d);
    NearIffListed(E, start, false, bound, i, id, d);
    ListsSum(o, i);
  }

  lemma ListsSomewhere(rows: seq<TraceResult>, id: Id)
    ensures Lists(rows, id) <==> exists d: nat :: ListsAt(rows, id, d)
  {
    if r :| r in rows && r.id == id { assert ListsAt(rows, id, r.depth); }
  }

  /** The merged depth of a node is the lesser of its depths in the two directions. */
  lemma MergedDepth(qo: seq<TraceResult>, qi: seq<TraceResult>, byID: map<Id, TraceResult>, id: Id)
    requires IsMerge(qo, qi, byID) && id in byID && DistinctIds(qo) && DistinctIds(qi)
    ensures var d := byID[id].depth;
            && (ListsAt(qo, id, d) || ListsAt(qi, id, d))
            && forall x | x in qo + qi && x.id == id :: d <= x.depth
  {
  }

  /** The merge holds every node within the bound, at its nearest distance. */
  lemma MergedIsNearest(E: seq<Edge>, start: Id, maxDepth: nat, qo: seq<TraceResult>, qi: seq<TraceResult>,
                        byID: map<Id, TraceResult>, id: Id)
    requires ListsNear(E, start, true, maxDepth, qo) && ListsNear(E, start, false, maxDepth, qi)
             && IsMerge(qo, qi, byID)
    ensures id in byID <==> exists d: nat :: Near(E, start, maxDepth, id, d)
    ensures id in byID ==>
              && Near(E, start, maxDepth, id, byID[id].depth)
              && forall d: nat | Near(E, start, maxDepth, id, d) :: byID[id].depth <= d
  {
    hide Away, Near, Kept;
    forall d: nat ensures ListsAt(qo + qi, id, d) <==> Near(E, start, maxDepth, id, d) {
      ListedIffNear(E, start, maxDepth, qo, qi, id, d);
    }
    ListsSomewhere(qo + qi, id);
    ListsSum(qo, qi);
    hide ListsNear, IsMerge, ListsAt, Lists, DistinctIds;
    InMerge(qo, qi, byID, id);
    if id in byID { LeastListed(E, start, maxDepth, qo, qi, byID, id); }
  }

  lemma InMerge(qo: seq<TraceResult>, qi: seq<TraceResult>, byID: map<Id, TraceResult>, id: Id)
    requires IsMerge(qo, qi, byID)
    ensures id in byID <==> Lists(qo, id) || Lists(qi, id)
  {
  }

  lemma LeastListed(E: seq<Edge>, start: Id, maxDepth: nat, qo: seq<TraceResult>, qi: seq<TraceResult>,
                    byID: map<Id, TraceResult>, id: Id)
    requires ListsNear(E, start, true, maxDepth, qo) && ListsNear(E, start, false, maxDepth, qi)
             && IsMerge(qo, qi, byID) && id in byID
    ensures ListsAt(qo + qi, id, byID[id].depth)
    ensures forall d: nat | ListsAt(qo + qi, id, d) :: byID[id].depth <= d
  {
    hide Away, IsMerge;
    MergedDepth(qo, qi, byID, id);
    ListsSum(qo, qi);
  }

  /** Every node beyond the built depth in one direction lies within it in the other. */
  ghost predicate Covered(E: seq<Edge>, start: Id, bound: nat, maxDepth: nat) {
    forall v, outbound, d: nat | v != start && bound < d <= maxDepth && Away(E, start, outbound, v, d) ::
      NearIn(E, start, !outbound, bound, v)
  }

  ghost predicate NearIn(E: seq<Edge>, start: Id, outbound: bool, bound: nat, v: Id) {
    exists d: nat :: d <= bound && Away(E, start, outbound, v, d)
  }

  lemma CoveredIff(E: seq<Edge>, start: Id, bound: nat, maxDepth: nat)
    requires bound <= maxDepth
    ensures Covered(E, start, bound, maxDepth)
            <==> forall v, d: nat | Near(E, start, maxDepth, v, d) :: exists d': nat :: Near(E, start, bound, v, d')
  {
    hide Away;
    if Covered(E, start, bound, maxDepth) {
      forall v, d: nat | Near(E, start, maxDepth, v, d) ensures exists d': nat :: Near(E, start, bound, v, d') {
        if d <= bound {
          assert Near(E, start, bound, v, d);
        } else {
          var outbound := Away(E, start, true, v, d);
          assert NearIn(E, start, !outbound, bound, v);
          var d': nat :| d' <= bound && Away(E, start, !outbound, v, d');
          assert Near(E, start, bound, v, d');
        }
      }
    }
    if forall v, d: nat | Near(E, start, maxDepth, v, d) :: exists d': nat :: Near(E, start, bound, v, d') {
      forall v, outbound, d: nat | v != start && bound < d <= maxDepth && Away(E, start, outbound, v, d)
        ensures NearIn(E, start, !outbound, bound, v)
      {
        assert Near(E, start, maxDepth, v, d);
        var d': nat :| Near(E, start, bound, v, d');
        if Away(E, start, outbound, v, d') { AwayOnce(E, start, outbound, v, d, d'); }
      }
    }
  }

  /** The closure's list and the merged query name the same nodes exactly if the built depth covers the request. */
  lemma NodesAgreeIff(E: seq<Edge>, start: Id, bound: nat, maxDepth: nat, o: seq<TraceResult>, i: seq<TraceResult>,
                      qo: seq<TraceResult>, qi: seq<TraceResult>, byID: map<Id, TraceResult>)
    requires bound <= maxDepth && ListsNear(E, start, true, bound, o) && ListsNear(E, start, false, bound, i)
    requires ListsNear(E, start, true, maxDepth, qo) && ListsNear(E, start, false, maxDepth, qi)
             && IsMerge(qo, qi, byID)
    ensures (forall id :: id in byID <==> Lists(o + i, id)) <==> Covered(E, start, bound, maxDepth)
  {
    hide ListsNear, Lists, ListsAt, IsMerge, Away, Covered, Near;
    CoveredIff(E, start, bound, maxDepth);
    forall id ensures id in byID <==> exists d: nat :: Near(E, start, maxDepth, id, d) {
      MergedIsNearest(E, start, maxDepth, qo, qi, byID, id);
    }
    forall id ensures Lists(o + i, id) <==> exists d: nat :: Near(E, start, bound, id, d) {
      ListsSomewhere(o + i, id);
      forall d: nat ensures ListsAt(o + i, id, d) <==> Near(E, start, bound, id, d) {
        ListedIffNear(E, start, bound, o, i, id, d);
      }
    }
    forall id, d: nat | Near(E, start, bound, id, d) ensures Near(E, start, maxDepth, id, d) {
      WiderBound(E, start, bound, maxDepth, id);
    }
    if forall id :: id in byID <==> Lists(o + i, id) {
      forall v, d: nat | Near(E, start, maxDepth, v, d) ensures exists d': nat :: Near(E, start, bound, v, d') {
        assert v in byID && Lists(o + i, v);
      }
    }
  }

  /** The closure's list and the merged query give the same pairs of node and depth. */
  ghost predicate SamePairs(rows: seq<TraceResult>, byID: map<Id, TraceResult>) {
    forall id, d: nat :: ListsAt(rows, id, d) <==> id in byID && byID[id].depth == d
  }

  /** No other node lies at two different distances from and to the start. */
  ghost predicate OneDistance(E: seq<Edge>, start: Id, bound: nat) {
    forall v, d: nat, d': nat | BothWays(E, start, bound, v, d, d') :: d == d'
  }

  /**
   * They name them at the same depths exactly if, besides, no other node lies at two different distances from and to
   * the start.
   */
  lemma DepthsAgreeIff(E: seq<Edge>, start: Id, bound: nat, maxDepth: nat, o: seq<TraceResult>, i: seq<TraceResult>,
                       qo: seq<TraceResult>, qi: seq<TraceResult>, byID: map<Id, TraceResult>)
    requires bound <= maxDepth && ListsNear(E, start, true, bound, o) && ListsNear(E, start, false, bound, i)
    requires ListsNear(E, start, true, maxDepth, qo) && ListsNear(E, start, false, maxDepth, qi)
             && IsMerge(qo, qi, byID)
    ensures SamePairs(o + i, byID) <==> Covered(E, start, bound, maxDepth) && OneDistance(E, start, bound)
  {
    hide ListsNear, IsMerge, Away, Covered, BothWays, Near, OneDistance;
    NodesAgreeIff(E, start, bound, maxDepth, o, i, qo, qi, byID);
    forall id, d: nat ensures ListsAt(o + i, id, d) <==> Near(E, start, bound, id, d) {
      ListedIffNear(E, start, bound, o, i, id, d);
    }
    forall id ensures Lists(o + i, id) <==> exists d: nat :: ListsAt(o + i, id, d) { ListsSomewhere(o + i, id); }
    if SamePairs(o + i, byID) {
      hide Lists, ListsAt;
      OneDistanceIff(E, start, bound);
      forall id ensures id in byID <==> Lists(o + i, id) {
        if id in byID { assert ListsAt(o + i, id, byID[id].depth); }
      }
    }
    if Covered(E, start, bound, maxDepth) && OneDistance(E, start, bound) {
      hide Lists, ListsAt;
      OneDistanceIff(E, start, bound);
      forall id, d: nat ensures ListsAt(o + i, id, d) <==> id in byID && byID[id].depth == d {
        MergedIsNearest(E, start, maxDepth, qo, qi, byID, id);
        WiderBound(E, start, bound, maxDepth, id);
      }
    }
  }

  lemma WiderBound(E: seq<Edge>, start: Id, bound: nat, maxDepth: nat, id: Id)
    requires bound <= maxDepth
    ensures forall d: nat :: Near(E, start, bound, id, d) <==> Near(E, start, maxDepth, id, d) && d <= bound
  {
  }

  lemma OneDistanceIff(E: seq<Edge>, start: Id, bound: nat)
    ensures OneDistance(E, start, bound)
            <==> forall v, d: nat, d': nat | Near(E, start, bound, v, d) && Near(E, start, bound, v, d') :: d == d'
  {
    hide Away;
    if OneDistance(E, start, bound) {
      forall v, d: nat, d': nat | Near(E, start, bound, v, d) && Near(E, start, bound, v, d') ensures d == d' {
        if Away(E, start, true, v, d) && Away(E, start, true, v, d') { AwayOnce(E, start, true, v, d, d'); }
        else if Away(E, start, false, v, d) && Away(E, start, false, v, d') { AwayOnce(E, start, false, v, d, d'); }
        else if Away(E, start, true, v, d) { assert BothWays(E, start, bound, v, d, d'); }
        else { assert BothWays(E, start, bound, v, d', d); }
      }
    }
    if forall v, d: nat, d': nat | Near(E, start, bound, v, d) && Near(E, start, bound, v, d') :: d == d' {
      forall v, d: nat, d': nat | BothWays(E, start, bound, v, d, d') ensures d == d' {
        assert Near(E, start, bound, v, d) && Near(E, start, bound, v, d');
      }
    }
  }

  /** The closure's list repeats no node exactly if no other node is reached both ways. */
  lemma NoRepeatIff(E: seq<Edge>, start: Id, maxDepth: nat, o: seq<TraceResult>, i: seq<TraceResult>)
    requires ListsNear(E, start, true, maxDepth, o) && ListsNear(E, start, false, maxDepth, i)
    ensures DistinctIds(o + i) <==> forall v, d: nat, d': nat :: !BothWays(E, start, maxDepth, v, d, d')
  {
    hide Away;
    var all := o + i;
    if v, d: nat, d': nat :| BothWays(E, start, maxDepth, v, d, d') {
      var a :| 0 <= a < |o| && o[a].id == v by { assert Lists(o, v); }
      var b :| 0 <= b < |i| && i[b].id == v by { assert Lists(i, v); }
      assert all[a].id == all[|o| + b].id;
    }
    if a, b :| 0 <= a < b < |all| && all[a].id == all[b].id {
      assert a < |o| <= b;
      assert o[a] in o && i[b - |o|] in i;
      assert BothWays(E, start, maxDepth, o[a].id, o[a].depth, i[b - |o|].depth);
    }
  }

  /** The trace in both directions as the two paths answer it, for any depth, below the limit. */
  lemma BothDirections(t: Table, before: Table, E: seq<Edge>, project: string, D: nat, start: Id, maxDepth: nat,
                       o: seq<TraceResult>, i: seq<TraceResult>, qo: seq<TraceResult>, qi: seq<TraceResult>,
                       byID: map<Id, TraceResult>)
    requires IsClosure(t, before, E, project, D)
    requires forall outbound :: |Rows(t, project, start, outbound, maxDepth)| <= LIMIT
    requires IsTop(Rows(t, project, start, true, maxDepth), o, LIMIT)
    requires IsTop(Rows(t, project, start, false, maxDepth), i, LIMIT)
    requires IsQueryResult(E, start, true, maxDepth, qo) && IsQueryResult(E, start, false, maxDepth, qi)
             && IsMerge(qo, qi, byID)
    ensures (forall id :: id in byID <==> Lists(o + i, id)) <==> Covered(E, start, Capped(maxDepth, D), maxDepth)
    ensures maxDepth <= D ==> Covered(E, start, Capped(maxDepth, D), maxDepth)
    ensures SamePairs(o + i, byID)
            <==> Covered(E, start, Capped(maxDepth, D), maxDepth) && OneDistance(E, start, Capped(maxDepth, D))
    ensures DistinctIds(o + i) <==> forall v, d: nat, d': nat :: !BothWays(E, start, Capped(maxDepth, D), v, d, d')
  {
    var bound := Capped(maxDepth, D);
    assert bound <= maxDepth && (maxDepth <= D ==> Covered(E, start, bound, maxDepth));
    hide *;
    ClosureListsNear(t, before, E, project, D, start, true, maxDepth, o);
    ClosureListsNear(t, before, E, project, D, start, false, maxDepth, i);
    QueryListsNear(E, start, true, maxDepth, qo);
    QueryListsNear(E, start, false, maxDepth, qi);
    NodesAgreeIff(E, start, bound, maxDepth, o, i, qo, qi, byID);
    DepthsAgreeIff(E, start, bound, maxDepth, o, i, qo, qi, byID);
    NoRepeatIff(E, start, bound, o, i);
  }

  lemma ShortTwo(E: seq<Edge>, e: Edge, f: Edge)
    requires e in E && f in E && e.to == f.from && e.from != f.to
    requires forall g | g in E :: !(g.from == e.from && g.to == f.to)
    ensures Shortest(E, e.from, f.to, 2)
  {
    OneStep(E, e.from, e.to);
    OneStep(E, e.from, f.to);
  }

  lemma ShortOne(E: seq<Edge>, e: Edge)
    requires e in E && e.from != e.to
    ensures Shortest(E, e.from, e.to, 1)
  {
    OneStep(E, e.from, e.to);
  }

  /** On the cycle A, B, C the closure lists B twice, at depths 1 and 2, and the query once. */
  lemma CycleDiffers(project: string, o: seq<TraceResult>, i: seq<TraceResult>, qo: seq<TraceResult>,
                     qi: seq<TraceResult>, byID: map<Id, TraceResult>)
    requires var E := [Edge(project, "A", "B", "CALLS"), Edge(project, "B", "C", "CALLS"),
             Edge(project, "C", "A", "CALLS")];
             && ListsNear(E, "A", true, 3, o) && ListsNear(E, "A", false, 3, i)
             && ListsNear(E, "A", true, 3, qo) && ListsNear(E, "A", false, 3, qi) && IsMerge(qo, qi, byID)
    ensures ListsAt(o + i, "B", 1) && ListsAt(o + i, "B", 2) && "B" in byID && byID["B"].depth == 1
  {
    var e, f, g := Edge(project, "A", "B", "CALLS"), Edge(project, "B", "C", "CALLS"), Edge(project, "C", "A", "CALLS");
    var E := [e, f, g];
    assert e in E && f in E && g in E;
    ShortOne(E, e);
    ShortTwo(E, f, g);
    hide Shortest, Walk, ListsNear, IsMerge, ListsAt, Lists;
    assert Away(E, "A", true, "B", 1) && Away(E, "A", false, "B", 2);
    NearIffListed(E, "A", true, 3, o, "B", 1);
    NearIffListed(E, "A", false, 3, i, "B", 2);
    NearIffListed(E, "A", true, 3, qo, "B", 1);
    ListsSum(o, i);
    NearestMerged(E, 3, qo, qi, byID, "A", "B", 1);
  }

  /** A node at distance 1 keeps it in the merge. */
  lemma NearestMerged(E: seq<Edge>, maxDepth: nat, qo: seq<TraceResult>, qi: seq<TraceResult>,
                      byID: map<Id, TraceResult>,
                      start: Id, id: Id, d: nat)
    requires ListsNear(E, start, true, maxDepth, qo) && ListsNear(E, start, false, maxDepth, qi)
             && IsMerge(qo, qi, byID)
    requires d == 1 && ListsAt(qo, id, d)
    ensures id in byID && byID[id].depth == d
  {
    assert Lists(qo, id);
    MergedDepth(qo, qi, byID, id);
    var r :| r in qo && r.id == id && r.depth == d;
    assert r in qo + qi;
    forall x | x in qo + qi ensures x.depth >= 1 {
      assert x in qo ==> x.depth != 0;
      assert x in qi ==> x.depth != 0;
    }
  }
}
