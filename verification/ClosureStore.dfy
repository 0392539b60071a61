/** The closure table: its builder, and the trace queries answered from it. */
module ClosureStore {
  import opened CallGraph
  import opened BfsLayers

  /** PRIMARY KEY (project_id, from_id, to_id) with its payload columns. */
  datatype Key = Key(project: string, from: Id, to: Id)
  datatype Cell = Cell(depth: nat, via: string)
  type Table = map<Key, Cell>

  /** A legitimate row for (from, to) in a closure of depth D. */
  ghost predicate RowAt(E: seq<Edge>, from: Id, to: Id, c: Cell, D: nat) {
    1 <= c.depth <= D && Hop(to, c.via) in Layer(E, from, c.depth)
  }

  /** Every source in `sources` has its rows up to depth D in t, on top of `base`. */
  ghost predicate Filled(t: Table, base: Table, E: seq<Edge>, project: string, sources: set<Id>, D: nat) {
    && (forall k ::
        k in t
        <==> k in base || (k.project == project && k.from in sources && k.to in Reached(E, k.from, D)))
    && (forall k | k in base :: k in t && t[k] == base[k])
    && (forall k | k in t && k !in base :: RowAt(E, k.from, k.to, t[k], D))
  }

  function Reached(E: seq<Edge>, from: Id, D: nat): set<Id> {
    Seen(E, from, D) - {from}
  }

  /** t is `before` with the project's rows replaced by the depth-D closure of E. */
  ghost predicate IsClosure(t: Table, before: Table, E: seq<Edge>, project: string, D: nat) {
    && (forall k: Key | k.project != project :: (k in t <==> k in before) && (k in t ==> t[k] == before[k]))
    && (forall k: Key | k.project == project :: k in t <==> k.to in Reached(E, k.from, D))
    && (forall k: Key | k.project == project && k in t :: RowAt(E, k.from, k.to, t[k], D))
  }

  function WithoutProject(t: Table, project: string): Table {
    map k | k in t && k.project != project :: t[k]
  }

  /** Any SQL call may report an error. */
  method SqlError() returns (failed: bool)
  {
    failed := *;
  }

  class Store {
    var edges: seq<Edge>
    var closure: Table

    /** Replaces the project's rows in one transaction; `execs` counts the INSERT OR IGNORE calls. */
    method BuildClosure(project: string, maxDepth: int) returns (err: bool, execs: nat)
      modifies this`closure
      ensures err ==> closure == old(closure)
      ensures maxDepth < 1 ==> err
      ensures !err ==> IsClosure(closure, old(closure), Select(edges, project, true), project, maxDepth)
      ensures !err ==> |closure| == |WithoutProject(old(closure), project)| + execs
      ensures !err ==> forall from, to ::
                (Key(project, from, to) in closure && closure[Key(project, from, to)].depth == 1)
                <==>
                from != to && exists e | e in edges ::
                    e.project == project && e.from == from && e.to == to
                    && (e.kind == "CALLS" || e.kind == "HTTP_CALLS" || e.kind == "ASYNC_CALLS")
    {
      hide Filled, IsClosure, Select, Out, HopsOf;
      execs := 0;
      if maxDepth < 1 { return true, 0; }
      err := SqlError();
      if err { return; }
      var rows := Select(edges, project, true);
      var adj := ReadAdjacency(rows);
      err := SqlError();
      if err { return; }

      var tx := WithoutProject(closure, project);
      ghost var base := tx;
      NothingFilled(base, rows, project, maxDepth);
      var remaining := adj.Keys;
      ghost var done: set<Id> := {};
      while remaining != {}
        invariant done + remaining == adj.Keys && done !! remaining
        invariant Filled(tx, base, rows, project, done, maxDepth)
        invariant |tx| == |base| + execs
        invariant closure == old(closure)
        decreases remaining
      {
        var from :| from in remaining;
        remaining := remaining - {from};
        var n;
        ghost var tx0 := tx;
        UnvisitedSource(tx, base, rows, project, done, from, maxDepth);
        err, tx, n := InsertReachable(tx, rows, adj, project, from, maxDepth);
        if err { return; }
        FilledExtend(tx, tx0, base, rows, project, done, from, maxDepth);
        execs := execs + n;
        done := done + {from};
      }
      err := SqlError();
      if err { return; }
      FilledIsClosure(tx, closure, rows, project, adj.Keys, maxDepth);
      DirectRows(tx, closure, edges, project, maxDepth);
      closure := tx;
    }

    /**
     * Answers a trace from the table: at most 500 rows per direction, in (depth, id) order; a failing query gives
     * none.
     */
    method TraceViaClosure(project: string, start: Id, direction: string, maxDepth: int)
      returns (err: bool, out: seq<TraceResult>)
      ensures err ==> out == []
      ensures !err ==> exists outbound, inbound ::
        && out == outbound + inbound
        && (if direction == "outbound" || direction == "both"
            then IsTop(OutboundRows(closure, project, start, maxDepth), outbound, 500)
            else outbound == [])
        && (if direction == "inbound" || direction == "both"
            then IsTop(InboundRows(closure, project, start, maxDepth), inbound, 500)
            else inbound == [])
    {
      TraceIdsUnique(closure, project, start, maxDepth);
      var outbound, inbound := [], [];
      if direction == "outbound" || direction == "both" {
        err := SqlError();
        if err { return true, []; }
        outbound := OrderedLimited(OutboundRows(closure, project, start, maxDepth), LIMIT);
      }
      if direction == "inbound" || direction == "both" {
        err := SqlError();
        if err { return true, []; }
        inbound := OrderedLimited(InboundRows(closure, project, start, maxDepth), LIMIT);
      }
      err, out := false, outbound + inbound;
    }
  }

  const LIMIT: nat := 500

  datatype TraceResult = TraceResult(id: Id, depth: nat, via: string)

  /** `WHERE project_id = ? AND from_id = ? AND depth <= ?` */
  function OutboundRows(t: Table, project: string, start: Id, maxDepth: int): set<TraceResult> {
    set k | k in t && k.project == project && k.from == start && t[k].depth <= maxDepth ::
        TraceResult(k.to, t[k].depth, t[k].via)
  }

  /** `WHERE project_id = ? AND to_id = ? AND depth <= ?` */
  function InboundRows(t: Table, project: string, start: Id, maxDepth: int): set<TraceResult> {
    set k | k in t && k.project == project && k.to == start && t[k].depth <= maxDepth ::
        TraceResult(k.from, t[k].depth, t[k].via)
  }

  ghost predicate IdsUnique(rows: set<TraceResult>) {
    forall r, r' | r in rows && r' in rows && r.id == r'.id :: r == r'
  }

  lemma TraceIdsUnique(t: Table, project: string, start: Id, maxDepth: int)
    ensures IdsUnique(OutboundRows(t, project, start, maxDepth)) && IdsUnique(InboundRows(t, project, start, maxDepth))
  {
  }

  /** The BINARY collation of TEXT columns. */
  predicate TextLess(a: string, b: string) {
    b != "" && (a == "" || a[0] < b[0] || (a[0] == b[0] && TextLess(a[1..], b[1..])))
  }

  predicate Before(r: TraceResult, r': TraceResult) {
    r.depth < r'.depth || (r.depth == r'.depth && TextLess(r.id, r'.id))
  }

  /** `out` is `rows` in (depth, id) order, cut off after `limit`. */
  ghost predicate IsTop(rows: set<TraceResult>, out: seq<TraceResult>, limit: nat) {
    && (forall r | r in out :: r in rows)
    && (forall i, j | 0 <= i < j < |out| :: Before(out[i], out[j]))
    && (forall i, r | 0 <= i < |out| && r in rows && r !in out :: Before(out[i], r))
    && |out| == if |rows| < limit then |rows| else limit
  }

  /** Byte by byte: the first difference decides, and a text comes after its prefixes. */
  lemma {:induction false} TextLessIff(a: string, b: string)
    ensures TextLess(a, b)
            <==> a < b || exists i | 0 <= i < |a| && i < |b| :: a[..i] == b[..i] && a[i] < b[i]
  {
    if a != "" && b != "" {
      TextLessIff(a[1..], b[1..]);
      if a[0] == b[0] {
        assert a == [a[0]] + a[1..] && b == [b[0]] + b[1..];
        if TextLess(a[1..], b[1..]) && !(a[1..] < b[1..]) {
          var i :| 0 <= i < |a| - 1 && i < |b| - 1 && a[1..][..i] == b[1..][..i] && a[1..][i] < b[1..][i];
          assert a[..i + 1] == [a[0]] + a[1..][..i] && b[..i + 1] == [b[0]] + b[1..][..i];
          assert a[i + 1] < b[i + 1];
        }
        if i :| 0 <= i < |a| && i < |b| && a[..i] == b[..i] && a[i] < b[i] {
          assert a[1..][..i - 1] == a[..i][1..] && b[1..][..i - 1] == b[..i][1..];
          assert a[1..][i - 1] < b[1..][i - 1];
        }
      } else {
        assert a[..0] == b[..0];
        if i :| 0 < i < |a| && i < |b| && a[..i] == b[..i] { SameFirst(a, b, i); }
      }
    }
  }

  lemma SameFirst(a: string, b: string, i: nat)
    requires 0 < i <= |a| && i <= |b| && a[..i] == b[..i]
    ensures a[0] == b[0]
  {
    assert a[..i][0] == b[..i][0];
  }

  lemma {:induction false} TextLessTotal(a: string, b: string)
    ensures TextLess(a, b) || TextLess(b, a) || a == b
  {
    if a != "" && b != "" && a[0] == b[0] {
      TextLessTotal(a[1..], b[1..]);
      assert a == [a[0]] + a[1..] && b == [b[0]] + b[1..];
    }
  }

  lemma {:induction false} TextLessTransitive(a: string, b: string, c: string)
    requires TextLess(a, b) && TextLess(b, c)
    ensures TextLess(a, c)
  {
    if a != "" && a[0] == b[0] == c[0] { TextLessTransitive(a[1..], b[1..], c[1..]); }
  }

  lemma BeforeTransitive(a: TraceResult, b: TraceResult, c: TraceResult)
    requires Before(a, b) && Before(b, c)
    ensures Before(a, c)
  {
    if a.depth == c.depth { TextLessTransitive(a.id, b.id, c.id); }
  }

  predicate IsFirst(r: TraceResult, rows: set<TraceResult>) {
    r in rows && forall x | x in rows :: x == r || Before(r, x)
  }

  lemma {:induction false} FirstExists(rows: set<TraceResult>) returns (r: TraceResult)
    requires rows != {} && IdsUnique(rows)
    ensures IsFirst(r, rows)
    decreases rows
  {
    var x :| x in rows;
    if rows == {x} { return x; }
    var y := FirstExists(rows - {x});
    TextLessTotal(x.id, y.id);
    if Before(y, x) { return y; }
    forall z | z in rows ensures z == x || Before(x, z) {
      if z != x && z != y { BeforeTransitive(x, y, z); }
    }
    r := x;
  }

  /** `out` holds the first rows in order, `rest` the others. */
  ghost predicate Selected(rows: set<TraceResult>, out: seq<TraceResult>, rest: set<TraceResult>) {
    && rest <= rows && |out| + |rest| == |rows|
    && (forall r :: r in rows <==> r in out || r in rest)
    && (forall r | r in out :: r !in rest)
    && (forall i, j | 0 <= i < j < |out| :: Before(out[i], out[j]))
    && (forall i, r | 0 <= i < |out| && r in rest :: Before(out[i], r))
  }

  lemma SelectFirst(rows: set<TraceResult>, out: seq<TraceResult>, rest: set<TraceResult>, r: TraceResult)
    requires Selected(rows, out, rest) && IsFirst(r, rest)
    ensures Selected(rows, out + [r], rest - {r})
  {
    hide Before;
    var out', rest' := out + [r], rest - {r};
    forall x ensures x in out' <==> x in out || x == r { }
    forall i, x | 0 <= i < |out'| && x in rest' ensures Before(out'[i], x) {
      if i < |out| { assert Before(out[i], x); }
    }
  }

  lemma SelectedIsTop(rows: set<TraceResult>, out: seq<TraceResult>, rest: set<TraceResult>, limit: nat)
    requires Selected(rows, out, rest) && |out| <= limit && (rest == {} || |out| == limit)
    ensures IsTop(rows, out, limit)
  {
  }

  /** ORDER BY depth, id LIMIT. */
  method OrderedLimited(rows: set<TraceResult>, limit: nat) returns (out: seq<TraceResult>)
    requires IdsUnique(rows)
    ensures IsTop(rows, out, limit)
  {
    out := [];
    var rest := rows;
    assert Selected(rows, out, rest);
    hide Selected, Before, IsTop;
    while rest != {} && |out| < limit
      invariant rest <= rows && |out| <= limit && Selected(rows, out, rest)
      decreases rest
    {
      ghost var w := FirstExists(rest);
      var r :| r in rest && IsFirst(r, rest);
      SelectFirst(rows, out, rest, r);
      out, rest := out + [r], rest - {r};
    }
    SelectedIsTop(rows, out, rest, limit);
  }

  /** Groups the rows by source. */
  method ReadAdjacency(rows: seq<Edge>) returns (adj: map<Id, seq<Hop>>)
    ensures forall u :: HopsOf(adj, u) == Out(rows, u)
    ensures forall u :: u in adj <==> Out(rows, u) != []
  {
    adj := map[];
    var i := 0;
    while i < |rows|
      invariant 0 <= i <= |rows|
      invariant forall u :: u in adj <==> Out(rows[..i], u) != []
      invariant forall u | u in adj :: adj[u] == Out(rows[..i], u)
    {
      var e := rows[i];
      assert rows[..i + 1][..i] == rows[..i];
      var old' := if e.from in adj then adj[e.from] else [];
      adj := adj[e.from := old' + [Hop(e.to, e.kind)]];
      i := i + 1;
    }
    assert rows[..i] == rows;
  }

  /** Loop invariant of one breadth-first search: layers 1..d are in, and the part of layer d+1 in `next`. */
  ghost predicate Partial(t: Table, base: Table, E: seq<Edge>, project: string, from: Id, d: nat, next: seq<Hop>) {
    && (forall k ::
        k in t
        <==>
        || k in base
        || (k.project == project && k.from == from && (k.to in Reached(E, from, d) || k.to in Ids(next))))
    && (forall k | k in base :: k in t && t[k] == base[k])
    && (forall k | k in t && k !in base ::
        RowAt(E, from, k.to, t[k], d)
        || (t[k].depth == d + 1 && Hop(k.to, t[k].via) in next))
  }

  function HopsOf(adj: map<Id, seq<Hop>>, u: Id): seq<Hop> {
    if u in adj then adj[u] else []
  }

  /** Everything a search round carries: nodes seen, the next frontier, the open transaction, inserts so far. */
  datatype Search = Search(seen: map<Id, nat>, next: seq<Hop>, tx: Table, execs: nat)

  /** The round at depth d + 1 has looked at the hops `all`. */
  ghost predicate Round(s: Search, base: Table, E: seq<Edge>, project: string, from: Id, d: nat, all: seq<Hop>) {
    && s.next == Fresh(all, Seen(E, from, d))
    && s.seen.Keys == Seen(E, from, d) + Ids(s.next)
    && Partial(s.tx, base, E, project, from, d, s.next)
    && |s.tx| == |base| + s.execs
  }

  /** One source's depth-bounded search, inserting each newly seen node. */
  method InsertReachable(base: Table, ghost E: seq<Edge>, adj: map<Id, seq<Hop>>, project: string, from: Id,
                         maxDepth: nat)
    returns (err: bool, tx: Table, execs: nat)
    requires forall u :: HopsOf(adj, u) == Out(E, u)
    requires forall k | k in base :: k.project != project || k.from != from
    ensures !err ==> Filled(tx, base, E, project, {from}, maxDepth)
    ensures !err ==> |tx| == |base| + execs
  {
    hide Round, Filled, Out, AllOut, HopsOf, Ids, Layer, Seen;
    err, tx, execs := false, base, 0;
    var seen := map[from := 0];
    var frontier := [Hop(from, "")];
    var d := 1;
    SearchStart(base, E, project, from);
    while d <= maxDepth && |frontier| > 0
      invariant 1 <= d <= maxDepth + 1
      invariant frontier == Layer(E, from, d - 1)
      invariant Round(Search(seen, [], tx, execs), base, E, project, from, d - 1, [])
    {
      var s;
      err, s := ExpandLayer(Search(seen, [], tx, execs), base, E, adj, project, from, d, frontier);
      if err { return; }
      RoundClose(s, base, E, project, from, d - 1);
      frontier, seen, tx, execs := s.next, s.seen, s.tx, s.execs;
      d := d + 1;
    }
    if d <= maxDepth {
      EmptyLayerStays(E, from, d - 1, maxDepth);
    }
    RoundIsFilled(Search(seen, [], tx, execs), base, E, project, from, d - 1, maxDepth);
  }

  /** One round: the out-edges of every frontier node. */
  method ExpandLayer(s0: Search, ghost base: Table, ghost E: seq<Edge>, adj: map<Id, seq<Hop>>, project: string,
                     from: Id,
                     d: nat, frontier: seq<Hop>)
    returns (err: bool, s: Search)
    requires forall u :: HopsOf(adj, u) == Out(E, u)
    requires forall k | k in base :: k.project != project || k.from != from
    requires d > 0 && Round(s0, base, E, project, from, d - 1, [])
    ensures !err ==> Round(s, base, E, project, from, d - 1, AllOut(E, frontier))
  {
    hide Round, Out, HopsOf;
    err, s := false, s0;
    ghost var all: seq<Hop> := [];
    var i := 0;
    while i < |frontier|
      invariant 0 <= i <= |frontier|
      invariant all == AllOut(E, frontier[..i])
      invariant Round(s, base, E, project, from, d - 1, all)
    {
      var hops := HopsOf(adj, frontier[i].to);
      ghost var all0 := all;
      assert frontier[..i + 1][..i] == frontier[..i];
      var j := 0;
      while j < |hops|
        invariant 0 <= j <= |hops|
        invariant all == all0 + hops[..j]
        invariant Round(s, base, E, project, from, d - 1, all)
      {
        assert all0 + hops[..j + 1] == all + [hops[j]];
        err, s := VisitEdge(s, base, E, project, from, d, all, hops[j]);
        if err { return; }
        all := all + [hops[j]];
        j := j + 1;
      }
      assert hops[..j] == hops;
      i := i + 1;
    }
    assert frontier[..i] == frontier;
  }

  /** Skips a seen target; otherwise marks it, queues it and inserts its row. */
  method VisitEdge(s0: Search, ghost base: Table, ghost E: seq<Edge>, project: string, from: Id, d: nat,
                   ghost all: seq<Hop>, e: Hop)
    returns (err: bool, s: Search)
    requires forall k | k in base :: k.project != project || k.from != from
    requires d > 0 && Round(s0, base, E, project, from, d - 1, all)
    ensures !err ==> Round(s, base, E, project, from, d - 1, all + [e])
  {
    hide Round;
    err, s := false, s0;
    RoundVisit(s0, base, E, project, from, d - 1, all, e);
    if e.to !in s.seen {
      err := SqlError();
      if err { return; }
      var inserted, tx := InsertOrIgnore(s.tx, Key(project, from, e.to), Cell(d, e.kind));
      assert inserted;
      s := Search(s.seen[e.to := d], s.next + [e], tx, s.execs + 1);
    }
  }

  /** Looking at one more hop: a seen target changes nothing, a new one has no row yet and gets one. */
  lemma RoundVisit(s: Search, base: Table, E: seq<Edge>, project: string, from: Id, d: nat, all: seq<Hop>, e: Hop)
    requires forall k | k in base :: k.project != project || k.from != from
    requires Round(s, base, E, project, from, d, all)
    ensures e.to in s.seen ==> Round(s, base, E, project, from, d, all + [e])
    ensures e.to !in s.seen ==>
              var k := Key(project, from, e.to);
              && k !in s.tx
              && Round(Search(s.seen[e.to := d + 1], s.next + [e], s.tx[k := Cell(d + 1, e.kind)], s.execs + 1),
                 base, E, project, from, d, all + [e])
  {
    hide Partial, Layer, Seen, Ids;
    assert (all + [e])[..|all|] == all;
    if e.to !in s.seen {
      SeenMonotone(E, from, d, d);
      PartialExtend(s.tx, base, E, project, from, d, s.next, e);
      IdsAppend(s.next, e);
    }
  }

  /** INSERT OR IGNORE on the primary key. */
  method InsertOrIgnore(t: Table, k: Key, c: Cell) returns (inserted: bool, t': Table)
    ensures inserted <==> k !in t
    ensures t' == if k in t then t else t[k := c]
  {
    inserted := k !in t;
    t' := if k in t then t else t[k := c];
  }

  lemma NothingFilled(base: Table, E: seq<Edge>, project: string, D: nat)
    ensures Filled(base, base, E, project, {}, D)
  {
  }

  lemma UnvisitedSource(t: Table, base: Table, E: seq<Edge>, project: string, done: set<Id>, from: Id, D: nat)
    requires Filled(t, base, E, project, done, D) && from !in done
    requires forall k | k in base :: k.project != project
    ensures forall k | k in t :: k.project != project || k.from != from
  {
  }

  lemma SearchStart(base: Table, E: seq<Edge>, project: string, from: Id)
    ensures Round(Search(map[from := 0], [], base, 0), base, E, project, from, 0, [])
    ensures Layer(E, from, 0) == [Hop(from, "")]
  {
    assert Ids([]) == {};
    assert Reached(E, from, 0) == {};
  }

  lemma IdsAppend(hops: seq<Hop>, e: Hop)
    ensures Ids(hops + [e]) == Ids(hops) + {e.to}
  {
    forall v ensures Reaches(hops + [e], v) <==> Reaches(hops, v) || v == e.to {
      if Reaches(hops, v) {
        var h :| h in hops && h.to == v;
        assert h in hops + [e];
      }
      if v == e.to { assert e in hops + [e]; }
    }
  }

  lemma PartialExtend(t: Table, base: Table, E: seq<Edge>, project: string, from: Id, d: nat, next: seq<Hop>, e: Hop)
    requires forall k | k in base :: k.project != project || k.from != from
    requires Partial(t, base, E, project, from, d, next)
    requires e.to !in Seen(E, from, d) + Ids(next) && from in Seen(E, from, d)
    ensures Key(project, from, e.to) !in t
    ensures Partial(t[Key(project, from, e.to) := Cell(d + 1, e.kind)], base, E, project, from, d, next + [e])
  {
    IdsAppend(next, e);
    assert e in next + [e];
  }

  lemma PartialClose(t: Table, base: Table, E: seq<Edge>, project: string, from: Id, d: nat, next: seq<Hop>)
    requires Partial(t, base, E, project, from, d, next)
    requires next == Layer(E, from, d + 1)
    ensures Partial(t, base, E, project, from, d + 1, [])
  {
    hide Fresh, AllOut, Out, Ids;
    assert Reached(E, from, d + 1) == Reached(E, from, d) + Ids(next) by {
      SeenMonotone(E, from, d, d);
      FreshMember(AllOut(E, Layer(E, from, d)), Seen(E, from, d));
    }
    assert Ids([]) == {};
    forall k | k in t && k !in base ensures RowAt(E, from, k.to, t[k], d + 1) { }
  }

  lemma RoundClose(s: Search, base: Table, E: seq<Edge>, project: string, from: Id, d: nat)
    requires Round(s, base, E, project, from, d, AllOut(E, Layer(E, from, d)))
    ensures s.next == Layer(E, from, d + 1)
    ensures Round(Search(s.seen, [], s.tx, s.execs), base, E, project, from, d + 1, [])
  {
    hide Partial, Out, AllOut, Ids;
    PartialClose(s.tx, base, E, project, from, d, s.next);
    assert Ids([]) == {} by { assert forall v :: !Reaches([], v); }
  }

  lemma RoundIsFilled(s: Search, base: Table, E: seq<Edge>, project: string, from: Id, d: nat, D: nat)
    requires Round(s, base, E, project, from, d, []) && s.next == []
    requires d <= D && Seen(E, from, d) == Seen(E, from, D)
    ensures Filled(s.tx, base, E, project, {from}, D) && |s.tx| == |base| + s.execs
  {
    hide Partial, Filled, Fresh, Seen;
    PartialIsFilled(s.tx, base, E, project, from, d, D);
  }

  lemma PartialIsFilled(t: Table, base: Table, E: seq<Edge>, project: string, from: Id, d: nat, D: nat)
    requires Partial(t, base, E, project, from, d, [])
    requires d <= D && Seen(E, from, d) == Seen(E, from, D)
    ensures Filled(t, base, E, project, {from}, D)
  {
    hide Layer, Seen;
    assert Ids([]) == {};
  }

  lemma FilledExtend(t: Table, mid: Table, base: Table, E: seq<Edge>, project: string, done: set<Id>, from: Id, D: nat)
    requires Filled(mid, base, E, project, done, D)
    requires Filled(t, mid, E, project, {from}, D)
    ensures Filled(t, base, E, project, done + {from}, D)
  {
    forall k | k in t && k !in base ensures RowAt(E, k.from, k.to, t[k], D) {
      if k in mid { assert t[k] == mid[k]; }
    }
  }

  lemma FilledIsClosure(t: Table, before: Table, E: seq<Edge>, project: string, sources: set<Id>, D: nat)
    requires Filled(t, WithoutProject(before, project), E, project, sources, D)
    requires forall u :: u in sources <==> Out(E, u) != []
    ensures IsClosure(t, before, E, project, D)
  {
    forall u | u !in sources ensures Reached(E, u, D) == {} {
      NoEdgesNoRows(E, u, D);
    }
  }

  /** The rows of depth 1 are the call edges of the project between different nodes. */
  lemma DirectRows(t: Table, before: Table, edges: seq<Edge>, project: string, D: nat)
    requires D >= 1 && IsClosure(t, before, Select(edges, project, true), project, D)
    ensures forall from, to ::
              (Key(project, from, to) in t && t[Key(project, from, to)].depth == 1)
              <==>
              from != to && exists e | e in edges ::
                  e.project == project && e.from == from && e.to == to
                  && (e.kind == "CALLS" || e.kind == "HTTP_CALLS" || e.kind == "ASYNC_CALLS")
  {
    var E := Select(edges, project, true);
    forall from, to
      ensures (Key(project, from, to) in t && t[Key(project, from, to)].depth == 1)
              <==> from != to && exists e :: e in E && e.from == from && e.to == to
    {
      DirectRow(t, before, E, project, D, from, to);
    }
  }

  lemma DirectRow(t: Table, before: Table, E: seq<Edge>, project: string, D: nat, from: Id, to: Id)
    requires D >= 1 && IsClosure(t, before, E, project, D)
    ensures (Key(project, from, to) in t && t[Key(project, from, to)].depth == 1)
            <==> from != to && exists e :: e in E && e.from == from && e.to == to
  {
    hide Fresh, Out, AllOut;
    var k := Key(project, from, to);
    LayerIsDistance(E, from, 1);
    LayerIsDistance(E, from, D);
    assert Walk(E, from, from, 0);
    if k in t {
      assert RowAt(E, from, to, t[k], D);
      LayerIsDistance(E, from, t[k].depth);
      assert Reaches(Layer(E, from, t[k].depth), to);
      assert Shortest(E, from, to, t[k].depth);
    }
    if e :| e in E && e.from == from && e.to == to {
      assert Walk(E, from, e.from, 0) && Walk(E, from, to, 1);
      assert Within(E, from, to, D);
    }
  }

  lemma {:induction false} NoEdgesNoRows(E: seq<Edge>, u: Id, D: nat)
    requires Out(E, u) == []
    ensures Seen(E, u, D) == {u}
  {
    if D > 0 {
      assert AllOut(E, [Hop(u, "")]) == AllOut(E, []) + Out(E, u) == [];
      assert Layer(E, u, 1) == [];
      EmptyLayerStays(E, u, 1, D);
      assert Ids([]) == {};
    }
  }
}
