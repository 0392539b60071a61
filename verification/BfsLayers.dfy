/** Breadth-first layers, the reference both closure builders are proved against. */
module BfsLayers {
  import opened CallGraph

  /** A frontier entry: a node and the kind of the edge that reached it. */
  datatype Hop = Hop(to: Id, kind: string)

  ghost predicate HasEdge(E: seq<Edge>, u: Id, h: Hop) {
    exists e | e in E :: e.from == u && e.to == h.to && e.kind == h.kind
  }

  /** The out-edges of u, in row order. */
  function Out(E: seq<Edge>, u: Id): seq<Hop> {
    if E == [] then []
    else
      var e := E[|E| - 1];
      Out(E[..|E| - 1], u) + (if e.from == u then [Hop(e.to, e.kind)] else [])
  }

  /** The out-edges of a whole frontier, in visiting order. */
  function AllOut(E: seq<Edge>, frontier: seq<Hop>): seq<Hop> {
    if frontier == [] then []
    else AllOut(E, frontier[..|frontier| - 1]) + Out(E, frontier[|frontier| - 1].to)
  }

  ghost predicate Reaches(hops: seq<Hop>, v: Id) {
    exists h :: h in hops && h.to == v
  }

  function Ids(hops: seq<Hop>): (ids: set<Id>)
    ensures forall v :: v in ids <==> Reaches(hops, v)
  {
    set h | h in hops :: h.to
  }

  /** The first hop to each node outside `seen`. */
  function Fresh(hops: seq<Hop>, seen: set<Id>): seq<Hop> {
    if hops == [] then []
    else
      var last := hops[|hops| - 1];
      var init := Fresh(hops[..|hops| - 1], seen);
      if last.to in seen + Ids(init) then init else init + [last]
  }

  /** Nodes first reached after exactly d rounds. */
  function Layer(E: seq<Edge>, from: Id, d: nat): seq<Hop>
    decreases d, 0
  {
    if d == 0 then [Hop(from, "")]
    else Fresh(AllOut(E, Layer(E, from, d - 1)), Seen(E, from, d - 1))
  }

  /** Nodes reached within d rounds. */
  function Seen(E: seq<Edge>, from: Id, d: nat): set<Id>
    decreases d, 1
  {
    if d == 0 then {from} else Seen(E, from, d - 1) + Ids(Layer(E, from, d))
  }

  lemma {:induction false} OutMember(E: seq<Edge>, u: Id, h: Hop)
    ensures h in Out(E, u) <==> HasEdge(E, u, h)
  {
    if E != [] {
      var init, e := E[..|E| - 1], E[|E| - 1];
      assert E == init + [e];
      OutMember(init, u, h);
      if HasEdge(E, u, h) {
        var x :| x in E && x.from == u && x.to == h.to && x.kind == h.kind;
        assert x in init || x == e;
      }
    }
  }

  lemma {:induction false} AllOutMember(E: seq<Edge>, frontier: seq<Hop>, h: Hop)
    ensures h in AllOut(E, frontier) <==> exists u :: u in frontier && HasEdge(E, u.to, h)
  {
    if frontier != [] {
      var init, last := frontier[..|frontier| - 1], frontier[|frontier| - 1];
      assert frontier == init + [last];
      AllOutMember(E, init, h);
      OutMember(E, last.to, h);
    }
  }

  lemma {:induction false} FreshMember(hops: seq<Hop>, seen: set<Id>)
    ensures forall v :: v in Ids(Fresh(hops, seen)) <==> v in Ids(hops) && v !in seen
    ensures forall h | h in Fresh(hops, seen) :: h in hops
    ensures forall h, h' | h in Fresh(hops, seen) && h' in Fresh(hops, seen) && h.to == h'.to :: h == h'
  {
    if hops != [] {
      var init, last := hops[..|hops| - 1], hops[|hops| - 1];
      assert hops == init + [last];
      FreshMember(init, seen);
      var f := Fresh(init, seen);
      forall v ensures v in Ids(Fresh(hops, seen)) <==> v in Ids(hops) && v !in seen {
        assert Reaches(hops, v) <==> Reaches(init, v) || v == last.to;
        assert Reaches(f + [last], v) <==> Reaches(f, v) || v == last.to;
      }
    }
  }

  /** Layer d is exactly the set of nodes at shortest-path distance d. */
  lemma {:induction false} LayerIsDistance(E: seq<Edge>, from: Id, d: nat)
    ensures forall v :: v in Ids(Layer(E, from, d)) <==> Shortest(E, from, v, d)
    ensures forall v :: v in Seen(E, from, d) <==> Within(E, from, v, d)
    decreases d
  {
    if d == 0 {
      assert Hop(from, "") in Layer(E, from, 0);
      forall v ensures v in Ids(Layer(E, from, 0)) <==> v == from {
        if v == from { assert Reaches(Layer(E, from, 0), v); }
      }
      forall v ensures Within(E, from, v, 0) <==> v == from {
        if v == from { assert Walk(E, from, v, 0); }
      }
    } else {
      LayerIsDistance(E, from, d - 1);
      forall v ensures v in Ids(Layer(E, from, d)) <==> Shortest(E, from, v, d) {
        LayerMember(E, from, v, d - 1);
      }
      forall v ensures v in Seen(E, from, d) <==> Within(E, from, v, d) {
        WithinStep(E, from, v, d - 1);
      }
    }
  }

  lemma LayerMember(E: seq<Edge>, from: Id, v: Id, d: nat)
    requires forall w :: w in Ids(Layer(E, from, d)) <==> Shortest(E, from, w, d)
    requires forall w :: w in Seen(E, from, d) <==> Within(E, from, w, d)
    ensures v in Ids(Layer(E, from, d + 1)) <==> Shortest(E, from, v, d + 1)
  {
    var frontier := Layer(E, from, d);
    forall w ensures Reaches(frontier, w) <==> Shortest(E, from, w, d) {
      assert w in Ids(frontier) <==> Reaches(frontier, w);
    }
    assert v in Ids(Layer(E, from, d + 1)) <==> Reaches(AllOut(E, frontier), v) && !Within(E, from, v, d) by {
      FreshMember(AllOut(E, frontier), Seen(E, from, d));
    }
    NextHops(E, from, frontier, d, v);
  }

  lemma NextHops(E: seq<Edge>, from: Id, frontier: seq<Hop>, d: nat, v: Id)
    requires forall w :: Reaches(frontier, w) <==> Shortest(E, from, w, d)
    ensures Reaches(AllOut(E, frontier), v) && !Within(E, from, v, d) <==> Shortest(E, from, v, d + 1)
  {
    if Reaches(AllOut(E, frontier), v) && !Within(E, from, v, d) {
      var h :| h in AllOut(E, frontier) && h.to == v;
      AllOutMember(E, frontier, h);
      var u :| u in frontier && HasEdge(E, u.to, h);
      var e :| e in E && e.from == u.to && e.to == v;
      assert Reaches(frontier, u.to);
      assert Walk(E, from, v, d + 1);
    }
    if Shortest(E, from, v, d + 1) {
      var e := ShortestStep(E, from, v, d + 1);
      assert Reaches(frontier, e.from);
      var u :| u in frontier && u.to == e.from;
      assert HasEdge(E, u.to, Hop(v, e.kind));
      AllOutMember(E, frontier, Hop(v, e.kind));
    }
  }

  /** A hop of a layer is an out-edge of the layer before. */
  lemma LayerHop(E: seq<Edge>, from: Id, d: nat, h: Hop) returns (u: Hop)
    requires d > 0 && h in Layer(E, from, d)
    ensures u in Layer(E, from, d - 1) && HasEdge(E, u.to, h)
  {
    var frontier := Layer(E, from, d - 1);
    assert h in Fresh(AllOut(E, frontier), Seen(E, from, d - 1));
    hide *;
    FreshMember(AllOut(E, frontier), Seen(E, from, d - 1));
    AllOutMember(E, frontier, h);
    u :| u in frontier && HasEdge(E, u.to, h);
  }

  /** The kind stored with a hop is that of an edge from the layer before. */
  lemma LayerKind(E: seq<Edge>, from: Id, d: nat, h: Hop) returns (e: Edge)
    requires d > 0 && h in Layer(E, from, d)
    ensures e in E && e.to == h.to && e.kind == h.kind && Shortest(E, from, e.from, d - 1)
  {
    hide Layer, Seen, Shortest;
    var u := LayerHop(E, from, d, h);
    LayerIsDistance(E, from, d - 1);
    assert Reaches(Layer(E, from, d - 1), u.to);
    assert u.to in Ids(Layer(E, from, d - 1));
    e :| e in E && e.from == u.to && e.to == h.to && e.kind == h.kind;
  }

  /** Once a layer is empty so is every later one. */
  lemma {:induction false} EmptyLayerStays(E: seq<Edge>, from: Id, d: nat, k: nat)
    requires d <= k && Layer(E, from, d) == []
    ensures Seen(E, from, k) == Seen(E, from, d) && Layer(E, from, k) == []
    decreases k
  {
    if d < k { EmptyLayerStays(E, from, d, k - 1); }
  }

  lemma {:induction false} SeenMonotone(E: seq<Edge>, from: Id, d: nat, k: nat)
    requires d <= k
    ensures Seen(E, from, d) <= Seen(E, from, k)
    ensures from in Seen(E, from, d)
    decreases k
  {
    hide Layer, Ids;
    if d < k { SeenMonotone(E, from, d, k - 1); }
    else if d > 0 { SeenMonotone(E, from, d - 1, d - 1); }
  }

  /** A node occurs in one layer only, with one kind. */
  lemma LayersDisjoint(E: seq<Edge>, from: Id, d: nat, h: Hop, d': nat, h': Hop)
    requires h in Layer(E, from, d) && h' in Layer(E, from, d') && h.to == h'.to
    ensures d == d' && h == h'
  {
    LayerIsDistance(E, from, d);
    LayerIsDistance(E, from, d');
    assert Reaches(Layer(E, from, d), h.to) && Reaches(Layer(E, from, d'), h.to);
    assert h.to in Ids(Layer(E, from, d)) && h.to in Ids(Layer(E, from, d'));
    assert Shortest(E, from, h.to, d) && Shortest(E, from, h.to, d');
    if d > 0 { FreshMember(AllOut(E, Layer(E, from, d - 1)), Seen(E, from, d - 1)); }
  }
}
