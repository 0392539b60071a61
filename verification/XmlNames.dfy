/** Qualified names of XML elements, and when they are unique. */
module XmlNames {
  import opened Decimal
  import opened XmlElements

  datatype Named = Named(element: nat, qn: string)

  function Occurrences(names: seq<string>, name: string): nat {
    if names == [] then 0 else Occurrences(names[..|names| - 1], name) + if names[|names| - 1] == name then 1 else 0
  }

  function Names(nodes: seq<Node>, i: nat): (names: seq<string>)
    requires Ordered(nodes) && i < |nodes|
    ensures |names| == |nodes[i].children|
    ensures forall k | 0 <= k < |names| ::
             nodes[i].children[k] in nodes[i].children
             && names[k] == nodes[nodes[i].children[k]].name
  {
    seq(|nodes[i].children|, k requires 0 <= k < |nodes[i].children| =>
      assert nodes[i].children[k] in nodes[i].children;
      nodes[nodes[i].children[k]].name)
  }

  /** The name segment of the k-th sibling: numbered among its namesakes if it has any. */
  function Segment(names: seq<string>, k: nat): string
    requires k < |names|
  {
    if Occurrences(names, names[k]) > 1 then names[k] + "." + Render(Occurrences(names[..k], names[k])) else names[k]
  }

  function ChildName(nodes: seq<Node>, i: nat, k: nat, path: string): string
    requires Ordered(nodes) && i < |nodes| && k < |nodes[i].children|
  {
    path + "." + Segment(Names(nodes, i), k)
  }

  /**
   * What is emitted below element i from its k-th child on, in preorder; a nameless child is dropped with its
   * subtree.
   */
  function Emitted(nodes: seq<Node>, i: nat, k: nat, path: string): seq<Named>
    requires Ordered(nodes) && i < |nodes| && k <= |nodes[i].children|
    decreases |nodes| - i, |nodes[i].children| - k
  {
    if k == |nodes[i].children| then []
    else
      var c := nodes[i].children[k];
      assert c in nodes[i].children;
      if nodes[c].name == "" then Emitted(nodes, i, k + 1, path)
      else
        var qn := ChildName(nodes, i, k, path);
        [Named(c, qn)] + Emitted(nodes, c, 0, qn) + Emitted(nodes, i, k + 1, path)
  }

  function Document(nodes: seq<Node>): seq<Named>
    requires Ordered(nodes)
  {
    if nodes == [] then [] else [Named(0, nodes[0].name)] + Emitted(nodes, 0, 0, nodes[0].name)
  }

  class Emitter {
    const nodes: seq<Node>
    var symbols: seq<Named>

    constructor (nodes: seq<Node>)
      ensures this.nodes == nodes && symbols == []
    {
      this.nodes, symbols := nodes, [];
    }

    method Emit()
      requires Ordered(nodes) && symbols == []
      modifies this
      ensures symbols == Document(nodes)
    {
      if |nodes| > 0 { EmitElement(0, nodes[0].name); }
    }

    method EmitChildren(parent: nat, parentPath: string)
      requires Ordered(nodes) && parent < |nodes|
      modifies this
      ensures symbols == old(symbols) + Emitted(nodes, parent, 0, parentPath)
      decreases |nodes| - parent, 1
    {
      hide *;
      var counts := Counts(nodes, parent);
      OccurrencesEmpty(Names(nodes, parent));
      var seen: map<string, nat> := map[];
      ghost var goal := symbols + Emitted(nodes, parent, 0, parentPath);
      for k := 0 to |nodes[parent].children|
        invariant symbols + Emitted(nodes, parent, k, parentPath) == goal
        invariant k <= |Names(nodes, parent)| && SeenSoFar(Names(nodes, parent), k, seen)
      {
        seen := EmitChild(parent, k, parentPath, counts, seen);
      }
      EmittedStep(nodes, parent, |nodes[parent].children|, parentPath);
    }

    /** One turn of the loop over the children. */
    method EmitChild(parent: nat, k: nat, parentPath: string, counts: map<string, nat>, seen0: map<string, nat>)
      returns (seen: map<string, nat>)
      requires Ordered(nodes) && parent < |nodes| && k < |nodes[parent].children|
      requires k < |Names(nodes, parent)| && SeenSoFar(Names(nodes, parent), k, seen0)
      requires forall name :: At(counts, name) == Occurrences(Names(nodes, parent), name)
      modifies this
      ensures symbols + Emitted(nodes, parent, k + 1, parentPath)
              == old(symbols) + Emitted(nodes, parent, k, parentPath)
      ensures k + 1 <= |Names(nodes, parent)| && SeenSoFar(Names(nodes, parent), k + 1, seen)
      decreases |nodes| - parent, 0
    {
      hide *;
      seen := seen0;
      EmittedStep(nodes, parent, k, parentPath);
      SeenStep(Names(nodes, parent), k, seen);
      var c := nodes[parent].children[k];
      var name := nodes[c].name;
      if name != "" {
        var seg := name;
        if At(counts, name) > 1 {
          seg := name + "." + Render(At(seen, name));
          seen := seen[name := At(seen, name) + 1];
        }
        EmitElement(c, parentPath + "." + seg);
      }
    }

    method EmitElement(c: nat, qn: string)
      requires Ordered(nodes) && c < |nodes|
      modifies this
      ensures symbols == old(symbols) + ([Named(c, qn)] + Emitted(nodes, c, 0, qn))
      decreases |nodes| - c, 2
    {
      symbols := symbols + [Named(c, qn)];
      EmitChildren(c, qn);
    }
  }

  lemma EmittedStep(nodes: seq<Node>, i: nat, k: nat, path: string)
    requires Ordered(nodes) && i < |nodes| && k <= |nodes[i].children|
    ensures k == |nodes[i].children| ==> Emitted(nodes, i, k, path) == []
    ensures k < |nodes[i].children| ==>
      var c := nodes[i].children[k];
      var names := Names(nodes, i);
      var qn := path + "." + Segment(names, k);
      && i < c < |nodes| && k < |names| && names[k] == nodes[c].name
      && Emitted(nodes, i, k, path) ==
         if nodes[c].name == "" then Emitted(nodes, i, k + 1, path)
         else [Named(c, qn)] + Emitted(nodes, c, 0, qn) + Emitted(nodes, i, k + 1, path)
  {
  }

  /** Shared names are numbered by how many of the first k siblings bear them. */
  ghost predicate SeenSoFar(names: seq<string>, k: nat, seen: map<string, nat>)
    requires k <= |names|
  {
    forall name | name != "" && Occurrences(names, name) > 1 :: At(seen, name) == Occurrences(names[..k], name)
  }

  /** Counting one sibling: unnamed and unshared names leave the numbers alone. */
  lemma SeenStep(names: seq<string>, k: nat, seen: map<string, nat>)
    requires k < |names| && SeenSoFar(names, k, seen)
    ensures var name := names[k];
            && (name == "" || Occurrences(names, name) <= 1 ==> SeenSoFar(names, k + 1, seen))
            && (name != "" && Occurrences(names, name) > 1 ==>
                  && SeenSoFar(names, k + 1, seen[name := At(seen, name) + 1])
                  && Segment(names, k) == name + "." + Render(At(seen, name)))
            && (Occurrences(names, name) <= 1 ==> Segment(names, k) == name)
  {
    OccurrencesStep(names, k);
  }

  function At(m: map<string, nat>, name: string): nat {
    if name in m then m[name] else 0
  }

  lemma OccurrencesStep(names: seq<string>, k: nat)
    requires k < |names|
    ensures forall name ::
            Occurrences(names[..k + 1], name) == Occurrences(names[..k], name) + if names[k] == name then 1 else 0
  {
    assert names[..k + 1][..k] == names[..k];
  }

  lemma OccurrencesEmpty(names: seq<string>)
    ensures forall name :: Occurrences(names[..0], name) == 0
    ensures SeenSoFar(names, 0, map[])
  {
  }

  method Counts(nodes: seq<Node>, parent: nat) returns (counts: map<string, nat>)
    requires Ordered(nodes) && parent < |nodes|
    ensures forall name :: At(counts, name) == Occurrences(Names(nodes, parent), name)
  {
    hide Occurrences, Names;
    counts := map[];
    ghost var names := Names(nodes, parent);
    OccurrencesEmpty(names);
    var cs := nodes[parent].children;
    for k := 0 to |cs|
      invariant forall name :: At(counts, name) == Occurrences(names[..k], name)
    {
      OccurrencesStep(names, k);
      assert cs[k] in cs && names[k] == nodes[cs[k]].name;
      ghost var before := counts;
      var name := nodes[cs[k]].name;
      counts := counts[name := At(counts, name) + 1];
      forall other ensures At(counts, other) == Occurrences(names[..k + 1], other) {
        assert At(before, other) == Occurrences(names[..k], other);
      }
    }
    assert names[..|cs|] == names;
  }

  lemma {:induction false} OccurrencesMonotone(names: seq<string>, a: nat, b: nat, name: string)
    requires a <= b <= |names|
    ensures Occurrences(names[..a], name) <= Occurrences(names[..b], name)
  {
    if a < b {
      OccurrencesStep(names, b - 1);
      OccurrencesMonotone(names, a, b - 1, name);
    }
  }

  lemma CountsItself(names: seq<string>, k: nat)
    requires k < |names|
    ensures Occurrences(names[..k + 1], names[k]) == Occurrences(names[..k], names[k]) + 1
  {
    hide Occurrences;
    OccurrencesStep(names, k);
  }

  /** Namesakes get different numbers. */
  lemma RanksDiffer(names: seq<string>, j: nat, k: nat)
    requires j < k < |names| && names[j] == names[k]
    ensures Occurrences(names[..j], names[j]) < Occurrences(names[..k], names[k]) < Occurrences(names, names[k])
  {
    hide Occurrences;
    CountsItself(names, j);
    CountsItself(names, k);
    OccurrencesMonotone(names, j + 1, k, names[j]);
    OccurrencesMonotone(names, k + 1, |names|, names[k]);
    assert names[..|names|] == names;
  }

  lemma {:induction false} OccursSomewhere(names: seq<string>, name: string) returns (k: nat)
    requires Occurrences(names, name) > 0
    ensures k < |names| && names[k] == name && Occurrences(names[..k], name) == Occurrences(names, name) - 1
  {
    var n := |names| - 1;
    if names[n] == name { k := n; }
    else {
      k := OccursSomewhere(names[..n], name);
      assert names[..n][..k] == names[..k];
    }
  }

  /** A segment is numbered exactly when another sibling bears the name; the number counts the namesakes before. */
  lemma NumberedIffShared(names: seq<string>, k: nat)
    requires k < |names|
    ensures Segment(names, k) != names[k] <==> exists m :: 0 <= m < |names| && m != k && names[m] == names[k]
  {
    var name := names[k];
    if m :| 0 <= m < |names| && m != k && names[m] == name {
      if m < k { RanksDiffer(names, m, k); } else { RanksDiffer(names, k, m); }
      assert |Segment(names, k)| > |name|;
    }
    if Occurrences(names, name) > 1 {
      var m := OccursSomewhere(names, name);
      var l := OccursSomewhere(names[..m], name);
      assert names[..m][l] == names[l];
    }
  }
}
