/** Building the element tree of an XML document from its token stream. */
module XmlElements {

  datatype Token = Start(name: string, after: nat) | End(after: nat) | Other(after: nat)

  /** The name of a tag as written: prefix and local name. */
  datatype Tag = Tag(prefix: string, local: string)

  /** An element; children are indices into the list of all elements, in document order. */
  datatype Node = Node(name: string, start: nat, end: nat, children: seq<nat>)

  /** Elements read so far, the open ones outermost first, and the offset behind the last token. */
  datatype State = State(nodes: seq<Node>, stack: seq<nat>, pos: nat)

  predicate Indexed(s: State) {
    && (forall k | 0 <= k < |s.stack| :: s.stack[k] < |s.nodes|)
    && Ordered(s.nodes)
  }

  /** Children come after their parent. */
  predicate Ordered(nodes: seq<Node>) {
    forall i, c | 0 <= i < |nodes| && c in nodes[i].children :: i < c < |nodes|
  }

  /** The first `<` of the gap, or its start when there is none. */
  function ElementStart(source: string, from: nat, to: nat): (p: nat)
    requires from <= |source|
    ensures from <= p && (from < to ==> p < to) && p <= |source|
    ensures (p < to && p < |source| && source[p] == '<' && forall q | from <= q < p :: source[q] != '<')
            || (p == from && forall q | from <= q < to && q < |source| :: source[q] != '<')
  {
    var to := if to > |source| then |source| else to;
    if from >= to then from else
      var p := FirstAngle(source, from, to);
      if p == to then from else p
  }

  function FirstAngle(source: string, from: nat, to: nat): (p: nat)
    requires from <= to <= |source|
    ensures from <= p <= to
    ensures forall q | from <= q < p :: source[q] != '<'
    ensures p < to ==> source[p] == '<'
    decreases |source| - from
  {
    if from >= to || source[from] == '<' then from else FirstAngle(source, from + 1, to)
  }

  function WithChild(nodes: seq<Node>, stack: seq<nat>, c: nat): (r: seq<Node>)
    requires forall k | 0 <= k < |stack| :: stack[k] < |nodes|
    ensures |r| == |nodes|
    ensures forall i | 0 <= i < |nodes| ::
              r[i] == if stack != [] && i == stack[|stack| - 1] then nodes[i].(children := nodes[i].children + [c])
                  else nodes[i]
  {
    if stack == [] then nodes
    else
      var p := stack[|stack| - 1];
      nodes[p := nodes[p].(children := nodes[p].children + [c])]
  }

  function Open(s: State, name: string, start: nat, after: nat): (r: State)
    requires Indexed(s)
    ensures Indexed(r)
  {
    var n := |s.nodes|;
    State(WithChild(s.nodes, s.stack, n) + [Node(name, start, 0, [])], s.stack + [n], after)
  }

  function Close(s: State, after: nat): (r: State)
    requires Indexed(s)
    ensures Indexed(r)
  {
    if s.stack == [] then s.(pos := after)
    else
      var p := s.stack[|s.stack| - 1];
      State(s.nodes[p := s.nodes[p].(end := after)], s.stack[..|s.stack| - 1], after)
  }

  function Step(source: string, s: State, t: Token): (r: State)
    requires Indexed(s) && s.pos <= |source|
    ensures Indexed(r) && r.pos == t.after
  {
    match t
    case Start(name, after) => Open(s, name, ElementStart(source, s.pos, after), after)
    case End(after) => Close(s, after)
    case Other(after) => s.(pos := after)
  }

  /** Offsets never go back and stay inside the source. */
  ghost predicate Offsets(source: string, pos: nat, ts: seq<Token>)
    decreases ts
  {
    if ts == [] then pos <= |source|
    else
      && pos <= ts[0].after <= |source|
      && Offsets(source, ts[0].after, ts[1..])
  }

  ghost function Run(source: string, s: State, ts: seq<Token>): (r: State)
    requires Indexed(s) && Offsets(source, s.pos, ts)
    ensures Indexed(r) && r.pos <= |source|
    decreases ts
  {
    if ts == [] then s else Run(source, Step(source, s, ts[0]), ts[1..])
  }

  function Init(): State { State([], [], 0) }

  /** Elements still open at the end reach to the end of the source. */
  function Finish(source: string, nodes: seq<Node>, stack: seq<nat>): (r: seq<Node>)
    requires forall k | 0 <= k < |stack| :: stack[k] < |nodes|
    ensures |r| == |nodes|
    ensures forall i | 0 <= i < |nodes| ::
              r[i] == if i in stack && nodes[i].end == 0 then nodes[i].(end := |source|) else nodes[i]
  {
    seq(|nodes|, i requires 0 <= i < |nodes| =>
      if i in stack && nodes[i].end == 0 then nodes[i].(end := |source|) else nodes[i])
  }

  class Reader {
    var nodes: seq<Node>
    var stack: seq<nat>

    constructor ()
      ensures nodes == [] && stack == []
    {
      nodes, stack := [], [];
    }

    method Read(source: string, ts: seq<Token>)
      requires nodes == [] && stack == []
      requires Offsets(source, 0, ts)
      modifies this
      ensures nodes == Finish(source, Run(source, Init(), ts).nodes, Run(source, Init(), ts).stack)
    {
      hide Open, Close, ElementStart, Finish;
      var prev := 0;
      for i := 0 to |ts|
        invariant Indexed(State(nodes, stack, prev)) && Offsets(source, prev, ts[i..])
        invariant Run(source, State(nodes, stack, prev), ts[i..]) == Run(source, Init(), ts)
      {
        assert ts[i..][0] == ts[i] && ts[i..][1..] == ts[i + 1..];
        ReadToken(source, prev, ts[i]);
        prev := ts[i].after;
      }
      CloseRest(source);
    }

    method ReadToken(source: string, prev: nat, t: Token)
      requires Indexed(State(nodes, stack, prev)) && prev <= |source|
      modifies this
      ensures State(nodes, stack, t.after) == Step(source, old(State(nodes, stack, prev)), t)
    {
      match t
      case Start(name, after) =>
        var n := |nodes|;
        if |stack| > 0 {
          var parent := stack[|stack| - 1];
          nodes := nodes[parent := nodes[parent].(children := nodes[parent].children + [n])];
        }
        nodes := nodes + [Node(name, ElementStart(source, prev, after), 0, [])];
        stack := stack + [n];
      case End(after) =>
        if |stack| > 0 {
          var n := stack[|stack| - 1];
          stack := stack[..|stack| - 1];
          nodes := nodes[n := nodes[n].(end := after)];
        }
      case Other(_) =>
    }

    method CloseRest(source: string)
      requires forall k | 0 <= k < |stack| :: stack[k] < |nodes|
      modifies this`nodes
      ensures nodes == Finish(source, old(nodes), stack)
    {
      for k := 0 to |stack|
        invariant |nodes| == |old(nodes)|
        invariant nodes == Finish(source, old(nodes), stack[..k])
      {
        var n := stack[k];
        assert stack[..k + 1] == stack[..k] + [n];
        if nodes[n].end == 0 { nodes := nodes[n := nodes[n].(end := |source|)]; }
      }
      assert stack[..|stack|] == stack;
    }
  }
}
