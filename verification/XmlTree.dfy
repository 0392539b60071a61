/** What the XML token loop guarantees: nested ranges for any stream, and the written tree for a balanced one. */
module XmlTree {
  import opened Wrappers
  import opened XmlElements

  /** Every range is in bounds, children lie inside their parent, siblings do not overlap. */
  ghost predicate Nested(nodes: seq<Node>, sourceLen: nat) {
    && (forall i | 0 <= i < |nodes| :: nodes[i].start <= nodes[i].end <= sourceLen)
    && (forall i, c | 0 <= i < |nodes| && c in nodes[i].children ::
          c < |nodes| && nodes[i].start <= nodes[c].start && nodes[c].end <= nodes[i].end)
    && (forall i, a, b | 0 <= i < |nodes| && 0 <= a < b < |nodes[i].children| ::
          Before(nodes, nodes[i].children[a], nodes[i].children[b]))
  }

  ghost predicate Before(nodes: seq<Node>, l: nat, r: nat) {
    l < |nodes| && r < |nodes| && nodes[l].end <= nodes[r].start
  }

  /** An earlier sibling is closed, and ends before the later one starts. */
  ghost predicate SiblingsApart(s: State) {
    forall i, a, b | 0 <= i < |s.nodes| && 0 <= a < b < |s.nodes[i].children| ::
      Before(s.nodes, s.nodes[i].children[a], s.nodes[i].children[b]) && s.nodes[i].children[a] !in s.stack
  }

  /** The stack runs down from parent to child; open elements have no end yet. */
  ghost predicate StackIsOpen(s: State)
    requires Indexed(s)
  {
    && (forall k | 0 <= k < |s.stack| :: s.nodes[s.stack[k]].end == 0)
    && (forall a, b | 0 <= a < b < |s.stack| :: s.stack[a] < s.stack[b])
  }

  /** An open element's parent is the element below it on the stack. */
  ghost predicate ParentsBelow(s: State)
    requires Indexed(s)
  {
    forall i, k | 0 <= i < |s.nodes| && 0 <= k < |s.stack| && s.stack[k] in s.nodes[i].children ::
      k > 0 && s.stack[k - 1] == i
  }

  ghost predicate RangesSoFar(s: State)
    requires Indexed(s)
  {
    && (forall i | 0 <= i < |s.nodes| ::
          s.nodes[i].start <= s.pos && s.nodes[i].end <= s.pos
              && (i !in s.stack ==> s.nodes[i].start <= s.nodes[i].end))
    && (forall i, c | 0 <= i < |s.nodes| && c in s.nodes[i].children ::
          s.nodes[i].start <= s.nodes[c].start && (i !in s.stack ==> s.nodes[c].end <= s.nodes[i].end))
  }

  ghost predicate Inv(s: State) {
    Indexed(s) && StackIsOpen(s) && ParentsBelow(s) && RangesSoFar(s) && SiblingsApart(s)
  }

  /** An open element's parent is open and not innermost. */
  lemma ParentIsOpen(s: State, i: nat, c: nat)
    requires Inv(s) && i < |s.nodes| && c in s.nodes[i].children && c in s.stack
    ensures i in s.stack && i != s.stack[|s.stack| - 1]
  {
    var k :| 0 <= k < |s.stack| && s.stack[k] == c;
    assert s.stack[k - 1] == i;
  }

  /** At a token boundary the innermost open element has only closed children. */
  lemma TopHasClosedChildren(s: State, c: nat)
    requires Inv(s) && s.stack != [] && c in s.nodes[s.stack[|s.stack| - 1]].children
    ensures c !in s.stack && s.nodes[c].end <= s.pos
  {
    if c in s.stack { ParentIsOpen(s, s.stack[|s.stack| - 1], c); }
  }

  lemma OpenKeepsStack(s: State, name: string, start: nat, after: nat)
    requires Inv(s) && s.pos <= start <= after
    ensures StackIsOpen(Open(s, name, start, after))
  {
    hide SiblingsApart, RangesSoFar, ParentsBelow;
  }

  lemma OpenKeepsParents(s: State, name: string, start: nat, after: nat)
    requires Inv(s) && s.pos <= start <= after
    ensures ParentsBelow(Open(s, name, start, after))
  {
    hide SiblingsApart, RangesSoFar;
    var r := Open(s, name, start, after);
    assert r.stack[|s.stack|] == |s.nodes|;
  }

  lemma OpenKeepsRanges(s: State, name: string, start: nat, after: nat)
    requires Inv(s) && s.pos <= start <= after
    ensures RangesSoFar(Open(s, name, start, after))
  {
    hide SiblingsApart, ParentsBelow;
    var r := Open(s, name, start, after);
    forall i | 0 <= i < |s.nodes| ensures i in r.stack <==> i in s.stack { }
    assert s.stack != [] ==> s.stack[|s.stack| - 1] in r.stack;
    assert r.stack[|s.stack|] == |s.nodes|;
  }

  lemma OpenKeepsSiblings(s: State, name: string, start: nat, after: nat)
    requires Inv(s) && s.pos <= start <= after
    ensures SiblingsApart(Open(s, name, start, after))
  {
    var r := Open(s, name, start, after);
    var n := |s.nodes|;
    forall i, a, b | 0 <= i < |r.nodes| && 0 <= a < b < |r.nodes[i].children|
      ensures Before(r.nodes, r.nodes[i].children[a], r.nodes[i].children[b]) && r.nodes[i].children[a] !in r.stack
    {
      assert i < n;
      var l := s.nodes[i].children[a];
      assert l in s.nodes[i].children;
      if b == |s.nodes[i].children| { TopHasClosedChildren(s, l); }
      else { assert s.nodes[i].children[b] in s.nodes[i].children; }
    }
  }

  lemma OpenKeepsInv(s: State, name: string, start: nat, after: nat)
    requires Inv(s) && s.pos <= start <= after
    ensures Inv(Open(s, name, start, after))
  {
    hide StackIsOpen, ParentsBelow, RangesSoFar, SiblingsApart;
    OpenKeepsStack(s, name, start, after);
    OpenKeepsParents(s, name, start, after);
    OpenKeepsRanges(s, name, start, after);
    OpenKeepsSiblings(s, name, start, after);
  }

  lemma CloseKeepsStack(s: State, after: nat)
    requires Inv(s) && s.pos <= after && s.stack != []
    ensures StackIsOpen(Close(s, after)) && ParentsBelow(Close(s, after))
  {
    hide SiblingsApart, RangesSoFar, Close;
    InvParts(s);
    CloseFacts(s, after);
  }

  /** What closing changes: the innermost element gets its end and leaves the stack. */
  lemma CloseFacts(s: State, after: nat)
    requires Indexed(s) && StackIsOpen(s) && s.stack != []
    ensures var r, p := Close(s, after), s.stack[|s.stack| - 1];
            && |r.nodes| == |s.nodes| && p < |s.nodes| && r.pos == after
            && r.nodes[p].end == after && p !in r.stack && s.stack == r.stack + [p]
            && (forall i :: i in s.stack <==> i in r.stack || i == p)
            && (forall k | 0 <= k < |r.stack| :: r.stack[k] == s.stack[k] && r.stack[k] != p)
            && (forall i | 0 <= i < |s.nodes| ::
                  r.nodes[i].start == s.nodes[i].start && r.nodes[i].children == s.nodes[i].children)
            && (forall i | 0 <= i < |s.nodes| && i != p :: r.nodes[i].end == s.nodes[i].end)
  {
    var r, p := Close(s, after), s.stack[|s.stack| - 1];
    assert s.stack == r.stack + [p];
  }

  lemma CloseKeepsRanges(s: State, after: nat)
    requires Inv(s) && s.pos <= after && s.stack != []
    ensures RangesSoFar(Close(s, after))
  {
    hide ParentsBelow, SiblingsApart, Close, StackIsOpen;
    InvParts(s);
    CloseFacts(s, after);
    var r, p := Close(s, after), s.stack[|s.stack| - 1];
    forall c | c in s.nodes[p].children ensures c != p && s.nodes[c].end <= s.pos { TopHasClosedChildren(s, c); }
    forall i, c | 0 <= i < |r.nodes| && c in r.nodes[i].children
      ensures r.nodes[i].start <= r.nodes[c].start && (i !in r.stack ==> r.nodes[c].end <= r.nodes[i].end)
    {
      if i != p && c == p { ParentIsOpen(s, i, c); }
    }
  }

  lemma CloseKeepsSiblings(s: State, after: nat)
    requires Inv(s) && s.pos <= after && s.stack != []
    ensures SiblingsApart(Close(s, after))
  {
    hide ParentsBelow, RangesSoFar, Close, StackIsOpen, Indexed;
    InvParts(s);
    CloseFacts(s, after);
    var r, p := Close(s, after), s.stack[|s.stack| - 1];
    forall i, a, b | 0 <= i < |r.nodes| && 0 <= a < b < |r.nodes[i].children|
      ensures Before(r.nodes, r.nodes[i].children[a], r.nodes[i].children[b]) && r.nodes[i].children[a] !in r.stack
    {
      var l := s.nodes[i].children[a];
      assert Before(s.nodes, l, s.nodes[i].children[b]) && l !in s.stack;
      assert l != p;
    }
  }

  lemma CloseKeepsInv(s: State, after: nat)
    requires Inv(s) && s.pos <= after
    ensures Inv(Close(s, after))
  {
    if s.stack != [] {
      hide StackIsOpen, ParentsBelow, SiblingsApart, RangesSoFar;
      CloseKeepsStack(s, after);
      CloseKeepsRanges(s, after);
      CloseKeepsSiblings(s, after);
    }
  }

  lemma {:induction false} RunKeepsInv(source: string, s: State, ts: seq<Token>)
    requires Inv(s) && Offsets(source, s.pos, ts)
    ensures Inv(Run(source, s, ts))
    decreases ts
  {
    if ts != [] {
      StepKeepsInv(source, s, ts[0]);
      RunKeepsInv(source, Step(source, s, ts[0]), ts[1..]);
    }
  }

  lemma StepKeepsInv(source: string, s: State, t: Token)
    requires Inv(s) && s.pos <= t.after <= |source|
    ensures Inv(Step(source, s, t))
  {
    match t
    case Start(name, after) => OpenKeepsInv(s, name, ElementStart(source, s.pos, after), after);
    case End(after) => CloseKeepsInv(s, after);
    case Other(after) =>
  }

  /** The finished nodes of a run. */
  ghost function Final(source: string, s: State, ts: seq<Token>): (nodes: seq<Node>)
    requires Indexed(s) && Offsets(source, s.pos, ts)
  {
    var r := Run(source, s, ts);
    Finish(source, r.nodes, r.stack)
  }

  /** The nodes a token stream leaves behind. */
  ghost function Result(source: string, ts: seq<Token>): seq<Node>
    requires Offsets(source, 0, ts)
  {
    Final(source, Init(), ts)
  }

  /** Whatever the tokens, even with elements left open, the ranges read form a nesting. */
  lemma RangesNest(source: string, ts: seq<Token>)
    requires Offsets(source, 0, ts)
    ensures Nested(Result(source, ts), |source|)
  {
    assert Inv(Init());
    RunKeepsInv(source, Init(), ts);
    FinishNests(source, Run(source, Init(), ts));
  }

  lemma FinishNests(source: string, s: State)
    requires Inv(s) && s.pos <= |source|
    ensures Nested(Finish(source, s.nodes, s.stack), |source|)
  {
    FinishRanges(source, s);
    FinishSiblings(source, s);
  }

  lemma FinishRanges(source: string, s: State)
    requires Inv(s) && s.pos <= |source|
    ensures var nodes := Finish(source, s.nodes, s.stack);
            && (forall i | 0 <= i < |nodes| :: nodes[i].start <= nodes[i].end <= |source|)
            && (forall i, c | 0 <= i < |nodes| && c in nodes[i].children ::
                  c < |nodes| && nodes[i].start <= nodes[c].start && nodes[c].end <= nodes[i].end)
  {
    var nodes := Finish(source, s.nodes, s.stack);
    forall i, c | 0 <= i < |nodes| && c in nodes[i].children
      ensures c < |nodes| && nodes[i].start <= nodes[c].start && nodes[c].end <= nodes[i].end
    {
      if c in s.stack { ParentIsOpen(s, i, c); }
    }
  }

  lemma FinishSiblings(source: string, s: State)
    requires Inv(s) && s.pos <= |source|
    ensures var nodes := Finish(source, s.nodes, s.stack);
            forall i, a, b | 0 <= i < |nodes| && 0 <= a < b < |nodes[i].children| ::
              Before(nodes, nodes[i].children[a], nodes[i].children[b])
  {
    hide ParentsBelow, RangesSoFar, StackIsOpen;
  }

  /** The offset of the end tag that closes an element with d open ones inside it, if the tokens have one. */
  function Closing(ts: seq<Token>, d: nat): Option<nat> {
    if ts == [] then None
    else
      match ts[0]
      case Start(_, _) => Closing(ts[1..], d + 1)
      case End(after) => if d == 0 then Some(after) else Closing(ts[1..], d - 1)
      case Other(_) => Closing(ts[1..], d)
  }

  /** Where an element opened before these tokens ends. */
  function EndOffset(source: string, ts: seq<Token>): nat {
    match Closing(ts, 0) case Some(after) => after case None => |source|
  }

  /** A start tag that takes up no room is followed by some before its element ends. */
  predicate TakesRoom(source: string, pos: nat, ts: seq<Token>)
    requires ts != []
  {
    ts[0].Start? ==> pos < ts[0].after || ts[0].after < EndOffset(source, ts[1..])
  }

  ghost predicate AllTakeRoom(source: string, pos: nat, ts: seq<Token>)
    decreases ts
  {
    ts == [] || (TakesRoom(source, pos, ts) && AllTakeRoom(source, ts[0].after, ts[1..]))
  }

  /** Elements keep their starts, and closed ones their ends. */
  ghost predicate Later(s: State, r: State) {
    && |s.nodes| <= |r.nodes|
    && (forall i | 0 <= i < |s.nodes| :: r.nodes[i].start == s.nodes[i].start)
    && (forall i | 0 <= i < |s.nodes| && i !in s.stack :: i !in r.stack && r.nodes[i].end == s.nodes[i].end)
  }

  lemma {:induction false} RunIsLater(source: string, s: State, ts: seq<Token>)
    requires Indexed(s) && Offsets(source, s.pos, ts)
    ensures Later(s, Run(source, s, ts))
    decreases ts
  {
    if ts != [] {
      StepFate(source, s, ts[0]);
      RunIsLater(source, Step(source, s, ts[0]), ts[1..]);
      LaterStill(s, Step(source, s, ts[0]), Run(source, s, ts));
    }
  }

  lemma LaterStill(s: State, s1: State, r: State)
    requires Later(s, s1) && Later(s1, r)
    ensures Later(s, r)
  {
  }

  /** An open element ends at its closing tag, or stays open. */
  lemma {:induction false} FateOfOpen(source: string, s: State, ts: seq<Token>, k: nat)
    requires Inv(s) && Offsets(source, s.pos, ts) && k < |s.stack|
    ensures Fate(Run(source, s, ts), s.stack[k], Closing(ts, |s.stack| - 1 - k))
    decreases ts
  {
    InvParts(s);
    hide *;
    if ts == [] {
      NothingRuns(source, s, k);
    } else {
      var s1 := OneRun(source, s, ts, k);
      if k < |s1.stack| {
        FateOfOpen(source, s1, ts[1..], k);
      } else {
        RunIsLater(source, s1, ts[1..]);
        ClosedStays(s1, Run(source, s1, ts[1..]), s.stack[k], ts[0].after);
      }
    }
  }

  lemma NothingRuns(source: string, s: State, k: nat)
    requires Inv(s) && Offsets(source, s.pos, []) && k < |s.stack|
    ensures Fate(Run(source, s, []), s.stack[k], Closing([], |s.stack| - 1 - k))
  {
    StillOpen(s, k);
  }

  /** One step of a run, as an open element sees it. */
  lemma OneRun(source: string, s: State, ts: seq<Token>, k: nat) returns (s1: State)
    requires Inv(s) && Offsets(source, s.pos, ts) && k < |s.stack| && ts != []
    ensures Inv(s1) && Offsets(source, s1.pos, ts[1..]) && Run(source, s, ts) == Run(source, s1, ts[1..])
    ensures k < |s1.stack| ==> s1.stack[k] == s.stack[k]
                               && Closing(ts, |s.stack| - 1 - k) == Closing(ts[1..], |s1.stack| - 1 - k)
    ensures k >= |s1.stack| ==> var p := s.stack[k];
                                && p < |s1.nodes| && p !in s1.stack && s1.nodes[p].end == ts[0].after
                                && Closing(ts, |s.stack| - 1 - k) == Some(ts[0].after)
  {
    hide *;
    s1 := FirstStep(source, s, ts);
    StepFate(source, s, ts[0]);
    ClosingStep(ts, |s.stack|, |s1.stack|, k);
  }

  lemma FirstStep(source: string, s: State, ts: seq<Token>) returns (s1: State)
    requires Inv(s) && Offsets(source, s.pos, ts) && ts != []
    ensures Indexed(s) && StackIsOpen(s) && s.pos <= ts[0].after <= |source| && s1 == Step(source, s, ts[0])
    ensures Inv(s1) && Offsets(source, s1.pos, ts[1..]) && Run(source, s, ts) == Run(source, s1, ts[1..])
  {
    InvParts(s);
    OffsetsFirst(source, s.pos, ts);
    StepKeepsInv(source, s, ts[0]);
    s1 := Step(source, s, ts[0]);
    hide Inv, Step, Indexed;
  }

  lemma OffsetsFirst(source: string, pos: nat, ts: seq<Token>)
    requires Offsets(source, pos, ts) && ts != []
    ensures pos <= ts[0].after <= |source| && Offsets(source, ts[0].after, ts[1..])
  {
  }

  /** The depth of the stack after one token. */
  function Depth(t: Token, n: nat): nat {
    match t
    case Start(_, _) => n + 1
    case End(_) => if n == 0 then 0 else n - 1
    case Other(_) => n
  }

  lemma ClosingStep(ts: seq<Token>, n: nat, n1: nat, k: nat)
    requires ts != [] && k < n && n1 == Depth(ts[0], n)
    ensures if k < n1 then Closing(ts, n - 1 - k) == Closing(ts[1..], n1 - 1 - k)
            else ts[0].End? && k == n - 1 && Closing(ts, n - 1 - k) == Some(ts[0].after)
  {
  }

  lemma InvParts(s: State)
    requires Inv(s)
    ensures Indexed(s) && StackIsOpen(s)
  {
  }

  lemma ClosedStays(s1: State, r: State, p: nat, after: nat)
    requires Later(s1, r) && p < |s1.nodes| && p !in s1.stack && s1.nodes[p].end == after
    ensures Fate(r, p, Some(after))
  {
  }

  /** Closed at the given offset, or still open without an end. */
  ghost predicate Fate(r: State, p: nat, closed: Option<nat>) {
    && p < |r.nodes|
    && match closed
       case Some(after) => p !in r.stack && r.nodes[p].end == after
       case None => p in r.stack && r.nodes[p].end == 0
  }

  lemma StillOpen(s: State, k: nat)
    requires Inv(s) && k < |s.stack|
    ensures Fate(s, s.stack[k], None)
  {
  }

  lemma StepFate(source: string, s: State, t: Token)
    requires Indexed(s) && s.pos <= t.after <= |source|
    ensures Later(s, Step(source, s, t))
    ensures var r := Step(source, s, t);
            && (forall k | 0 <= k < |s.stack| && k < |r.stack| :: r.stack[k] == s.stack[k])
            && |r.stack| == Depth(t, |s.stack|)
            && (t.End? && s.stack != [] && StackIsOpen(s) ==>
                  var p := s.stack[|s.stack| - 1]; p < |r.nodes| && p !in r.stack && r.nodes[p].end == t.after)
  {
  }

  lemma {:induction false} ClosingBound(source: string, pos: nat, ts: seq<Token>, d: nat)
    requires Offsets(source, pos, ts)
    ensures match Closing(ts, d) case Some(after) => pos <= after <= |source| case None => pos <= |source|
    decreases ts
  {
    if ts != [] {
      var d' := match ts[0]
                case Start(_, _) => d + 1
                case End(_) => if d == 0 then 0 else d - 1
                case Other(_) => d;
      ClosingBound(source, ts[0].after, ts[1..], d');
    }
  }

  /** Where node n of the finished list starts and ends. */
  lemma FinishedRange(source: string, r: State, n: nat, closed: Option<nat>)
    requires Indexed(r) && Fate(r, n, closed)
    ensures n < |Finish(source, r.nodes, r.stack)|
    ensures Finish(source, r.nodes, r.stack)[n].start == r.nodes[n].start
    ensures Finish(source, r.nodes, r.stack)[n].end == match closed case Some(after) => after case None => |source|
  {
  }

  /** The range of the element that the first token opens. */
  lemma OpenedRange(source: string, s: State, ts: seq<Token>)
    requires Inv(s) && ts != [] && ts[0].Start? && Offsets(source, s.pos, ts)
    ensures var r := Run(source, s, ts);
            var n := |s.nodes|;
            n < |r.nodes| && (NonEmpty(Finish(source, r.nodes, r.stack), n) <==> TakesRoom(source, s.pos, ts))
  {
    InvParts(s);
    var s1 := Step(source, s, ts[0]);
    var n := |s.nodes|;
    assert s1.stack[|s.stack|] == n && |s1.stack| == |s.stack| + 1;
    assert s1.nodes[n].start == ElementStart(source, s.pos, ts[0].after);
    StepKeepsInv(source, s, ts[0]);
    hide Inv, Open, Close, Finish, Later;
    FateOfOpen(source, s1, ts[1..], |s.stack|);
    RunIsLater(source, s1, ts[1..]);
    StartStays(s1, Run(source, s1, ts[1..]), n);
    ClosingBound(source, ts[0].after, ts[1..], 0);
    FinishedRange(source, Run(source, s1, ts[1..]), n, Closing(ts[1..], 0));
  }

  lemma StartStays(s: State, r: State, n: nat)
    requires Later(s, r) && n < |s.nodes|
    ensures n < |r.nodes| && r.nodes[n].start == s.nodes[n].start
  {
  }

  ghost predicate NonEmpty(nodes: seq<Node>, i: nat) {
    i < |nodes| && nodes[i].start < nodes[i].end
  }

  ghost predicate NonEmptyFrom(nodes: seq<Node>, lo: nat) {
    forall i | lo <= i < |nodes| :: NonEmpty(nodes, i)
  }

  lemma {:induction false} NewRangesNonEmptyIff(source: string, s: State, ts: seq<Token>)
    requires Inv(s) && Offsets(source, s.pos, ts)
    ensures Indexed(s) && (NonEmptyFrom(Final(source, s, ts), |s.nodes|) <==> AllTakeRoom(source, s.pos, ts))
    decreases ts
  {
    InvParts(s);
    hide *;
    if ts == [] {
      NothingNew(source, s);
    } else {
      var s1 := OneFinal(source, s, ts);
      NewRangesNonEmptyIff(source, s1, ts[1..]);
      if ts[0].Start? { OpenedFirst(source, s, ts); } else { NoRoomNeeded(source, s.pos, ts); }
    }
  }

  lemma NothingNew(source: string, s: State)
    requires Indexed(s) && Offsets(source, s.pos, [])
    ensures NonEmptyFrom(Final(source, s, []), |s.nodes|) && AllTakeRoom(source, s.pos, [])
  {
  }

  lemma OneFinal(source: string, s: State, ts: seq<Token>) returns (s1: State)
    requires Inv(s) && Indexed(s) && Offsets(source, s.pos, ts) && ts != []
    ensures Inv(s1) && Indexed(s1) && Offsets(source, s1.pos, ts[1..])
            && Final(source, s, ts) == Final(source, s1, ts[1..])
    ensures |s1.nodes| == if ts[0].Start? then |s.nodes| + 1 else |s.nodes|
    ensures AllTakeRoom(source, s.pos, ts) <==> TakesRoom(source, s.pos, ts) && AllTakeRoom(source, s1.pos, ts[1..])
  {
    s1 := Step(source, s, ts[0]);
    StepKeepsInv(source, s, ts[0]);
    hide Inv;
  }

  lemma OpenedFirst(source: string, s: State, ts: seq<Token>)
    requires Inv(s) && Indexed(s) && ts != [] && ts[0].Start? && Offsets(source, s.pos, ts)
    ensures var nodes := Final(source, s, ts);
            NonEmptyFrom(nodes, |s.nodes|) <==> TakesRoom(source, s.pos, ts) && NonEmptyFrom(nodes, |s.nodes| + 1)
  {
    hide Inv, Indexed, Offsets, TakesRoom, NonEmpty, Run;
    OpenedRange(source, s, ts);
  }

  lemma NoRoomNeeded(source: string, pos: nat, ts: seq<Token>)
    requires ts != [] && !ts[0].Start?
    ensures TakesRoom(source, pos, ts)
  {
  }

  /** All ranges are non-empty exactly if every start tag takes up room itself or has some before its element's end. */
  lemma NonEmptyIff(source: string, ts: seq<Token>)
    requires Offsets(source, 0, ts)
    ensures NonEmptyFrom(Result(source, ts), 0) <==> AllTakeRoom(source, 0, ts)
  {
    assert Inv(Init());
    hide Inv, NonEmpty, Run, AllTakeRoom, Offsets;
    NewRangesNonEmptyIff(source, Init(), ts);
  }
}
