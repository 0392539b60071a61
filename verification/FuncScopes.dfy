/** The function-scope stack of the line-by-line extractor. */
module FuncScopes {
  import opened Wrappers

  /** A function matched on a line: its name and the last line of its body. */
  datatype Func = Func(name: string, endLine: int)

  /** Entry n - 1 is what line n opens. */
  type Lines = seq<Option<Func>>

  ghost predicate Opens(ls: Lines, m: nat) {
    1 <= m <= |ls| && ls[m - 1].Some?
  }

  ghost function EndLine(ls: Lines, m: nat): int
    requires Opens(ls, m)
  {
    ls[m - 1].value.endLine
  }

  /** Function m was opened before line n and its range reaches line n. */
  ghost predicate Active(ls: Lines, m: nat, n: nat) {
    Opens(ls, m) && m < n && n <= EndLine(ls, m)
  }

  ghost predicate AllOpen(ls: Lines, stack: seq<nat>) {
    forall i | 0 <= i < |stack| :: Opens(ls, stack[i])
  }

  /** Drops expired functions from the top. */
  ghost function Pop(ls: Lines, stack: seq<nat>, n: nat): (rest: seq<nat>)
    requires AllOpen(ls, stack)
    ensures rest <= stack
  {
    if stack != [] && n > EndLine(ls, stack[|stack| - 1]) then Pop(ls, stack[..|stack| - 1], n) else stack
  }

  /** The stack once line n has been popped, as start lines; line n's own function is pushed afterwards. */
  ghost function Stack(ls: Lines, n: nat): (stack: seq<nat>)
    requires n <= |ls| + 1
    ensures AllOpen(ls, stack) && forall i | 0 <= i < |stack| :: stack[i] < n
    decreases n, 0
  {
    if n == 0 then [] else Pop(ls, Pushed(ls, n - 1), n)
  }

  ghost function Pushed(ls: Lines, n: nat): (stack: seq<nat>)
    requires n <= |ls|
    ensures AllOpen(ls, stack) && forall i | 0 <= i < |stack| :: stack[i] <= n
    decreases n, 1
  {
    if Opens(ls, n) then Stack(ls, n) + [n] else Stack(ls, n)
  }

  ghost predicate Ascending(stack: seq<nat>) {
    forall i, j | 0 <= i < j < |stack| :: stack[i] < stack[j]
  }

  /** No active function is ever missing, and the top has not expired. */
  lemma {:induction false} StackFacts(ls: Lines, n: nat)
    requires n <= |ls| + 1
    ensures Ascending(Stack(ls, n))
    ensures forall m: nat | Active(ls, m, n) :: m in Stack(ls, n)
    ensures Stack(ls, n) != [] ==> n <= EndLine(ls, Stack(ls, n)[|Stack(ls, n)| - 1])
  {
    hide Pop, Stack, Pushed;
    StackStep(ls, n);
    if n > 0 {
      StackFacts(ls, n - 1);
      var before := Pushed(ls, n - 1);
      PushedFacts(ls, n - 1);
      PopFacts(ls, before, n);
    }
  }

  lemma StackStep(ls: Lines, n: nat)
    requires n <= |ls| + 1
    ensures n == 0 ==> Stack(ls, n) == []
    ensures n > 0 ==> Stack(ls, n) == Pop(ls, Pushed(ls, n - 1), n)
  {
  }

  /** Line n's own function comes on top of those active before it. */
  lemma PushedFacts(ls: Lines, n: nat)
    requires n <= |ls| && Ascending(Stack(ls, n)) && forall m: nat | Active(ls, m, n) :: m in Stack(ls, n)
    ensures Ascending(Pushed(ls, n))
    ensures forall m: nat | Opens(ls, m) && m <= n && n < EndLine(ls, m) :: m in Pushed(ls, n)
  {
    hide Stack;
    forall m: nat | Opens(ls, m) && m <= n && n < EndLine(ls, m) ensures m in Pushed(ls, n) {
      if m < n { assert Active(ls, m, n); }
    }
  }

  lemma {:induction false} PopFacts(ls: Lines, stack: seq<nat>, n: nat)
    requires AllOpen(ls, stack)
    ensures forall m | m in stack && Opens(ls, m) && n <= EndLine(ls, m) :: m in Pop(ls, stack, n)
    ensures var rest := Pop(ls, stack, n); rest != [] ==> n <= EndLine(ls, rest[|rest| - 1])
  {
    if stack != [] && n > EndLine(ls, stack[|stack| - 1]) {
      PopFacts(ls, stack[..|stack| - 1], n);
      assert stack == stack[..|stack| - 1] + [stack[|stack| - 1]];
    }
  }

  /** m is the most recently opened function still active at line n. */
  ghost predicate Innermost(ls: Lines, m: nat, n: nat) {
    Active(ls, m, n) && forall k: nat | Active(ls, k, n) :: k <= m
  }

  /**
   * Whatever the ranges, the top of the stack is the most recently opened active function, and the stack is empty
   * exactly when none is active.
   */
  lemma TopIsInnermost(ls: Lines, n: nat)
    requires n <= |ls| + 1
    ensures Stack(ls, n) == [] <==> forall m: nat :: !Active(ls, m, n)
    ensures var s := Stack(ls, n); s != [] ==> Innermost(ls, s[|s| - 1], n)
    ensures forall i | 0 <= i < n - 1 && ls[i].Some? && n <= ls[i].value.endLine ::
              var s := Stack(ls, n); s != [] && i < s[|s| - 1]
    ensures var s := Stack(ls, n); s != [] ==>
              var top := s[|s| - 1]; 1 <= top < n && ls[top - 1].Some? && n <= ls[top - 1].value.endLine
  {
    StackFacts(ls, n);
    var s := Stack(ls, n);
    if s != [] {
      var top := s[|s| - 1];
      assert Active(ls, top, n);
      forall k: nat | Active(ls, k, n) ensures k <= top {
        var i :| 0 <= i < |s| && s[i] == k;
      }
    }
    forall i | 0 <= i < n - 1 && ls[i].Some? && n <= ls[i].value.endLine ensures s != [] && i < s[|s| - 1] {
      assert Active(ls, i + 1, n);
    }
  }

  /** The stack lists exactly the active functions, outermost first. */
  ghost predicate Exact(ls: Lines, n: nat)
    requires n <= |ls| + 1
  {
    Ascending(Stack(ls, n)) && forall m: nat :: m in Stack(ls, n) <==> Active(ls, m, n)
  }

  /** The last scanned line of function m; its body may reach past the lines scanned. */
  ghost function LastLine(ls: Lines, m: nat): int
    requires Opens(ls, m)
  {
    if EndLine(ls, m) < |ls| then EndLine(ls, m) else |ls|
  }

  /** Function ranges are pairwise nested or disjoint, as far as lines were scanned. */
  ghost predicate Laminar(ls: Lines) {
    forall a: nat, b: nat | Opens(ls, a) && Opens(ls, b) && a < b <= EndLine(ls, a) ::
           LastLine(ls, b) <= LastLine(ls, a)
  }

  /** Deeper entries end no later. */
  ghost predicate Shrinking(ls: Lines, stack: seq<nat>)
    requires AllOpen(ls, stack)
  {
    forall i, j | 0 <= i < j < |stack| :: LastLine(ls, stack[j]) <= LastLine(ls, stack[i])
  }

  lemma {:induction false} LaminarShrinks(ls: Lines, n: nat)
    requires n <= |ls| && Laminar(ls)
    ensures Shrinking(ls, Stack(ls, n)) && Exact(ls, n)
  {
    hide Pop, Shrinking, Laminar, Active;
    if n > 0 {
      LaminarShrinks(ls, n - 1);
      if Opens(ls, n - 1) { PushShrinks(ls, Stack(ls, n - 1), n - 1); }
      PrefixShrinks(ls, Stack(ls, n), Pushed(ls, n - 1));
    } else {
      NothingShrinks(ls);
    }
    ShrinkingIsExact(ls, n);
  }

  lemma NothingShrinks(ls: Lines)
    ensures Shrinking(ls, [])
  {
  }

  lemma PrefixShrinks(ls: Lines, t: seq<nat>, s: seq<nat>)
    requires AllOpen(ls, s) && AllOpen(ls, t) && Shrinking(ls, s) && t <= s
    ensures Shrinking(ls, t)
  {
  }

  lemma ShrinkingIsExact(ls: Lines, n: nat)
    requires n <= |ls| && Shrinking(ls, Stack(ls, n))
    ensures Exact(ls, n)
  {
    StackFacts(ls, n);
    var t := Stack(ls, n);
    forall m | m in t ensures Active(ls, m, n) { ShrinkingActive(ls, t, n, m); }
  }

  lemma PushShrinks(ls: Lines, s: seq<nat>, b: nat)
    requires AllOpen(ls, s) && Shrinking(ls, s) && Opens(ls, b) && Laminar(ls)
    requires forall m | m in s :: Active(ls, m, b)
    ensures Shrinking(ls, s + [b])
  {
    forall i | 0 <= i < |s| ensures LastLine(ls, b) <= LastLine(ls, s[i]) { assert s[i] in s; }
  }

  lemma ShrinkingActive(ls: Lines, t: seq<nat>, n: nat, m: nat)
    requires AllOpen(ls, t) && Shrinking(ls, t) && m in t && m < n <= |ls| && n <= EndLine(ls, t[|t| - 1])
    ensures Active(ls, m, n)
  {
    var i :| 0 <= i < |t| && t[i] == m;
    assert i < |t| - 1 ==> LastLine(ls, t[|t| - 1]) <= LastLine(ls, t[i]);
  }

  /** While b is unexpired nothing below it is popped. */
  lemma {:induction false} BelowStays(ls: Lines, b: nat, n: nat)
    requires Opens(ls, b) && b < n <= |ls| + 1 && n <= EndLine(ls, b)
    ensures Stack(ls, b) + [b] <= Stack(ls, n)
  {
    var base := Stack(ls, b) + [b];
    if n - 1 > b { BelowStays(ls, b, n - 1); }
    assert base <= Pushed(ls, n - 1);
    PopKeeps(ls, Pushed(ls, n - 1), base, n);
  }

  lemma {:induction false} PopKeeps(ls: Lines, stack: seq<nat>, base: seq<nat>, n: nat)
    requires AllOpen(ls, stack) && base != [] && base <= stack
    requires Opens(ls, base[|base| - 1]) && n <= EndLine(ls, base[|base| - 1])
    ensures base <= Pop(ls, stack, n)
  {
    if n > EndLine(ls, stack[|stack| - 1]) { PopKeeps(ls, stack[..|stack| - 1], base, n); }
  }

  /** The stack is exact on every scanned line precisely when the ranges are pairwise nested or disjoint there. */
  lemma ExactIff(ls: Lines)
    ensures (forall n: nat | n <= |ls| :: Exact(ls, n)) <==> Laminar(ls)
  {
    if Laminar(ls) {
      forall n: nat | n <= |ls| ensures Exact(ls, n) { LaminarShrinks(ls, n); }
    } else {
      var a: nat, b: nat :| Opens(ls, a) && Opens(ls, b) && a < b <= EndLine(ls, a)
          && LastLine(ls, a) < LastLine(ls, b);
      StackFacts(ls, b);
      assert Active(ls, a, b) && a in Stack(ls, b);
      var n: nat := EndLine(ls, a) + 1;
      BelowStays(ls, b, n);
      assert a in Stack(ls, n) && !Active(ls, a, n) by {
        var i :| 0 <= i < |Stack(ls, b)| && Stack(ls, b)[i] == a;
        assert Stack(ls, n)[i] == (Stack(ls, b) + [b])[i];
      }
      assert !Exact(ls, n);
    }
  }

  /** Qualified name of line n's function: its name under the innermost function around it, or under the module. */
  ghost function QN(ls: Lines, modulePath: string, sep: string, n: nat): string
    requires Opens(ls, n)
    decreases n, 1
  {
    Scope(ls, modulePath, sep, n) + sep + ls[n - 1].value.name
  }

  /** The qualified name that line n's declarations are placed under. */
  ghost function Scope(ls: Lines, modulePath: string, sep: string, n: nat): string
    decreases n, 0
  {
    if exists m: nat :: Innermost(ls, m, n) then
      var m: nat :| Innermost(ls, m, n);
      QN(ls, modulePath, sep, m)
    else modulePath
  }

  datatype FuncScope = FuncScope(qn: string, endLine: int)

  ghost function Frames(ls: Lines, modulePath: string, sep: string, stack: seq<nat>): seq<FuncScope>
    requires AllOpen(ls, stack)
  {
    seq(|stack|, i requires 0 <= i < |stack| => FuncScope(QN(ls, modulePath, sep, stack[i]), EndLine(ls, stack[i])))
  }

  lemma ScopeOf(ls: Lines, modulePath: string, sep: string, n: nat, m: nat)
    requires Innermost(ls, m, n)
    ensures Scope(ls, modulePath, sep, n) == QN(ls, modulePath, sep, m)
  {
    hide QN;
    assert forall k: nat | Innermost(ls, k, n) :: k == m;
  }

  lemma NoScope(ls: Lines, modulePath: string, sep: string, n: nat)
    requires forall m: nat :: !Active(ls, m, n)
    ensures Scope(ls, modulePath, sep, n) == modulePath
  {
  }

  lemma ScopeIsTop(ls: Lines, modulePath: string, sep: string, n: nat)
    requires n <= |ls| + 1
    ensures var s := Stack(ls, n);
            Scope(ls, modulePath, sep, n) == if s == [] then modulePath else QN(ls, modulePath, sep, s[|s| - 1])
  {
    hide Stack, Scope, QN, Innermost, Active;
    TopIsInnermost(ls, n);
    var s := Stack(ls, n);
    if s == [] { NoScope(ls, modulePath, sep, n); } else { ScopeOf(ls, modulePath, sep, n, s[|s| - 1]); }
  }

  /** The module, then the names of the functions on the stack, outermost first. */
  ghost function Spelled(ls: Lines, modulePath: string, sep: string, stack: seq<nat>): string
    requires AllOpen(ls, stack)
  {
    if stack == [] then modulePath
    else Spelled(ls, modulePath, sep, stack[..|stack| - 1]) + sep + ls[stack[|stack| - 1] - 1].value.name
  }

  /** What a line is placed under is spelled by the stack. */
  lemma {:induction false} ScopeSpelled(ls: Lines, modulePath: string, sep: string, n: nat)
    requires n <= |ls| + 1
    ensures Scope(ls, modulePath, sep, n) == Spelled(ls, modulePath, sep, Stack(ls, n))
    decreases n
  {
    hide Stack, Scope;
    ScopeIsTop(ls, modulePath, sep, n);
    var s := Stack(ls, n);
    if s != [] {
      var top := s[|s| - 1];
      StackFacts(ls, n);
      BelowStays(ls, top, n);
      StackFacts(ls, top);
      assert |Stack(ls, top)| == |s| - 1 by { LastOnce(s, Stack(ls, top), top); }
      assert s == Stack(ls, top) + [top];
      ScopeSpelled(ls, modulePath, sep, top);
    }
  }

  lemma LastOnce(s: seq<nat>, t: seq<nat>, top: nat)
    requires Ascending(s) && s != [] && s[|s| - 1] == top && t + [top] <= s
    ensures |t| == |s| - 1
  {
    assert s[|t|] == (t + [top])[|t|] == top;
  }

  /** What the scan has produced after the first i lines. */
  ghost predicate Scanned(ls: Lines, modulePath: string, sep: string, scopes: seq<string>,
                          names: seq<Option<string>>, i: nat) {
    && |scopes| == |names| == i
    && (forall n | 1 <= n <= i :: scopes[n - 1] == Scope(ls, modulePath, sep, n))
    && forall n | 1 <= n <= i :: names[n - 1] == NameOf(ls, modulePath, sep, n)
  }

  ghost function NameOf(ls: Lines, modulePath: string, sep: string, n: nat): Option<string> {
    if Opens(ls, n) then Some(QN(ls, modulePath, sep, n)) else None
  }

  lemma FramesPush(ls: Lines, modulePath: string, sep: string, stack: seq<nat>, n: nat)
    requires AllOpen(ls, stack) && Opens(ls, n)
    ensures Frames(ls, modulePath, sep, stack + [n])
            == Frames(ls, modulePath, sep, stack) + [FuncScope(QN(ls, modulePath, sep, n), EndLine(ls, n))]
  {
  }

  /** The scan: the scope every line's declarations get, and the name of every function. */
  method ScanLines(ls: Lines, modulePath: string, sep: string) returns (scopes: seq<string>, names: seq<Option<string>>)
    ensures Scanned(ls, modulePath, sep, scopes, names, |ls|)
  {
    hide Scope, Pop, Frames;
    scopes, names := [], [];
    var stack: seq<FuncScope> := [];
    assert stack == Frames(ls, modulePath, sep, []) by { NoFrames(ls, modulePath, sep); }
    for i := 0 to |ls|
      invariant stack == Frames(ls, modulePath, sep, Pushed(ls, i))
      invariant Scanned(ls, modulePath, sep, scopes, names, i)
    {
      stack := PopExpired(ls, modulePath, sep, stack, i + 1, Pushed(ls, i));
      var scope := TopScope(ls, modulePath, sep, stack, i + 1);
      scopes := scopes + [scope];
      match ls[i] {
        case None => names := names + [None];
        case Some(f) =>
          var qn := scope + sep + f.name;
          names := names + [Some(qn)];
          FramesPush(ls, modulePath, sep, Stack(ls, i + 1), i + 1);
          stack := stack + [FuncScope(qn, f.endLine)];
      }
    }
  }

  lemma NoFrames(ls: Lines, modulePath: string, sep: string)
    ensures Frames(ls, modulePath, sep, []) == []
  {
  }

  method TopScope(ghost ls: Lines, modulePath: string, ghost sep: string, stack: seq<FuncScope>, ghost n: nat)
    returns (scope: string)
    requires n <= |ls| + 1 && stack == Frames(ls, modulePath, sep, Stack(ls, n))
    ensures scope == Scope(ls, modulePath, sep, n)
  {
    ScopeIsTop(ls, modulePath, sep, n);
    scope := if |stack| > 0 then stack[|stack| - 1].qn else modulePath;
  }

  method PopExpired(ghost ls: Lines, ghost modulePath: string, ghost sep: string, frames: seq<FuncScope>, n: nat,
                    ghost stack: seq<nat>)
    returns (rest: seq<FuncScope>)
    requires AllOpen(ls, stack) && frames == Frames(ls, modulePath, sep, stack)
    ensures rest == Frames(ls, modulePath, sep, Pop(ls, stack, n))
  {
    rest := frames;
    ghost var left := stack;
    while |rest| > 0 && n > rest[|rest| - 1].endLine
      invariant AllOpen(ls, left) && rest == Frames(ls, modulePath, sep, left)
      invariant Pop(ls, left, n) == Pop(ls, stack, n)
      decreases |rest|
    {
      rest := rest[..|rest| - 1];
      left := left[..|left| - 1];
    }
  }
}
