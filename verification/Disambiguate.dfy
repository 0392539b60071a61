/** Making (qualified name, kind) pairs unique by line suffixes. */
module Disambiguate {
  import opened Decimal

  datatype Symbol = Symbol(qn: string, kind: string, startLine: int, payload: string)

  datatype Key = Key(qn: string, kind: string)

  function KeyOf(s: Symbol): Key { Key(s.qn, s.kind) }

  /** An earlier symbol has the same key. */
  predicate Repeats(ss: seq<Symbol>, i: nat)
    requires i < |ss|
  {
    exists j | 0 <= j < i :: KeyOf(ss[j]) == KeyOf(ss[i])
  }

  function Suffixed(s: Symbol): string {
    s.qn + "~" + Render(s.startLine)
  }

  /** The first occurrence keeps its name; later ones get their start line. */
  function Renamed(ss: seq<Symbol>, i: nat): Symbol
    requires i < |ss|
  {
    if Repeats(ss, i) then ss[i].(qn := Suffixed(ss[i])) else ss[i]
  }

  function Count(ss: seq<Symbol>, k: Key): nat {
    if ss == [] then 0 else Count(ss[..|ss| - 1], k) + if KeyOf(ss[|ss| - 1]) == k then 1 else 0
  }

  /** The name is borne by two symbols of one kind. */
  ghost predicate Duplicated(ss: seq<Symbol>, qn: string) {
    exists kind :: Count(ss, Key(qn, kind)) > 1
  }

  lemma {:induction false} CountPositive(ss: seq<Symbol>, k: Key)
    ensures Count(ss, k) > 0 <==> exists i :: 0 <= i < |ss| && KeyOf(ss[i]) == k
  {
    if ss != [] {
      var init := ss[..|ss| - 1];
      CountPositive(init, k);
      if i :| 0 <= i < |ss| && KeyOf(ss[i]) == k { assert i < |init| ==> init[i] == ss[i]; }
      if i :| 0 <= i < |init| && KeyOf(init[i]) == k { assert ss[i] == init[i]; }
    }
  }

  lemma {:induction false} CountMonotone(ss: seq<Symbol>, n: nat, k: Key)
    requires n <= |ss|
    ensures Count(ss[..n], k) <= Count(ss, k)
  {
    if n == |ss| { assert ss[..n] == ss; }
    else {
      CountMonotone(ss[..|ss| - 1], n, k);
      assert ss[..|ss| - 1][..n] == ss[..n];
    }
  }

  /** Symbol i repeats exactly when its key was already counted; the total is then more than one. */
  lemma RepeatsIsCounted(ss: seq<Symbol>, i: nat)
    requires i < |ss|
    ensures Repeats(ss, i) <==> Count(ss[..i], KeyOf(ss[i])) > 0
    ensures Repeats(ss, i) ==> Count(ss, KeyOf(ss[i])) > 1
  {
    var k := KeyOf(ss[i]);
    CountPositive(ss[..i], k);
    if j :| 0 <= j < i && KeyOf(ss[j]) == k { assert ss[..i][j] == ss[j]; }
    if j :| 0 <= j < |ss[..i]| && KeyOf(ss[..i][j]) == k { assert ss[..i][j] == ss[j]; }
    CountMonotone(ss, i + 1, k);
    assert ss[..i + 1][..i] == ss[..i];
  }

  class FileResult {
    var symbols: seq<Symbol>
    var qnCollisions: map<string, nat>

    method DisambiguateDuplicates()
      modifies this
      ensures |symbols| == |old(symbols)|
      ensures forall i | 0 <= i < |symbols| :: symbols[i] == Renamed(old(symbols), i)
      ensures (exists qn :: Duplicated(old(symbols), qn)) ==>
                && (forall qn :: qn in qnCollisions <==> Duplicated(old(symbols), qn))
                && (forall qn | qn in qnCollisions :: exists kind ::
                   qnCollisions[qn] == Count(old(symbols), Key(qn, kind)) > 1)
      ensures !(exists qn :: Duplicated(old(symbols), qn)) ==> qnCollisions == old(qnCollisions)
    {
      var ss := symbols;
      if |ss| <= 1 {
        forall qn, kind ensures Count(ss, Key(qn, kind)) <= 1 { AtMostLength(ss, Key(qn, kind)); }
        return;
      }
      var count := CountKeys(ss);
      var collisions := Collisions(ss, count);
      if |collisions| == 0 {
        forall i | 0 <= i < |ss| ensures !Repeats(ss, i) {
          RepeatsIsCounted(ss, i);
          if Repeats(ss, i) { assert Duplicated(ss, ss[i].qn); }
        }
        return;
      }
      symbols := RenameRepeats(ss, count);
      qnCollisions := collisions;
    }
  }

  lemma {:induction false} AtMostLength(ss: seq<Symbol>, k: Key)
    ensures Count(ss, k) <= |ss|
  {
    if ss != [] { AtMostLength(ss[..|ss| - 1], k); }
  }

  function At(m: map<Key, nat>, k: Key): nat {
    if k in m then m[k] else 0
  }

  method CountKeys(ss: seq<Symbol>) returns (count: map<Key, nat>)
    ensures forall k :: At(count, k) == Count(ss, k)
    ensures forall k :: k in count <==> Count(ss, k) > 0
  {
    count := map[];
    for i := 0 to |ss|
      invariant forall k :: At(count, k) == Count(ss[..i], k)
      invariant forall k :: k in count <==> Count(ss[..i], k) > 0
    {
      assert ss[..i + 1][..i] == ss[..i];
      var k := KeyOf(ss[i]);
      count := count[k := At(count, k) + 1];
    }
    assert ss[..|ss|] == ss;
  }

  method Collisions(ss: seq<Symbol>, count: map<Key, nat>) returns (collisions: map<string, nat>)
    requires forall k :: At(count, k) == Count(ss, k)
    ensures forall qn :: qn in collisions <==> Duplicated(ss, qn)
    ensures forall qn | qn in collisions :: exists kind :: collisions[qn] == Count(ss, Key(qn, kind)) > 1
  {
    collisions := map[];
    var rest := count.Keys;
    while rest != {}
      invariant rest <= count.Keys
      invariant forall k | k in count && k !in rest && count[k] > 1 :: k.qn in collisions
      invariant forall qn | qn in collisions :: exists kind :: collisions[qn] == Count(ss, Key(qn, kind)) > 1
      decreases rest
    {
      var k :| k in rest;
      rest := rest - {k};
      if count[k] > 1 {
        assert At(count, k) == Count(ss, Key(k.qn, k.kind));
        collisions := collisions[k.qn := count[k]];
      }
    }
    forall qn, kind | Count(ss, Key(qn, kind)) > 1 ensures qn in collisions {
      assert At(count, Key(qn, kind)) == Count(ss, Key(qn, kind));
    }
  }

  /** The keys that occur more than once are counted as far as the first i symbols. */
  ghost predicate SeenSoFar(ss: seq<Symbol>, i: nat, seen: map<Key, nat>)
    requires i <= |ss|
  {
    forall k | Count(ss, k) > 1 :: At(seen, k) == Count(ss[..i], k)
  }

  lemma SeenStep(ss: seq<Symbol>, i: nat, seen: map<Key, nat>)
    requires i < |ss| && SeenSoFar(ss, i, seen)
    ensures var k := KeyOf(ss[i]);
            if Count(ss, k) > 1 then
              && SeenSoFar(ss, i + 1, seen[k := At(seen, k) + 1])
              && (Repeats(ss, i) <==> At(seen, k) + 1 != 1)
            else SeenSoFar(ss, i + 1, seen) && !Repeats(ss, i)
  {
    hide Repeats;
    RepeatsIsCounted(ss, i);
    assert ss[..i + 1][..i] == ss[..i];
  }

  method RenameRepeats(ss: seq<Symbol>, count: map<Key, nat>) returns (out: seq<Symbol>)
    requires forall k :: At(count, k) == Count(ss, k)
    ensures |out| == |ss| && forall i | 0 <= i < |ss| :: out[i] == Renamed(ss, i)
  {
    out := ss;
    var seen: map<Key, nat> := map[];
    assert SeenSoFar(ss, 0, seen);
    hide SeenSoFar, Repeats, Count;
    for i := 0 to |ss|
      invariant |out| == |ss|
      invariant forall j | 0 <= j < i :: out[j] == Renamed(ss, j)
      invariant forall j | i <= j < |ss| :: out[j] == ss[j]
      invariant SeenSoFar(ss, i, seen)
    {
      var k := KeyOf(out[i]);
      SeenStep(ss, i, seen);
      assert At(count, k) == Count(ss, k);
      if At(count, k) > 1 {
        seen := seen[k := At(seen, k) + 1];
        if At(seen, k) != 1 {
          out := out[i := out[i].(qn := Suffixed(out[i]))];
        }
      }
    }
  }

  /** The keys after renaming are pairwise distinct. */
  ghost predicate KeysDistinct(ss: seq<Symbol>) {
    forall i, j | 0 <= i < j < |ss| :: KeyOf(Renamed(ss, i)) != KeyOf(Renamed(ss, j))
  }

  /** Repeats of one key start on different lines, and no kept name already looks like a suffixed one. */
  ghost predicate NoClash(ss: seq<Symbol>) {
    && (forall i, j | 0 <= i < j < |ss| && Repeats(ss, i) && Repeats(ss, j) && KeyOf(ss[i]) == KeyOf(ss[j]) ::
       ss[i].startLine != ss[j].startLine)
    && (forall i, j | 0 <= i < |ss| && 0 <= j < |ss| && Repeats(ss, i) && !Repeats(ss, j)
       && ss[i].kind == ss[j].kind :: ss[j].qn != Suffixed(ss[i]))
  }

  /** A suffixed name determines the name and the line. */
  lemma SuffixedInjective(s: Symbol, t: Symbol)
    requires Suffixed(s) == Suffixed(t)
    ensures s.qn == t.qn && s.startLine == t.startLine
  {
    if |s.qn| < |t.qn| { LongerName(s, t); }
    if |t.qn| < |s.qn| { LongerName(t, s); }
    var a, b := Suffixed(s), Suffixed(t);
    assert a[..|s.qn|] == s.qn && b[..|t.qn|] == t.qn;
    assert a[|s.qn| + 1..] == Render(s.startLine) && b[|t.qn| + 1..] == Render(t.startLine);
    RenderInjective(s.startLine, t.startLine);
  }

  lemma LongerName(s: Symbol, t: Symbol)
    requires |s.qn| < |t.qn|
    ensures Suffixed(s) != Suffixed(t)
  {
    var digits := Render(s.startLine);
    var p := |t.qn| - |s.qn| - 1;
    assert Suffixed(t)[|t.qn|] == '~';
    if |t.qn| < |Suffixed(s)| { assert Suffixed(s)[|t.qn|] == digits[p]; }
  }

  /** Renaming makes the keys distinct exactly when the input has no clash. */
  lemma DistinctIff(ss: seq<Symbol>)
    ensures KeysDistinct(ss) <==> NoClash(ss)
  {
    if NoClash(ss) {
      forall i, j | 0 <= i < j < |ss| ensures KeyOf(Renamed(ss, i)) != KeyOf(Renamed(ss, j)) {
        if Repeats(ss, i) && Repeats(ss, j) && Suffixed(ss[i]) == Suffixed(ss[j]) { SuffixedInjective(ss[i], ss[j]); }
      }
    }
    if KeysDistinct(ss) {
      forall i, j | 0 <= i < |ss| && 0 <= j < |ss| && Repeats(ss, i) && !Repeats(ss, j) && ss[i].kind == ss[j].kind
        ensures ss[j].qn != Suffixed(ss[i])
      {
        assert i != j;
        var a, b := if i < j then i else j, if i < j then j else i;
        assert KeyOf(Renamed(ss, a)) != KeyOf(Renamed(ss, b));
      }
      forall i, j | 0 <= i < j < |ss| && Repeats(ss, i) && Repeats(ss, j) && KeyOf(ss[i]) == KeyOf(ss[j])
        ensures ss[i].startLine != ss[j].startLine
      {
        assert KeyOf(Renamed(ss, i)) != KeyOf(Renamed(ss, j));
      }
    }
  }

  /** In particular: no `~` in the input, and equal keys on different lines. */
  lemma PlainNamesDistinct(ss: seq<Symbol>)
    requires forall i | 0 <= i < |ss| :: '~' !in ss[i].qn
    requires forall i, j | 0 <= i < j < |ss| && KeyOf(ss[i]) == KeyOf(ss[j]) :: ss[i].startLine != ss[j].startLine
    ensures KeysDistinct(ss)
  {
    forall i | 0 <= i < |ss| ensures '~' in Suffixed(ss[i]) { assert Suffixed(ss[i])[|ss[i].qn|] == '~'; }
    DistinctIff(ss);
  }
}
