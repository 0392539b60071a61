/** Qualified names: path segments joined by dots. */
module Paths {

  /** Segments joined by dots. */
  function Join(path: seq<string>): string {
    if path == [] then "" else if |path| == 1 then path[0] else path[0] + "." + Join(path[1..])
  }

  ghost predicate DotFree(path: seq<string>) {
    forall s | s in path :: '.' !in s
  }

  /** Dot-free segments can be read back from the joined name. */
  lemma {:induction false} JoinInjective(p: seq<string>, q: seq<string>)
    requires p != [] && q != [] && DotFree(p) && DotFree(q) && Join(p) == Join(q)
    ensures p == q
  {
    JoinHead(p);
    JoinHead(q);
    var a, b := |p[0]|, |q[0]|;
    assert a == b;
    assert p[0] == Join(p)[..a] && q[0] == Join(q)[..b];
    if |p| > 1 && |q| > 1 {
      assert Join(p[1..]) == Join(p)[a + 1..] && Join(q[1..]) == Join(q)[b + 1..];
      JoinInjective(p[1..], q[1..]);
      assert p == [p[0]] + p[1..] && q == [q[0]] + q[1..];
    }
  }

  lemma JoinHead(p: seq<string>)
    requires p != [] && DotFree(p)
    ensures p[0] <= Join(p) && forall k | 0 <= k < |p[0]| :: Join(p)[k] != '.'
    ensures if |p| == 1 then |Join(p)| == |p[0]| else |Join(p)| > |p[0]| && Join(p)[|p[0]|] == '.'
  {
    assert p[0] in p;
  }

  /** The pieces of a name between its dots. */
  function Pieces(s: string): (ps: seq<string>)
    ensures |ps| > 0
  {
    if s == "" then [""] else Prepend(s[0], Pieces(s[1..]))
  }

  /** Pieces with one more character in front. */
  function Prepend(c: char, ps: seq<string>): (r: seq<string>)
    requires |ps| > 0
    ensures |r| > 0
  {
    if c == '.' then [""] + ps else [[c] + ps[0]] + ps[1..]
  }

  lemma JoinCons(p: string, ps: seq<string>)
    requires |ps| > 0
    ensures Join([p] + ps) == p + ("." + Join(ps))
  {
    assert ([p] + ps)[1..] == ps;
    Moved(p, ".", Join(ps));
  }

  lemma JoinGrown(c: char, a: string, more: seq<string>)
    ensures Join([[c] + a] + more) == [c] + Join([a] + more)
  {
    hide Join;
    if more == [] {
      JoinOne([c] + a);
      JoinOne(a);
      assert [[c] + a] + more == [[c] + a] && [a] + more == [a];
    } else {
      JoinCons([c] + a, more);
      JoinCons(a, more);
      Moved([c], a, "." + Join(more));
    }
  }

  lemma Moved(c: string, a: string, b: string)
    ensures (c + a) + b == c + (a + b)
  {
  }

  lemma {:induction false} PiecesJoin(s: string)
    ensures Join(Pieces(s)) == s
  {
    hide Join;
    if s == "" {
      JoinOne("");
    } else {
      PiecesJoin(s[1..]);
      if s[0] == '.' { JoinCons("", Pieces(s[1..])); } else { PiecesGrown(s); }
      assert s == [s[0]] + s[1..];
    }
  }

  lemma PiecesGrown(s: string)
    requires s != "" && s[0] != '.'
    ensures Join(Pieces(s)) == [s[0]] + Join(Pieces(s[1..]))
  {
    hide Join;
    var ps := Pieces(s[1..]);
    JoinGrown(s[0], ps[0], ps[1..]);
    assert [ps[0]] + ps[1..] == ps;
  }

  lemma JoinOne(p: string)
    ensures Join([p]) == p
  {
  }

  lemma {:induction false} PiecesDotFree(s: string)
    ensures DotFree(Pieces(s)) && ('.' in s <==> |Pieces(s)| > 1)
  {
    if s != "" {
      var ps := Pieces(s[1..]);
      PiecesDotFree(s[1..]);
      assert s == [s[0]] + s[1..];
      assert ps[0] in ps && forall p | p in ps[1..] :: p in ps;
    }
  }

  /** A dot between two texts separates their pieces. */
  lemma {:induction false} PiecesApart(a: string, t: string)
    ensures Pieces(a + "." + t) == Pieces(a) + Pieces(t)
  {
    PiecesStep(a, t);
    if a != "" {
      PiecesApart(a[1..], t);
      Prepended(a[0], Pieces(a[1..]), Pieces(t));
    }
  }

  lemma Prepended(c: char, ps: seq<string>, qs: seq<string>)
    requires |ps| > 0
    ensures Prepend(c, ps + qs) == Prepend(c, ps) + qs
  {
    assert (ps + qs)[1..] == ps[1..] + qs;
  }

  lemma PiecesStep(a: string, t: string)
    ensures a == "" ==> Pieces(a) == [""] && Pieces(a + "." + t) == [""] + Pieces(t)
    ensures a != "" ==>
              && Pieces(a) == Prepend(a[0], Pieces(a[1..]))
              && Pieces(a + "." + t) == Prepend(a[0], Pieces(a[1..] + "." + t))
  {
    var s := a + "." + t;
    assert s[1..] == if a == "" then t else a[1..] + "." + t;
  }

  lemma {:induction false} OnePiece(s: string)
    requires '.' !in s
    ensures Pieces(s) == [s]
  {
    if s != "" {
      OnePiece(s[1..]);
      assert s == [s[0]] + s[1..];
    }
  }
}
