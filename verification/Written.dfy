/** Text written into a source: where it stands, and what follows it. */
module Written {

  /** At p the text is followed by the rest of the source. */
  ghost predicate Stands(source: string, p: nat, text: string, rest: string) {
    p + |text| <= |source| && source[p..p + |text|] == text && source[p + |text|..] == rest
  }

  lemma StandsSplit(source: string, p: nat, a: string, b: string, rest: string)
    requires Stands(source, p, a + b, rest)
    ensures Stands(source, p, a, b + rest) && Stands(source, p + |a|, b, rest)
  {
    assert source[p..p + |a|] == (a + b)[..|a|];
    assert source[p + |a|..p + |a| + |b|] == (a + b)[|a|..];
    assert source[p + |a|..] == source[p + |a|..p + |a| + |b|] + source[p + |a| + |b|..];
  }

  lemma StandsAt(source: string, p: nat, text: string, rest: string, k: nat)
    requires Stands(source, p, text, rest) && k < |text|
    ensures source[p + k] == text[k]
    ensures p + |text| < |source| <==> rest != ""
    ensures rest != "" ==> source[p + |text|] == rest[0]
  {
    assert source[p..p + |text|][k] == source[p + k];
  }

  /** The byte behind a stretch of text. */
  lemma NextByte(source: string, p: nat, text: string, rest: string, c: char)
    requires Stands(source, p, text, rest)
    ensures p + |text| < |source| && source[p + |text|] == c <==> rest != "" && rest[0] == c
  {
    assert rest != "" ==> source[p + |text|..][0] == source[p + |text|];
  }

  /** Text between two single bytes. */
  lemma StandsBetween(source: string, p: nat, a: char, text: string, b: char, rest: string)
    requires Stands(source, p, [a] + (text + [b]), rest)
    ensures p + |text| + 2 <= |source| && source[p] == a && source[p + 1 + |text|] == b
    ensures Stands(source, p + 1, text, [b] + rest)
  {
    StandsAt(source, p, [a] + (text + [b]), rest, 0);
    StandsAt(source, p, [a] + (text + [b]), rest, |text| + 1);
    StandsSplit(source, p, [a], text + [b], rest);
    StandsSplit(source, p + 1, text, [b], rest);
  }

  lemma StandsInside(source: string, p: nat, text: string, rest: string)
    requires Stands(source, p, text, rest)
    ensures p + |text| <= |source|
  {
  }
}
