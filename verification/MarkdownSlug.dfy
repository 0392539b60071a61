/** Heading titles as qualified-name segments. */
module MarkdownSlug {
  import opened Paths
  import opened SectionTree

  predicate Upper(c: char) { 'A' <= c <= 'Z' }

  predicate WordChar(c: char) { 'a' <= c <= 'z' || '0' <= c <= '9' }

  predicate Separator(c: char) { c in " \t-_." }

  /** What one byte of the title adds to the segment. */
  function Add(out: string, c: char): string {
    if Upper(c) then out + [(c as int + 32) as char]
    else if WordChar(c) then out + [c]
    else if Separator(c) && out != "" && out[|out| - 1] != '_' then out + "_"
    else out
  }

  function Build(title: string): string {
    if title == "" then "" else Add(Build(title[..|title| - 1]), title[|title| - 1])
  }

  function TrimTail(s: string): string {
    if |s| > 1 && s[|s| - 1] == '_' then TrimTail(s[..|s| - 1]) else s
  }

  function Slug(title: string): string {
    var out := Build(title);
    if out == "" then "_" else TrimTail(out)
  }

  /** Words of lower-case letters and digits, single underscores between them. */
  ghost predicate Tidy(s: string) {
    && (forall i | 0 <= i < |s| :: WordChar(s[i]) || s[i] == '_')
    && (s != "" ==> s[0] != '_')
    && (forall i | 1 <= i < |s| && s[i] == '_' :: s[i - 1] != '_')
  }

  ghost predicate IsSlug(s: string) {
    s == "_" || (s != "" && Tidy(s) && s[|s| - 1] != '_')
  }

  lemma {:induction false} BuildTidy(title: string)
    ensures Tidy(Build(title))
  {
    if title != "" { BuildTidy(title[..|title| - 1]); }
  }

  lemma {:induction false} BuildFixed(s: string)
    requires Tidy(s)
    ensures Build(s) == s
  {
    if s != "" {
      var init := s[..|s| - 1];
      BuildFixed(init);
      assert s == init + [s[|s| - 1]];
    }
  }

  /** Exactly the tidy segments are left alone, so the slug is always one and taking it twice changes nothing. */
  lemma SlugIff(s: string)
    ensures IsSlug(Slug(s))
    ensures Slug(s) == s <==> IsSlug(s)
    ensures Slug(Slug(s)) == Slug(s) && '.' !in Slug(s)
  {
    SlugShape(s);
    SlugFixed(Slug(s));
    if IsSlug(s) { SlugFixed(s); }
  }

  lemma SlugShape(title: string)
    ensures IsSlug(Slug(title))
  {
    BuildTidy(title);
    var out := Build(title);
    if |out| > 1 && out[|out| - 1] == '_' {
      assert TrimTail(out[..|out| - 1]) == out[..|out| - 1];
    }
  }

  lemma SlugFixed(s: string)
    requires IsSlug(s)
    ensures Slug(s) == s
  {
    if s == "_" {
      assert s[..0] == "";
      assert Build(s) == Add("", '_') == "";
    } else {
      BuildFixed(s);
    }
  }

  /** ASCII letters and digits make up words. */
  predicate InWord(c: char) { 'a' <= c <= 'z' || 'A' <= c <= 'Z' || '0' <= c <= '9' }

  predicate Parts(c: char) { c == ' ' || c == '\t' || c == '-' || c == '_' || c == '.' }

  function LowerOf(c: char): char {
    if 'A' <= c <= 'Z' then (c as int - 'A' as int + 'a' as int) as char else c
  }

  /** The characters of the text come from ascending positions of the title below n. */
  ghost predicate From(title: string, n: nat, text: string, at: seq<nat>) {
    && |at| == |text| && n <= |title|
    && (forall k | 0 <= k < |at| :: at[k] < n)
    && (forall k, m | 0 <= k < m < |at| :: at[k] < at[m])
    && (forall k | 0 <= k < |at| ::
        if text[k] == '_' then Parts(title[at[k]])
        else InWord(title[at[k]]) && text[k] == LowerOf(title[at[k]]))
  }

  /** Every letter and digit below n is used. */
  ghost predicate UsesAll(title: string, n: nat, text: string, at: seq<nat>)
    requires From(title, n, text, at)
  {
    forall i | 0 <= i < n && InWord(title[i]) :: i in at
  }

  /** Underscores stand behind a letter or digit; where none stands, no character of the title parts the words. */
  ghost predicate PartsWords(title: string, n: nat, text: string, at: seq<nat>)
    requires From(title, n, text, at)
  {
    && (forall k | 0 <= k < |at| && text[k] == '_' :: 0 < k && text[k - 1] != '_')
    && (forall k, i | 0 < k < |at| && text[k - 1] != '_' && text[k] != '_' && at[k - 1] < i < at[k] :: !Parts(title[i]))
  }

  /** Nor behind the last letter or digit. */
  ghost predicate EndsInWord(title: string, n: nat, text: string, at: seq<nat>)
    requires From(title, n, text, at)
  {
    text != "" && text[|text| - 1] != '_' ==> forall i | at[|at| - 1] < i < n :: !Parts(title[i])
  }

  /**
   * The text is the title's letters and digits in lower case, with an underscore between two of them exactly if a
   * separating character stands between them.
   */
  ghost predicate Spells(title: string, n: nat, text: string, at: seq<nat>) {
    From(title, n, text, at) && UsesAll(title, n, text, at) && PartsWords(title, n, text, at)
  }

  lemma BuildStep(title: string, n: nat)
    requires 0 < n <= |title|
    ensures Build(title[..n]) == Add(Build(title[..n - 1]), title[n - 1])
  {
    assert title[..n][..n - 1] == title[..n - 1];
    hide Add;
  }

  lemma NothingSpelled(title: string)
    ensures Spells(title, 0, Build(title[..0]), []) && EndsInWord(title, 0, Build(title[..0]), [])
  {
  }

  lemma {:induction false} BuildSpells(title: string, n: nat) returns (at: seq<nat>)
    requires n <= |title|
    ensures Spells(title, n, Build(title[..n]), at) && EndsInWord(title, n, Build(title[..n]), at)
  {
    hide *;
    at := [];
    if n == 0 {
      NothingSpelled(title);
    } else {
      at := BuildSpells(title, n - 1);
      BuildStep(title, n);
      var text := Build(title[..n - 1]);
      if Add(text, title[n - 1]) == text {
        Passed(title, n - 1, text, at);
      } else {
        Added(title, n - 1, text, at);
        at := at + [n - 1];
      }
    }
  }

  /** A character that adds nothing is no letter and parts no words. */
  lemma Passed(title: string, n: nat, text: string, at: seq<nat>)
    requires n < |title| && Spells(title, n, text, at) && EndsInWord(title, n, text, at) && Add(text, title[n]) == text
    ensures Spells(title, n + 1, text, at) && EndsInWord(title, n + 1, text, at)
  {
  }

  lemma Added(title: string, n: nat, text: string, at: seq<nat>)
    requires n < |title| && Spells(title, n, text, at) && EndsInWord(title, n, text, at)
    requires Add(text, title[n]) != text
    ensures var more := Add(text, title[n]);
            Spells(title, n + 1, more, at + [n]) && EndsInWord(title, n + 1, more, at + [n])
  {
    var more, c := Add(text, title[n]), title[n];
    var d := more[|text|];
    assert more == text + [d] && (if d == '_' then Parts(c) && text != "" && text[|text| - 1] != '_'
                                  else InWord(c) && d == LowerOf(c));
    hide Add, Parts, InWord, LowerOf;
    AddedFrom(title, n, text, at, d);
    AddedParts(title, n, text, at, d);
    assert forall i :: i in at + [n] <==> i in at || i == n;
  }

  lemma AddedFrom(title: string, n: nat, text: string, at: seq<nat>, d: char)
    requires n < |title| && From(title, n, text, at)
    requires if d == '_' then Parts(title[n]) else InWord(title[n]) && d == LowerOf(title[n])
    ensures From(title, n + 1, text + [d], at + [n])
  {
  }

  lemma AddedParts(title: string, n: nat, text: string, at: seq<nat>, d: char)
    requires n < |title| && From(title, n, text, at) && From(title, n + 1, text + [d], at + [n])
    requires PartsWords(title, n, text, at) && EndsInWord(title, n, text, at)
    requires d == '_' ==> text != "" && text[|text| - 1] != '_'
    ensures PartsWords(title, n + 1, text + [d], at + [n]) && EndsInWord(title, n + 1, text + [d], at + [n])
  {
    hide From, Parts;
    assert |at| == |text| by { SameLength(title, n, text, at); }
  }

  lemma SameLength(title: string, n: nat, text: string, at: seq<nat>)
    requires From(title, n, text, at)
    ensures |at| == |text|
  {
  }

  lemma CutSpells(title: string, text: string, at: seq<nat>, m: nat)
    requires Spells(title, |title|, text, at) && text != "" && m == |text| - 1 && text[m] == '_'
    ensures |at| == |text| && Spells(title, |title|, text[..m], at[..m]) && m > 0 && text[m - 1] != '_'
  {
    assert at == at[..m] + [at[m]];
    assert !InWord(title[at[m]]);
    hide InWord, Parts, LowerOf;
    forall i | i in at && InWord(title[i]) ensures i in at[..m] { assert i != at[m]; }
  }

  /**
   * The slug of a title without letters and digits is `_`. Any other is its letters and digits in lower case, with an
   * underscore between two of them exactly if a blank, tab, hyphen, underscore or dot stands between them.
   */
  lemma SlugSpells(title: string) returns (at: seq<nat>)
    ensures if forall i | 0 <= i < |title| :: !InWord(title[i]) then Slug(title) == "_"
            else Spells(title, |title|, Slug(title), at) && Slug(title)[|Slug(title)| - 1] != '_'
  {
    hide *;
    var out := Build(title);
    at := BuildSpells(title, |title|);
    assert title[..|title|] == title;
    Nothing(title, out, at);
    if out != "" && out[|out| - 1] == '_' {
      var m := |out| - 1;
      CutSpells(title, out, at, m);
      TrimmedOnce(title, m);
      at := at[..m];
    } else {
      NotTrimmed(title);
    }
  }

  lemma TrimmedOnce(title: string, m: nat)
    requires 0 < m && m + 1 == |Build(title)| && Build(title)[m - 1] != '_' && Build(title)[m] == '_'
    ensures Slug(title) == Build(title)[..m]
  {
    assert TrimTail(Build(title)[..m]) == Build(title)[..m];
  }

  lemma NotTrimmed(title: string)
    requires Build(title) != "" ==> Build(title)[|Build(title)| - 1] != '_'
    ensures Slug(title) == if Build(title) == "" then "_" else Build(title)
  {
  }

  lemma Nothing(title: string, out: string, at: seq<nat>)
    requires Spells(title, |title|, out, at)
    ensures |at| == |out|
    ensures out == "" <==> forall i | 0 <= i < |title| :: !InWord(title[i])
  {
    if out != "" { assert out[0] != '_' && InWord(title[at[0]]); }
  }

  method MarkdownSlug(title: string) returns (slug: string)
    ensures slug == Slug(title)
  {
    var out := "";
    var prev := '\0';
    for i := 0 to |title|
      invariant out == Build(title[..i])
      invariant prev == if out == "" then '\0' else out[|out| - 1]
    {
      assert title[..i + 1][..i] == title[..i];
      var c := title[i];
      if 'A' <= c <= 'Z' {
        prev := (c as int + 32) as char;
        out := out + [prev];
      } else if 'a' <= c <= 'z' || '0' <= c <= '9' {
        out := out + [c];
        prev := c;
      } else if c in " \t-_." {
        if prev != '_' && |out| > 0 {
          out := out + "_";
          prev := '_';
        }
      }
    }
    assert title[..|title|] == title;
    if |out| == 0 { return "_"; }
    slug := out;
    while |slug| > 1 && slug[|slug| - 1] == '_'
      invariant TrimTail(slug) == TrimTail(out)
    {
      slug := slug[..|slug| - 1];
    }
  }

  /**
   * With slugs for names, two sections share a qualified name only if the slugs on their paths are the same, one by
   * one.
   */
  lemma SectionNamesArePaths(hs: seq<Heading>, titles: seq<string>, j: nat, k: nat)
    requires |titles| == |hs| && forall i | 0 <= i < |hs| :: hs[i].slug == Slug(titles[i])
    requires j < |hs| && k < |hs|
    ensures Name(hs, j) == Name(hs, k) <==> Slugs(hs, Path(hs, j)) == Slugs(hs, Path(hs, k))
  {
    var a, b := Slugs(hs, Path(hs, j)), Slugs(hs, Path(hs, k));
    forall i | 0 <= i < |hs| ensures '.' !in hs[i].slug { SlugIff(titles[i]); }
    assert Encloses(hs, j, j) && Encloses(hs, k, k);
    if Name(hs, j) == Name(hs, k) { JoinInjective(a, b); }
  }
}
