/**
 * Locating HTML headings in the source: the parser gives levels and titles but no offsets, so that each heading is
 * searched for behind the one before it.
 */
module HtmlHeadings {
  import opened SectionTree

  function Lower(c: char): char {
    if 'A' <= c <= 'Z' then (c as int + 32) as char else c
  }

  /** `needle` occurs at i, ASCII case ignored. */
  predicate MatchesAt(hay: string, needle: string, i: nat) {
    i + |needle| <= |hay| && forall j | 0 <= j < |needle| :: Lower(hay[i + j]) == Lower(needle[j])
  }

  /** `bytesIndexFold`: the least occurrence, or -1. */
  method IndexFold(hay: string, needle: string) returns (r: int)
    ensures r >= 0 ==> MatchesAt(hay, needle, r)
    ensures -1 <= r
    ensures forall i: nat | (r < 0 || i < r) && i <= |hay| :: !MatchesAt(hay, needle, i)
  {
    if |needle| == 0 { return 0; }
    if |needle| > |hay| { return -1; }
    var last := |hay| - |needle|;
    var i := 0;
    while i <= last
      invariant 0 <= i <= last + 1
      invariant forall k: nat | k < i :: !MatchesAt(hay, needle, k)
    {
      var match' := true;
      var j := 0;
      while j < |needle|
        invariant 0 <= j <= |needle|
        invariant match' && forall k | 0 <= k < j :: Lower(hay[i + k]) == Lower(needle[k])
      {
        if Lower(hay[i + j]) != Lower(needle[j]) {
          match' := false;
          break;
        }
        j := j + 1;
      }
      if match' { return i; }
      i := i + 1;
    }
    return -1;
  }

  const WINDOW: nat := 4096

  function TagPrefix(level: nat): string
    requires 1 <= level <= 6
  {
    "<h" + [('0' as int + level) as char]
  }

  function WindowEnd(source: string, p: nat): nat {
    if p + WINDOW > |source| then |source| else p + WINDOW
  }

  /** A tag of this level opens at p and the title occurs inside its window. */
  ghost predicate HeadingAt(source: string, level: nat, title: string, p: nat)
    requires 1 <= level <= 6
  {
    && MatchesAt(source, TagPrefix(level), p)
    && exists q: nat :: p <= q && q + |title| <= WindowEnd(source, p) && MatchesAt(source, title, q)
  }

  lemma MatchesInSlice(source: string, lo: nat, hi: nat, needle: string, i: nat)
    requires lo <= hi <= |source|
    ensures MatchesAt(source[lo..hi], needle, i) <==> lo + i + |needle| <= hi && MatchesAt(source, needle, lo + i)
  {
    var slice := source[lo..hi];
    if lo + i + |needle| <= hi {
      if MatchesAt(slice, needle, i) {
        forall j | 0 <= j < |needle| ensures Lower(source[lo + i + j]) == Lower(needle[j]) {
          MatchesElement(slice, needle, i, j);
        }
      }
      if MatchesAt(source, needle, lo + i) {
        forall j | 0 <= j < |needle| ensures Lower(slice[i + j]) == Lower(needle[j]) {
          MatchesElement(source, needle, lo + i, j);
        }
      }
    }
  }

  lemma MatchesElement(hay: string, needle: string, i: nat, j: nat)
    requires MatchesAt(hay, needle, i) && j < |needle|
    ensures Lower(hay[i + j]) == Lower(needle[j])
  {
  }

  /** Tags do not overlap: right after a tag prefix opens, no other can. */
  lemma PrefixesDoNotOverlap(source: string, level: nat, p: nat, k: nat)
    requires 1 <= level <= 6 && MatchesAt(source, TagPrefix(level), p) && p < k < p + 3
    ensures !MatchesAt(source, TagPrefix(level), k)
  {
    var t := TagPrefix(level);
    MatchesElement(source, t, p, k - p);
    assert Lower(source[k + 0]) != Lower(t[0]);
  }

  /** The least position from `start` on with a heading of this level and title, or -1. */
  ghost function FirstHeading(source: string, level: nat, title: string, start: nat): (r: int)
    requires 1 <= level <= 6
    ensures r == -1 || (start <= r < |source| && HeadingAt(source, level, title, r))
    ensures forall p: nat | start <= p && (r < 0 || p < r) :: !HeadingAt(source, level, title, p)
    decreases |source| - start
  {
    if start >= |source| then -1
    else if HeadingAt(source, level, title, start) then start
    else FirstHeading(source, level, title, start + 1)
  }

  /** `bytesFindHeadingAfter` */
  method FindHeadingAfter(source: string, level: nat, title: string, start: nat) returns (r: int)
    requires 1 <= level <= 6
    ensures r == FirstHeading(source, level, title, start)
  {
    if start >= |source| { return -1; }
    var off := start;
    while true
      invariant start <= off < |source|
      invariant forall p: nat | start <= p < off :: !HeadingAt(source, level, title, p)
      decreases |source| - off
    {
      var idx := IndexFold(source[off..|source|], TagPrefix(level));
      forall p: nat | off <= p && (idx < 0 || p < off + idx) ensures !HeadingAt(source, level, title, p) {
        if p <= |source| { MatchesInSlice(source, off, |source|, TagPrefix(level), p - off); }
      }
      if idx < 0 { return -1; }
      MatchesInSlice(source, off, |source|, TagPrefix(level), idx);
      var tagStart := off + idx;
      var windowEnd := WindowEnd(source, tagStart);
      var t := IndexFold(source[tagStart..windowEnd], title);
      if t >= 0 {
        MatchesInSlice(source, tagStart, windowEnd, title, t);
        assert HeadingAt(source, level, title, tagStart) by { assert MatchesAt(source, title, tagStart + t); }
        return tagStart;
      }
      assert !HeadingAt(source, level, title, tagStart) by {
        forall q: nat | tagStart <= q && q + |title| <= windowEnd ensures !MatchesAt(source, title, q) {
          MatchesInSlice(source, tagStart, windowEnd, title, q - tagStart);
        }
      }
      forall p: nat | tagStart < p < tagStart + 3 ensures !HeadingAt(source, level, title, p) {
        PrefixesDoNotOverlap(source, level, tagStart, p);
      }
      off := tagStart + |TagPrefix(level)|;
      if off >= |source| { return -1; }
    }
  }

  /** A heading element met by the document walk: level, inner text and its slug. */
  datatype Element = Element(level: nat, title: string, slug: string)

  /** `searchFrom`: one past the last heading located. */
  function Cursor(hs: seq<Heading>): nat {
    if hs == [] then 0 else hs[|hs| - 1].start + 1
  }

  /**
   * Each element is located at its first match behind the ones before it; elements that cannot be located are
   * skipped.
   */
  ghost function Located(source: string, elements: seq<Element>): seq<Heading>
    requires forall e | e in elements :: 1 <= e.level <= 6
  {
    if elements == [] then []
    else
      var e := elements[|elements| - 1];
      var hs := Located(source, elements[..|elements| - 1]);
      var p := FirstHeading(source, e.level, e.title, Cursor(hs));
      if e.title == "" || p < 0 then hs else hs + [Heading(e.level, e.slug, p)]
  }

  /** The cursor alone makes the starts strictly increase, whatever the document holds. */
  lemma {:induction false} LocatedWellPlaced(source: string, elements: seq<Element>)
    requires forall e | e in elements :: 1 <= e.level <= 6
    ensures WellPlaced(source, Located(source, elements))
  {
    if elements != [] {
      var e := elements[|elements| - 1];
      var hs := Located(source, elements[..|elements| - 1]);
      LocatedWellPlaced(source, elements[..|elements| - 1]);
      var p := FirstHeading(source, e.level, e.title, Cursor(hs));
      if p >= 0 {
        StartsWithAngle(source, e.level, p);
        BehindCursor(source, hs, Heading(e.level, e.slug, p));
      }
    }
  }

  lemma BehindCursor(source: string, hs: seq<Heading>, h: Heading)
    requires WellPlaced(source, hs) && Cursor(hs) <= h.start < |source| && !IsNewline(source[h.start])
    ensures WellPlaced(source, hs + [h])
  {
  }

  /** Every located heading comes from an element whose tag and title are found there. */
  lemma {:induction false} LocatedIsFound(source: string, elements: seq<Element>, h: Heading)
    requires forall e | e in elements :: 1 <= e.level <= 6
    requires h in Located(source, elements)
    ensures exists e ::
             e in elements && e.level == h.level && e.slug == h.slug && e.title != ""
             && HeadingAt(source, e.level, e.title, h.start)
  {
    hide HeadingAt;
    if elements != [] {
      var init := elements[..|elements| - 1];
      if h in Located(source, init) {
        LocatedIsFound(source, init, h);
        assert forall x | x in init :: x in elements;
      } else {
        assert elements[|elements| - 1] in elements;
      }
    }
  }

  /** The walk with its `searchFrom` cursor. */
  method LocateHeadings(source: string, elements: seq<Element>) returns (hs: seq<Heading>)
    requires forall e | e in elements :: 1 <= e.level <= 6
    ensures hs == Located(source, elements)
  {
    hs := [];
    var searchFrom := 0;
    for i := 0 to |elements|
      invariant hs == Located(source, elements[..i]) && searchFrom == Cursor(hs)
    {
      assert elements[..i + 1][..i] == elements[..i];
      var e := elements[i];
      if e.title != "" {
        var off := FindHeadingAfter(source, e.level, e.title, searchFrom);
        if off >= 0 {
          if off >= searchFrom { searchFrom := off + 1; }
          hs := hs + [Heading(e.level, e.slug, off)];
        }
      }
    }
    assert elements[..|elements|] == elements;
  }

  lemma StartsWithAngle(source: string, level: nat, p: nat)
    requires 1 <= level <= 6 && MatchesAt(source, TagPrefix(level), p)
    ensures source[p] == '<'
  {
    MatchesElement(source, TagPrefix(level), p, 0);
  }

  /** For every document the emitted ranges form a tree: no hypothesis on the heading offsets is needed. */
  method HtmlSections(source: string, elements: seq<Element>) returns (sections: seq<Section>)
    requires forall e | e in elements :: 1 <= e.level <= 6
    ensures var hs := Located(source, elements);
            && WellPlaced(source, hs) && |sections| == |hs|
            && (forall i | 0 <= i < |hs| :: sections[i] == Section(Name(hs, i), hs[i].start, End(source, hs, i)))
            && (forall i | 0 <= i < |hs| :: sections[i].start < sections[i].end <= |source|)
            && forall i, j | 0 <= i < j < |hs| ::
                 if Encloses(hs, i, j) then sections[i].start < sections[j].start && sections[j].end <= sections[i].end
                 else sections[i].end <= sections[j].start
  {
    hide Located, WellPlaced;
    LocatedWellPlaced(source, elements);
    var hs := LocateHeadings(source, elements);
    sections := BuildSections(source, hs);
    hide End, Name, Encloses;
    forall i | 0 <= i < |hs| ensures sections[i].start < sections[i].end <= |source| {
      RangeNonEmpty(source, hs, i);
    }
    forall i, j | 0 <= i < j < |hs|
      ensures if Encloses(hs, i, j) then hs[i].start < hs[j].start && sections[j].end <= sections[i].end
              else sections[i].end <= hs[j].start
    {
      RangesFormTree(source, hs, i, j);
    }
  }

  /** Two characters are the same letter in upper or lower case, or equal. */
  predicate SameLetter(a: char, b: char) {
    a == b || ('A' <= a <= 'Z' && b as int == a as int + 32) || ('A' <= b <= 'Z' && a as int == b as int + 32)
  }

  /** The title stands at q, in upper or lower case. */
  ghost predicate Reads(source: string, title: string, q: nat) {
    q + |title| <= |source| && forall j | 0 <= j < |title| :: SameLetter(source[q + j], title[j])
  }

  lemma LowerIff(a: char, b: char)
    ensures Lower(a) == Lower(b) <==> SameLetter(a, b)
  {
  }

  /** What is looked for: `<h` and the level, in either case, and the title within 4096 bytes from there. */
  lemma HeadingAtIff(source: string, level: nat, title: string, p: nat)
    requires 1 <= level <= 6
    ensures HeadingAt(source, level, title, p)
            <==>
            && p + 3 <= |source| && source[p] == '<' && (source[p + 1] == 'h' || source[p + 1] == 'H')
            && source[p + 2] as int == '0' as int + level
            && exists q: nat :: p <= q && q + |title| <= p + 4096 && Reads(source, title, q)
  {
    var t := TagPrefix(level);
    assert t[0] == '<' && t[1] == 'h' && t[2] as int == '0' as int + level && |t| == 3;
    if MatchesAt(source, t, p) {
      MatchesElement(source, t, p, 0);
      MatchesElement(source, t, p, 1);
      MatchesElement(source, t, p, 2);
    }
    forall q: nat | q + |title| <= |source| ensures MatchesAt(source, title, q) <==> Reads(source, title, q) {
      forall j | 0 <= j < |title|
        ensures Lower(source[q + j]) == Lower(title[j]) <==> SameLetter(source[q + j], title[j]) {
        LowerIff(source[q + j], title[j]);
      }
    }
  }

  /** p is the first place behind the headings located so far where the element's tag and title are found. */
  ghost predicate FirstBehind(source: string, hs: seq<Heading>, e: Element, p: nat)
    requires 1 <= e.level <= 6
  {
    && (hs != [] ==> hs[|hs| - 1].start < p) && HeadingAt(source, e.level, e.title, p)
    && forall q: nat | (hs != [] ==> hs[|hs| - 1].start < q) && q < p :: !HeadingAt(source, e.level, e.title, q)
  }

  /** The next element is located at the first such place, and passed over if there is none or it has no title. */
  lemma LocatedNext(source: string, elements: seq<Element>, e: Element)
    requires forall x | x in elements + [e] :: 1 <= x.level <= 6
    requires e in elements + [e]
    ensures forall x | x in elements :: x in elements + [e]
    ensures var hs, more := Located(source, elements), Located(source, elements + [e]);
            if e.title != "" && exists p: nat :: FirstBehind(source, hs, e, p)
            then |more| == |hs| + 1 && more[..|hs|] == hs
                 && FirstBehind(source, hs, e, more[|hs|].start)
                 && more[|hs|] == Heading(e.level, e.slug, more[|hs|].start)
            else more == hs
  {
    hide HeadingAt;
    assert (elements + [e])[..|elements|] == elements;
    var hs := Located(source, elements);
    var r := FirstHeading(source, e.level, e.title, Cursor(hs));
    if r >= 0 { assert FirstBehind(source, hs, e, r); }
  }
}
