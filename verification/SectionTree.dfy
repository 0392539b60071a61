/** Heading streams turned into sections: byte ranges by forward scan, names by a stack. */
module SectionTree {
  import opened Paths

  /** A heading: outline level, slug, and the byte where its section starts. */
  datatype Heading = Heading(level: int, slug: string, start: nat)

  datatype Section = Section(name: string, start: nat, end: nat)

  predicate IsNewline(c: char) { c == '\n' || c == '\r' }

  /** Starts lie in the source, strictly increase, and are not newline bytes. */
  ghost predicate WellPlaced(source: string, hs: seq<Heading>) {
    && (forall i | 0 <= i < |hs| :: hs[i].start < |source| && !IsNewline(source[hs[i].start]))
    && forall i, j | 0 <= i < j < |hs| :: hs[i].start < hs[j].start
  }

  /** Heading i encloses heading j: every heading after i up to j is deeper than i. */
  ghost predicate Encloses(hs: seq<Heading>, i: nat, j: nat) {
    i <= j < |hs| && forall k | i < k <= j :: hs[k].level > hs[i].level
  }

  /** The headings below n that enclose j, outermost first. */
  ghost function Enclosing(hs: seq<Heading>, j: nat, n: nat): (a: seq<nat>)
    ensures forall x | 0 <= x < |a| :: a[x] < n && Encloses(hs, a[x], j)
  {
    if n == 0 then []
    else
      var init := Enclosing(hs, j, n - 1);
      if Encloses(hs, n - 1, j) then init + [n - 1] else init
  }

  /** `Enclosing` misses none and keeps document order. */
  lemma {:induction false} EnclosingComplete(hs: seq<Heading>, j: nat, n: nat)
    ensures forall i: nat | i < n && Encloses(hs, i, j) :: i in Enclosing(hs, j, n)
    ensures forall x, y | 0 <= x < y < |Enclosing(hs, j, n)| :: Enclosing(hs, j, n)[x] < Enclosing(hs, j, n)[y]
  {
    if n > 0 { EnclosingComplete(hs, j, n - 1); }
  }

  /** The path from the document root to heading j. */
  ghost function Path(hs: seq<Heading>, j: nat): seq<nat> {
    Enclosing(hs, j, j + 1)
  }

  ghost function Name(hs: seq<Heading>, j: nat): string
    requires j < |hs|
  {
    Join(Slugs(hs, Path(hs, j)))
  }

  ghost function Slugs(hs: seq<Heading>, path: seq<nat>): seq<string>
    requires forall x | 0 <= x < |path| :: path[x] < |hs|
  {
    seq(|path|, x requires 0 <= x < |path| => hs[path[x]].slug)
  }

  /** A stack frame of either pass. */
  datatype Frame = Frame(level: int, slug: string)

  ghost function Frames(hs: seq<Heading>, path: seq<nat>): seq<Frame>
    requires forall x | 0 <= x < |path| :: path[x] < |hs|
  {
    seq(|path|, x requires 0 <= x < |path| => Frame(hs[path[x]].level, hs[path[x]].slug))
  }

  /** Drops frames from the top while their level is at least `level`. */
  function Pop(stack: seq<Frame>, level: int): seq<Frame> {
    if stack != [] && stack[|stack| - 1].level >= level then Pop(stack[..|stack| - 1], level) else stack
  }

  lemma FramesSnoc(hs: seq<Heading>, path: seq<nat>, i: nat)
    requires forall x | 0 <= x < |path| :: path[x] < |hs|
    requires i < |hs|
    ensures Frames(hs, path + [i]) == Frames(hs, path) + [Frame(hs[i].level, hs[i].slug)]
  {
  }

  lemma EnclosesNext(hs: seq<Heading>, i: nat, j: nat)
    requires i <= j && j + 1 < |hs|
    ensures Encloses(hs, i, j + 1) <==> Encloses(hs, i, j) && hs[i].level < hs[j + 1].level
  {
  }

  /** Popping to the level of the next heading leaves exactly the headings enclosing it. */
  lemma {:induction false} PopKeepsEnclosing(hs: seq<Heading>, j: nat, n: nat)
    requires j + 1 < |hs| && n <= j + 1
    ensures Frames(hs, Enclosing(hs, j + 1, n)) == Pop(Frames(hs, Enclosing(hs, j, n)), hs[j + 1].level)
  {
    hide *;
    if n == 0 {
      NothingEncloses(hs, j);
    } else {
      PopKeepsEnclosing(hs, j, n - 1);
      PopOneMore(hs, j, n - 1);
    }
  }

  lemma NothingEncloses(hs: seq<Heading>, j: nat)
    requires j + 1 < |hs|
    ensures Frames(hs, Enclosing(hs, j + 1, 0)) == Pop(Frames(hs, Enclosing(hs, j, 0)), hs[j + 1].level)
  {
    NoFrames(hs);
  }

  /** Heading i joins the stack if it encloses heading j, and is popped unless it encloses the next one too. */
  lemma PopOneMore(hs: seq<Heading>, j: nat, i: nat)
    requires j + 1 < |hs| && i <= j
    requires Frames(hs, Enclosing(hs, j + 1, i)) == Pop(Frames(hs, Enclosing(hs, j, i)), hs[j + 1].level)
    ensures Frames(hs, Enclosing(hs, j + 1, i + 1)) == Pop(Frames(hs, Enclosing(hs, j, i + 1)), hs[j + 1].level)
  {
    hide Frames, Encloses, Pop;
    var level, below, f := hs[j + 1].level, Enclosing(hs, j, i), Frame(hs[i].level, hs[i].slug);
    EnclosesNext(hs, i, j);
    if Encloses(hs, i, j) {
      FramesSnoc(hs, below, i);
      PopTop(Frames(hs, below), f, level);
      if hs[i].level < level {
        LowerTop(hs, below, level, i, j);
        FramesSnoc(hs, Enclosing(hs, j + 1, i), i);
      }
    }
  }

  lemma PopTop(stack: seq<Frame>, f: Frame, level: int)
    ensures Pop(stack + [f], level) == if f.level >= level then Pop(stack, level) else stack + [f]
  {
    assert (stack + [f])[..|stack|] == stack;
  }

  /** A stack of headings that enclose a heading below `level` is already popped. */
  lemma LowerTop(hs: seq<Heading>, path: seq<nat>, level: int, i: nat, j: nat)
    requires i <= j < |hs| && hs[i].level < level
    requires forall x | 0 <= x < |path| :: path[x] < i && Encloses(hs, path[x], j)
    ensures Pop(Frames(hs, path), level) == Frames(hs, path)
  {
  }

  /** Pop, then push: the stack after heading j is the path of heading j. */
  lemma StackIsPath(hs: seq<Heading>, j: nat)
    requires j < |hs|
    ensures Frames(hs, Path(hs, j)) ==
            Pop(if j == 0 then [] else Frames(hs, Path(hs, j - 1)), hs[j].level) + [Frame(hs[j].level, hs[j].slug)]
  {
    hide Frames;
    if j > 0 {
      PopKeepsEnclosing(hs, j - 1, j);
    } else {
      assert Frames(hs, []) == [] by { NoFrames(hs); }
    }
    assert Encloses(hs, j, j);
    FramesSnoc(hs, Enclosing(hs, j, j), j);
  }

  lemma NoFrames(hs: seq<Heading>)
    ensures Frames(hs, []) == []
  {
  }

  /** The first later heading of the same or a shallower level, or the number of headings. */
  ghost function NextShallower(hs: seq<Heading>, i: nat, from: nat): (e: nat)
    requires i < from <= |hs|
    ensures from <= e <= |hs|
    ensures forall k | from <= k < e :: hs[k].level > hs[i].level
    ensures e < |hs| ==> hs[e].level <= hs[i].level
    decreases |hs| - from
  {
    if from == |hs| || hs[from].level <= hs[i].level then from else NextShallower(hs, i, from + 1)
  }

  ghost function RawEnd(source: string, hs: seq<Heading>, i: nat): nat
    requires i < |hs|
  {
    var e := NextShallower(hs, i, i + 1);
    if e < |hs| then hs[e].start else |source|
  }

  /** Backs `hi` over newlines, not below `lo`. */
  function TrimNewlines(source: string, lo: nat, hi: nat): nat
    requires hi <= |source|
  {
    if hi > lo && IsNewline(source[hi - 1]) then TrimNewlines(source, lo, hi - 1) else hi
  }

  ghost function End(source: string, hs: seq<Heading>, i: nat): nat
    requires WellPlaced(source, hs) && i < |hs|
  {
    TrimNewlines(source, hs[i].start, RawEnd(source, hs, i))
  }

  /** Trimming stops after the last non-newline byte. */
  lemma {:induction false} TrimBounds(source: string, lo: nat, hi: nat, p: nat)
    requires lo <= p < hi <= |source| && !IsNewline(source[p])
    ensures p < TrimNewlines(source, lo, hi) <= hi
  {
    if IsNewline(source[hi - 1]) { TrimBounds(source, lo, hi - 1, p); }
  }

  lemma {:induction false} TrimMonotone(source: string, lo: nat, hi: nat, lo': nat, hi': nat)
    requires lo <= lo' < hi' <= hi <= |source| && !IsNewline(source[lo'])
    ensures TrimNewlines(source, lo', hi') <= TrimNewlines(source, lo, hi)
    decreases hi
  {
    if IsNewline(source[hi - 1]) {
      if hi' < hi { TrimMonotone(source, lo, hi - 1, lo', hi'); }
      else if lo' < hi - 1 { TrimMonotone(source, lo, hi - 1, lo', hi' - 1); }
    } else {
      TrimBounds(source, lo', hi', lo');
    }
  }

  lemma RangeNonEmpty(source: string, hs: seq<Heading>, i: nat)
    requires WellPlaced(source, hs) && i < |hs|
    ensures hs[i].start < End(source, hs, i) <= RawEnd(source, hs, i) <= |source|
  {
    TrimBounds(source, hs[i].start, RawEnd(source, hs, i), hs[i].start);
  }

  /** The ranges form the tree of the names: nested exactly when one heading encloses the other, else disjoint. */
  lemma RangesFormTree(source: string, hs: seq<Heading>, i: nat, j: nat)
    requires WellPlaced(source, hs) && i < j < |hs|
    ensures hs[i].start < End(source, hs, i) <= |source| && hs[j].start < End(source, hs, j) <= |source|
    ensures Encloses(hs, i, j) ==> hs[i].start < hs[j].start && End(source, hs, j) <= End(source, hs, i)
    ensures !Encloses(hs, i, j) ==> End(source, hs, i) <= hs[j].start
  {
    var e, e' := NextShallower(hs, i, i + 1), NextShallower(hs, j, j + 1);
    var raw, raw' := RawEnd(source, hs, i), RawEnd(source, hs, j);
    RangeNonEmpty(source, hs, i);
    RangeNonEmpty(source, hs, j);
    if Encloses(hs, i, j) {
      assert e > j;
      assert e' <= e by { assert e < |hs| ==> hs[e].level <= hs[j].level; }
      TrimMonotone(source, hs[i].start, raw, hs[j].start, raw');
    } else {
      assert e <= j;
    }
  }

  /** An enclosing heading's path is a prefix of the enclosed heading's path. */
  lemma EnclosingPathIsPrefix(hs: seq<Heading>, i: nat, j: nat)
    requires Encloses(hs, i, j)
    ensures Path(hs, i) <= Path(hs, j)
  {
    hide Enclosing;
    SameBelow(hs, i, j, i + 1);
    PrefixGrows(hs, j, i + 1, j + 1);
  }

  lemma {:induction false} SameBelow(hs: seq<Heading>, i: nat, j: nat, n: nat)
    requires Encloses(hs, i, j) && n <= i + 1
    ensures Enclosing(hs, i, n) == Enclosing(hs, j, n)
  {
    if n > 0 {
      SameBelow(hs, i, j, n - 1);
      assert Encloses(hs, n - 1, i) <==> Encloses(hs, n - 1, j);
    }
  }

  lemma {:induction false} PrefixGrows(hs: seq<Heading>, j: nat, n: nat, m: nat)
    requires n <= m
    ensures Enclosing(hs, j, n) <= Enclosing(hs, j, m)
    decreases m
  {
    if n < m { PrefixGrows(hs, j, n, m - 1); }
  }

  method SlugPath(stack: seq<Frame>) returns (parts: seq<string>)
    ensures parts == FrameSlugs(stack)
  {
    parts := [];
    for i := 0 to |stack|
      invariant parts == FrameSlugs(stack[..i])
    {
      parts := parts + [stack[i].slug];
    }
    assert stack[..|stack|] == stack;
  }

  function FrameSlugs(stack: seq<Frame>): seq<string> {
    seq(|stack|, x requires 0 <= x < |stack| => stack[x].slug)
  }

  lemma FrameSlugsArePath(hs: seq<Heading>, path: seq<nat>)
    requires forall x | 0 <= x < |path| :: path[x] < |hs|
    ensures FrameSlugs(Frames(hs, path)) == Slugs(hs, path)
  {
  }

  method PopTo(stack: seq<Frame>, level: int) returns (rest: seq<Frame>)
    ensures rest == Pop(stack, level)
  {
    rest := stack;
    while |rest| > 0 && rest[|rest| - 1].level >= level
      invariant Pop(rest, level) == Pop(stack, level)
      decreases |rest|
    {
      rest := rest[..|rest| - 1];
    }
  }

  /** The byte just before the next heading of the same or a shallower level, trailing newlines trimmed. */
  method SectionEnd(source: string, hs: seq<Heading>, i: nat) returns (end: nat)
    requires WellPlaced(source, hs) && i < |hs|
    ensures end == End(source, hs, i)
  {
    end := |source|;
    var j := i + 1;
    while j < |hs|
      invariant i < j <= |hs|
      invariant NextShallower(hs, i, i + 1) == NextShallower(hs, i, j)
      invariant end == |source|
    {
      if hs[j].level <= hs[i].level {
        end := hs[j].start;
        break;
      }
      j := j + 1;
    }
    assert end == RawEnd(source, hs, i);
    while end > hs[i].start && IsNewline(source[end - 1])
      invariant end <= |source|
      invariant TrimNewlines(source, hs[i].start, end) == End(source, hs, i)
    {
      end := end - 1;
    }
  }

  /** Pass 2: one section per heading. */
  method BuildSections(source: string, hs: seq<Heading>) returns (sections: seq<Section>)
    requires WellPlaced(source, hs)
    ensures |sections| == |hs|
    ensures forall i | 0 <= i < |hs| :: sections[i] == Section(Name(hs, i), hs[i].start, End(source, hs, i))
  {
    hide Frames, Enclosing, Pop, Join, Slugs, FrameSlugs, End;
    sections := [];
    var stack: seq<Frame> := [];
    for i := 0 to |hs|
      invariant |sections| == i
      invariant forall k | 0 <= k < i :: sections[k] == Section(Name(hs, k), hs[k].start, End(source, hs, k))
      invariant stack == if i == 0 then [] else Frames(hs, Path(hs, i - 1))
    {
      var h := hs[i];
      var end := SectionEnd(source, hs, i);
      stack := PopTo(stack, h.level);
      StackIsPath(hs, i);
      stack := stack + [Frame(h.level, h.slug)];
      var parts := SlugPath(stack);
      FrameSlugsArePath(hs, Path(hs, i));
      sections := sections + [Section(Join(parts), h.start, end)];
    }
  }

  /** What pass 1 meets in document order. */
  datatype Event = HeadingEvent(h: Heading) | LinkEvent(dest: string)
  datatype Link = Link(dest: string, fromSection: string)

  function HeadingsOf(events: seq<Event>): seq<Heading> {
    if events == [] then []
    else
      var e := events[|events| - 1];
      HeadingsOf(events[..|events| - 1]) + if e.HeadingEvent? then [e.h] else []
  }

  ghost function Context(hs: seq<Heading>): string {
    if hs == [] then "" else Name(hs, |hs| - 1)
  }

  /** The links with a destination, each under the name of the last heading before it. */
  ghost function LinksOf(events: seq<Event>): seq<Link> {
    if events == [] then []
    else
      var init, e := events[..|events| - 1], events[|events| - 1];
      LinksOf(init) + if e.LinkEvent? && e.dest != "" then [Link(e.dest, Context(HeadingsOf(init)))] else []
  }

  /** Headings seen later do not change an earlier heading's path. */
  lemma {:induction false} PathIsStable(hs: seq<Heading>, h: Heading, j: nat, n: nat)
    requires j < |hs|
    ensures Enclosing(hs + [h], j, n) == Enclosing(hs, j, n)
  {
    if n > 0 {
      PathIsStable(hs, h, j, n - 1);
      if n - 1 <= j { assert forall k | n - 1 < k <= j :: (hs + [h])[k] == hs[k]; }
      assert Encloses(hs + [h], n - 1, j) <==> Encloses(hs, n - 1, j);
    }
  }

  /** Appending a heading leaves the earlier frames alone. */
  lemma FramesStable(hs: seq<Heading>, h: Heading)
    requires hs != []
    ensures Frames(hs + [h], Path(hs + [h], |hs| - 1)) == Frames(hs, Path(hs, |hs| - 1))
  {
    PathIsStable(hs, h, |hs| - 1, |hs|);
  }

  /** The context stack between two events. */
  ghost function ContextStack(hs: seq<Heading>): seq<Frame> {
    if hs == [] then [] else Frames(hs, Path(hs, |hs| - 1))
  }

  lemma ContextAfter(hs: seq<Heading>, h: Heading)
    ensures ContextStack(hs + [h]) == Pop(ContextStack(hs), h.level) + [Frame(h.level, h.slug)]
  {
    hide Frames, Path;
    StackIsPath(hs + [h], |hs|);
    if hs != [] { FramesStable(hs, h); }
  }

  lemma ContextPath(hs: seq<Heading>)
    ensures Context(hs) == if ContextStack(hs) == [] then "" else Join(FrameSlugs(ContextStack(hs)))
  {
    if hs != [] {
      StackIsPath(hs, |hs| - 1);
      FrameSlugsArePath(hs, Path(hs, |hs| - 1));
    }
  }

  /** Pass 1: headings and links in one walk, with its own context stack. */
  method CollectHeadingsAndLinks(events: seq<Event>) returns (hs: seq<Heading>, links: seq<Link>)
    ensures hs == HeadingsOf(events) && links == LinksOf(events)
  {
    hide ContextStack, Context, Join, FrameSlugs, Pop;
    hs, links := [], [];
    var ctx: seq<Frame> := [];
    assert ContextStack([]) == [] by { EmptyContext(); }
    for i := 0 to |events|
      invariant hs == HeadingsOf(events[..i]) && links == LinksOf(events[..i])
      invariant ctx == ContextStack(hs)
    {
      assert events[..i + 1][..i] == events[..i];
      match events[i]
      case HeadingEvent(h) =>
        ContextAfter(hs, h);
        hs := hs + [h];
        ctx := PopTo(ctx, h.level);
        ctx := ctx + [Frame(h.level, h.slug)];
      case LinkEvent(dest) =>
        if dest != "" {
          var parts := SlugPath(ctx);
          ContextPath(hs);
          links := links + [Link(dest, if |ctx| == 0 then "" else Join(parts))];
        }
    }
    assert events[..|events|] == events;
  }

  lemma EmptyContext()
    ensures ContextStack([]) == []
  {
  }

  /** A section ends behind its last byte that is no line break, and only line breaks follow up to the next one. */
  lemma {:induction false} TrimStops(source: string, lo: nat, hi: nat)
    requires hi <= |source|
    ensures var e := TrimNewlines(source, lo, hi);
            && e <= hi && (e > lo ==> source[e - 1] != '\n' && source[e - 1] != '\r')
            && forall p | e <= p < hi :: source[p] == '\n' || source[p] == '\r'
  {
    if hi > lo && IsNewline(source[hi - 1]) { TrimStops(source, lo, hi - 1); }
  }

  lemma EndIsTrimmed(source: string, hs: seq<Heading>, i: nat)
    requires WellPlaced(source, hs) && i < |hs|
    ensures var e, next := End(source, hs, i), NextShallower(hs, i, i + 1);
            && hs[i].start < e <= |source| && source[e - 1] != '\n' && source[e - 1] != '\r'
            && forall p | e <= p < if next < |hs| then hs[next].start else |source| ::
                 source[p] == '\n' || source[p] == '\r'
  {
    RangeNonEmpty(source, hs, i);
    TrimStops(source, hs[i].start, RawEnd(source, hs, i));
  }

  /** Pass 1 records exactly the links with a destination, each under the section whose heading came last. */
  lemma {:induction false} LinkRecordedIff(events: seq<Event>, l: Link)
    ensures l in LinksOf(events)
            <==> l.dest != "" && exists i ::
                   && 0 <= i < |events| && events[i] == LinkEvent(l.dest)
                   && l.fromSection == Context(HeadingsOf(events[..i]))
  {
    hide Context;
    if events != [] {
      var n := |events| - 1;
      var init := events[..n];
      LinkRecordedIff(init, l);
      forall i | 0 <= i <= n ensures init[..if i < n then i else n] == events[..i] { }
      if i :| 0 <= i < |init| && init[i] == LinkEvent(l.dest) && l.fromSection == Context(HeadingsOf(init[..i])) {
        assert events[i] == init[i] && events[..i] == init[..i];
      }
      if i :|
         0 <= i < |events| && events[i] == LinkEvent(l.dest) && l.fromSection == Context(HeadingsOf(events[..i])) {
        if i < n { assert init[i] == events[i] && init[..i] == events[..i]; }
      }
    }
  }

  /** The headings of the walk, in order: the last one is that of the last heading event. */
  lemma {:induction false} LastHeading(events: seq<Event>, i: nat, h: Heading)
    requires i < |events| && events[i] == HeadingEvent(h)
    requires forall k | i < k < |events| :: !events[k].HeadingEvent?
    ensures var hs := HeadingsOf(events); hs == HeadingsOf(events[..i]) + [h]
    decreases |events|
  {
    var n := |events| - 1;
    if i < n {
      LastHeading(events[..n], i, h);
      assert events[..n][..i] == events[..i];
    }
  }
}
