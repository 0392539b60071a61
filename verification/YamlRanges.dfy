/** The byte ranges of YAML entries, and when they form the tree that the paths spell. */
module YamlRanges {
  import opened LineIndex
  import opened YamlEntries

  function Start(offsets: seq<nat>, e: Entry, sourceLen: nat): nat {
    LineColToOffset(offsets, e.line, e.col, sourceLen)
  }

  /** The line start of the n-th entry, or the end of the source behind the last one. */
  function Boundary(offsets: seq<nat>, es: seq<Entry>, n: nat, sourceLen: nat): nat {
    if n < |es| then LineColToOffset(offsets, es[n].line, 1, sourceLen) else sourceLen
  }

  /** The end by the kind of value. */
  ghost predicate IsRawEnd(source: string, offsets: seq<nat>, es: seq<Entry>, i: nat, end: nat)
    requires i < |es| && es[i].line >= 0
  {
    match es[i].val.kind
    case Scalar(block) => IsScalarEnd(source, offsets, block, es[i].line, es[i].col, end)
    case Alias => IsScalarEnd(source, offsets, false, es[i].line, es[i].col, end)
    case _ => end == Boundary(offsets, es, BlockEnd(es, i), |source|)
  }

  /** A range that would be empty is stretched to the end of its line. */
  ghost predicate IsRange(source: string, offsets: seq<nat>, es: seq<Entry>, i: nat, start: nat, end: nat)
    requires i < |es| && es[i].line >= 0
  {
    && start == Start(offsets, es[i], |source|)
    && exists raw: nat :: IsRawEnd(source, offsets, es, i, raw)
                          && end == if raw <= start then LineEnd(offsets, es[i].line, |source|) else raw
  }

  method EntryRange(docs: seq<Node>, es: seq<Entry>, i: nat, source: string, offsets: seq<nat>)
    returns (start: nat, end: nat)
    requires IsLineIndex(source, offsets) && es == Stream(docs) && i < |es| && es[i].line >= 0
    ensures IsRange(source, offsets, es, i, start, end)
  {
    var e := es[i];
    start := LineColToOffset(offsets, e.line, e.col, |source|);
    match e.val.kind {
      case Scalar(block) => end := ScalarEnd(source, offsets, block, e.line, e.col);
      case Alias => end := ScalarEnd(source, offsets, false, e.line, e.col);
      case _ => end := ContainerEnd(docs, es, i, offsets, |source|);
    }
    assert IsRawEnd(source, offsets, es, i, end);
    if end <= start { end := if e.line < |offsets| then offsets[e.line] else |source|; }
  }

  /** Entry i lies inside its line. */
  ghost predicate OnItsLine(source: string, offsets: seq<nat>, e: Entry) {
    && 1 <= e.line <= |offsets| && 1 <= e.col
    && offsets[e.line - 1] + e.col - 1 < LineEnd(offsets, e.line, |source|)
  }

  /** Entries come in source order, each inside its line; an entry and its first child may start at one place. */
  ghost predicate SourceOrder(source: string, offsets: seq<nat>, es: seq<Entry>) {
    && (forall i | 0 <= i < |es| :: OnItsLine(source, offsets, es[i]))
    && forall i, j | 0 <= i < j < |es| :: NotBehind(es[i], es[j])
  }

  predicate NotBehind(e: Entry, f: Entry) {
    e.line < f.line || (e.line == f.line && e.col <= f.col)
  }

  lemma LineOrder(source: string, offsets: seq<nat>, l: nat, m: nat)
    requires IsLineIndex(source, offsets) && 1 <= l < m <= |offsets|
    ensures offsets[l - 1] < LineEnd(offsets, l, |source|) <= offsets[m - 1] <= |source|
  {
    assert offsets[m - 1] in offsets;
    assert l == m - 1 || offsets[l] < offsets[m - 1];
  }

  lemma LastLineEnds(source: string, offsets: seq<nat>, l: nat)
    requires IsLineIndex(source, offsets) && 1 <= l <= |offsets|
    ensures offsets[l - 1] <= LineEnd(offsets, l, |source|) <= |source|
  {
    assert offsets[l - 1] in offsets;
    if l < |offsets| { LineOrder(source, offsets, l, l + 1); }
  }

  /** An entry's start lies between its line's start and end. */
  lemma StartOnLine(source: string, offsets: seq<nat>, e: Entry)
    requires IsLineIndex(source, offsets) && OnItsLine(source, offsets, e)
    ensures offsets[e.line - 1] <= Start(offsets, e, |source|) < LineEnd(offsets, e.line, |source|)
  {
    LastLineEnds(source, offsets, e.line);
  }

  lemma EntryOnLine(source: string, offsets: seq<nat>, es: seq<Entry>, i: nat)
    requires SourceOrder(source, offsets, es) && i < |es|
    ensures OnItsLine(source, offsets, es[i]) && es[i].line >= 0
  {
  }

  lemma LinesRise(source: string, offsets: seq<nat>, es: seq<Entry>, i: nat, j: nat)
    requires SourceOrder(source, offsets, es) && i <= j < |es|
    ensures NotBehind(es[i], es[j])
  {
  }

  /** An entry's boundary is its line's start, which is not behind its own start or a later boundary. */
  lemma BoundariesRise(source: string, offsets: seq<nat>, es: seq<Entry>, m: nat, n: nat)
    requires IsLineIndex(source, offsets) && SourceOrder(source, offsets, es) && m <= n <= |es|
    ensures Boundary(offsets, es, m, |source|) <= Boundary(offsets, es, n, |source|) <= |source|
    ensures n < |es| ==>
              Boundary(offsets, es, n, |source|) == offsets[es[n].line - 1] <= Start(offsets, es[n], |source|)
  {
    if n < |es| {
      EntryOnLine(source, offsets, es, n);
      StartOnLine(source, offsets, es[n]);
      LastLineEnds(source, offsets, es[n].line);
    }
    if m < |es| {
      EntryOnLine(source, offsets, es, m);
      LastLineEnds(source, offsets, es[m].line);
      if n < |es| {
        LinesRise(source, offsets, es, m, n);
        if es[m].line < es[n].line { LineOrder(source, offsets, es[m].line, es[n].line); }
      }
    }
  }

  lemma {:induction false} FirstOutdent(source: string, offsets: seq<nat>, l: nat, m: nat, col: int) returns (end: nat)
    requires l < m && forall k | l < k < m && k <= |offsets| :: !Outdented(source, offsets, k, col)
    ensures || (end == |source| && forall line | l < line <= |offsets| :: !Outdented(source, offsets, line, col))
            || (exists line | l < line <= |offsets| ::
                  && end == offsets[line - 1] && Outdented(source, offsets, line, col)
                  && forall k | l < k < line :: !Outdented(source, offsets, k, col))
    decreases |offsets| + 1 - m
  {
    hide Outdented;
    if m > |offsets| { end := |source|; }
    else if Outdented(source, offsets, m, col) { end := offsets[m - 1]; }
    else { end := FirstOutdent(source, offsets, l, m + 1, col); }
  }

  /** Every entry has a range. */
  lemma RangeExists(source: string, offsets: seq<nat>, es: seq<Entry>, i: nat) returns (start: nat, end: nat)
    requires i < |es| && es[i].line >= 0
    ensures IsRange(source, offsets, es, i, start, end)
  {
    start := Start(offsets, es[i], |source|);
    var l := es[i].line;
    var raw: nat;
    match es[i].val.kind {
      case Scalar(block) =>
        if block { raw := FirstOutdent(source, offsets, l, l + 1, AtLeastOne(es[i].col)); }
        else { raw := LineEnd(offsets, l, |source|); }
      case Alias => raw := LineEnd(offsets, l, |source|);
      case _ => raw := Boundary(offsets, es, BlockEnd(es, i), |source|);
    }
    assert IsRawEnd(source, offsets, es, i, raw);
    end := if raw <= start then LineEnd(offsets, l, |source|) else raw;
  }

  /** The first entry behind i's block starts on a later line, and not inside a block scalar. */
  ghost predicate Apart(source: string, offsets: seq<nat>, es: seq<Entry>, i: nat)
    requires i < |es| && es[i].line >= 0
  {
    var n := BlockEnd(es, i);
    n < |es| ==>
      && es[i].line < es[n].line
      && (es[i].val.kind == Scalar(true) ==>
            OutdentBetween(source, offsets, es[i].line, es[n].line, AtLeastOne(es[i].col)))
  }

  ghost predicate OutdentBetween(source: string, offsets: seq<nat>, l: int, n: int, col: int)
    requires 0 <= l
  {
    exists line | l < line <= n && line <= |offsets| :: Outdented(source, offsets, line, col)
  }

  /** The end of a block scalar lies behind its key's line, and up to line n exactly if a line up to n is outdented. */
  lemma BlockScalarEnd(source: string, offsets: seq<nat>, l: nat, col: int, end: nat)
    requires IsLineIndex(source, offsets) && 1 <= l <= |offsets| && IsScalarEnd(source, offsets, true, l, col, end)
    ensures LineEnd(offsets, l, |source|) <= end <= |source|
    ensures forall n: nat | l < n <= |offsets| ::
              if OutdentBetween(source, offsets, l, n, AtLeastOne(col)) then end <= offsets[n - 1]
              else LineEnd(offsets, n, |source|) <= end
  {
    hide Outdented;
    LastLineEnds(source, offsets, l);
    var c := AtLeastOne(col);
    if line :| l < line <= |offsets| && end == offsets[line - 1] && Outdented(source, offsets, line, c)
               && forall m | l < m < line :: !Outdented(source, offsets, m, c) {
      LineOrder(source, offsets, l, line);
      forall n: nat | l < n <= |offsets|
        ensures if OutdentBetween(source, offsets, l, n, c) then end <= offsets[n - 1]
                else LineEnd(offsets, n, |source|) <= end
      {
        if n < line { LineOrder(source, offsets, n, line); }
        if line < n { LineOrder(source, offsets, line, n); }
      }
    } else {
      forall n: nat | l < n <= |offsets| ensures LineEnd(offsets, n, |source|) <= end {
        LastLineEnds(source, offsets, n);
      }
    }
  }

  /** No range is empty or passes the end of the source. */
  lemma RangeNonEmpty(source: string, offsets: seq<nat>, es: seq<Entry>, i: nat, start: nat, end: nat)
    requires IsLineIndex(source, offsets) && SourceOrder(source, offsets, es) && i < |es| && BlockEnd(es, i) <= |es|
    requires es[i].line >= 0 && IsRange(source, offsets, es, i, start, end)
    ensures start == Start(offsets, es[i], |source|) && start < end <= |source|
  {
    hide Outdented, LineEnd, Boundary, IsScalarEnd, Start, OnItsLine, SourceOrder;
    var l := es[i].line;
    EntryOnLine(source, offsets, es, i);
    OnLine(source, offsets, es[i]);
    StartOnLine(source, offsets, es[i]);
    LastLineEnds(source, offsets, l);
    var raw: nat :| IsRawEnd(source, offsets, es, i, raw)
                    && end == if raw <= start then LineEnd(offsets, l, |source|) else raw;
    BoundariesRise(source, offsets, es, BlockEnd(es, i), BlockEnd(es, i));
    PlainScalarEnd(source, offsets, l, es[i].col);
    if es[i].val.kind == Scalar(true) { BlockScalarEnd(source, offsets, l, es[i].col, raw); }
  }

  lemma OnLine(source: string, offsets: seq<nat>, e: Entry)
    requires OnItsLine(source, offsets, e)
    ensures 1 <= e.line <= |offsets| && 1 <= e.col
  {
  }

  lemma PlainScalarEnd(source: string, offsets: seq<nat>, l: nat, col: int)
    ensures forall end :: IsScalarEnd(source, offsets, false, l, col, end) <==> end == LineEnd(offsets, l, |source|)
  {
  }

  /** An entry set apart ends at or before the first entry behind its block; a container ends at that line's start. */
  lemma ApartEnds(source: string, offsets: seq<nat>, es: seq<Entry>, i: nat, start: nat, end: nat)
    requires IsLineIndex(source, offsets) && SourceOrder(source, offsets, es) && i < |es| && i < BlockEnd(es, i) <= |es|
    requires es[i].line >= 0 && IsRange(source, offsets, es, i, start, end) && Apart(source, offsets, es, i)
    ensures end <= Boundary(offsets, es, BlockEnd(es, i), |source|)
    ensures !es[i].val.kind.Scalar? && !es[i].val.kind.Alias? ==>
              end == Boundary(offsets, es, BlockEnd(es, i), |source|)
  {
    hide Outdented, LineEnd, Start, OnItsLine, SourceOrder, IsScalarEnd, OutdentBetween;
    var l, n := es[i].line, BlockEnd(es, i);
    RangeNonEmpty(source, offsets, es, i, start, end);
    EntryOnLine(source, offsets, es, i);
    OnLine(source, offsets, es[i]);
    StartOnLine(source, offsets, es[i]);
    if n < |es| {
      EntryOnLine(source, offsets, es, n);
      OnLine(source, offsets, es[n]);
      LineOrder(source, offsets, l, es[n].line);
      BoundariesRise(source, offsets, es, n, n);
    }
    var raw: nat :| IsRawEnd(source, offsets, es, i, raw)
                    && end == if raw <= start then LineEnd(offsets, l, |source|) else raw;
    PlainScalarEnd(source, offsets, l, es[i].col);
    if es[i].val.kind == Scalar(true) { BlockScalarEnd(source, offsets, l, es[i].col, raw); }
  }

  /** An entry not set apart reaches over the start of the first entry behind its block. */
  lemma FlowOverlaps(source: string, offsets: seq<nat>, es: seq<Entry>, i: nat, start: nat, end: nat)
    requires IsLineIndex(source, offsets) && SourceOrder(source, offsets, es) && i < |es| && i < BlockEnd(es, i) <= |es|
    requires es[i].line >= 0 && IsRange(source, offsets, es, i, start, end) && !Apart(source, offsets, es, i)
    ensures BlockEnd(es, i) < |es| && Start(offsets, es[BlockEnd(es, i)], |source|) < end
  {
    hide Outdented, LineEnd, Start, OnItsLine, SourceOrder, IsScalarEnd, OutdentBetween;
    var l, n := es[i].line, BlockEnd(es, i);
    EntryOnLine(source, offsets, es, i);
    EntryOnLine(source, offsets, es, n);
    OnLine(source, offsets, es[i]);
    OnLine(source, offsets, es[n]);
    LinesRise(source, offsets, es, i, n);
    StartOnLine(source, offsets, es[i]);
    StartOnLine(source, offsets, es[n]);
    BoundariesRise(source, offsets, es, n, n);
    var raw: nat :| IsRawEnd(source, offsets, es, i, raw)
                    && end == if raw <= start then LineEnd(offsets, l, |source|) else raw;
    PlainScalarEnd(source, offsets, l, es[i].col);
    if es[i].val.kind == Scalar(true) { BlockScalarEnd(source, offsets, l, es[i].col, raw); }
  }

  /** Blocks are nested like the paths. */
  lemma BlocksNest(docs: seq<Node>, i: nat, j: nat)
    requires i < j < |Stream(docs)| && j < BlockEnd(Stream(docs), i)
    ensures BlockEnd(Stream(docs), j) <= BlockEnd(Stream(docs), i)
  {
    var es := Stream(docs);
    hide Entries, Stream;
    StreamOwns(docs);
    assert OwnsBlock(es, i) && OwnsBlock(es, j);
    var n := BlockEnd(es, i);
    EntriesGrown(es[i].val, es[i].path);
    EntriesGrown(es[j].val, es[j].path);
    assert es[j] == Entries(es[i].val, es[i].path)[j - i - 1];
    if n < BlockEnd(es, j) { DeeperInBlock(es, j, n); }
  }

  lemma DeeperInBlock(es: seq<Entry>, j: nat, n: nat)
    requires j < n < |es| && n < BlockEnd(es, j) && OwnsBlock(es, j)
    ensures |es[n].path| > |es[j].path|
  {
    EntriesGrown(es[j].val, es[j].path);
    assert es[n] == Entries(es[j].val, es[j].path)[n - j - 1];
  }

  /** Ranges nest like the paths: an entry in i's block lies inside i's range, any later one behind it. */
  ghost predicate PairNests(source: string, offsets: seq<nat>, es: seq<Entry>, i: nat, j: nat)
    requires i < |es| && j < |es| && es[i].line >= 0 && es[j].line >= 0
  {
    forall start, end, start', end'
      | IsRange(source, offsets, es, i, start, end) && IsRange(source, offsets, es, j, start', end') ::
      if j < BlockEnd(es, i) then start <= start' && end' <= end else end <= start'
  }

  ghost predicate AllNest(source: string, offsets: seq<nat>, es: seq<Entry>)
    requires forall e | e in es :: e.line >= 0
  {
    forall i, j | 0 <= i < j < |es| :: PairNests(source, offsets, es, i, j)
  }

  ghost predicate AllApart(source: string, offsets: seq<nat>, es: seq<Entry>)
    requires forall e | e in es :: e.line >= 0
  {
    forall i | 0 <= i < |es| :: Apart(source, offsets, es, i)
  }

  lemma BlockBounds(docs: seq<Node>, i: nat)
    requires i < |Stream(docs)|
    ensures i < BlockEnd(Stream(docs), i) <= |Stream(docs)|
    ensures Stream(docs)[i].val.kind.Scalar? || Stream(docs)[i].val.kind.Alias? ==> BlockEnd(Stream(docs), i) == i + 1
  {
    StreamOwns(docs);
    assert OwnsBlock(Stream(docs), i);
  }

  lemma StartsRise(source: string, offsets: seq<nat>, es: seq<Entry>, i: nat, j: nat)
    requires IsLineIndex(source, offsets) && SourceOrder(source, offsets, es) && i <= j < |es|
    ensures Start(offsets, es[i], |source|) <= Start(offsets, es[j], |source|)
  {
    LinesRise(source, offsets, es, i, j);
    EntryOnLine(source, offsets, es, i);
    EntryOnLine(source, offsets, es, j);
    StartOnLine(source, offsets, es[i]);
    StartOnLine(source, offsets, es[j]);
    if es[i].line < es[j].line { LineOrder(source, offsets, es[i].line, es[j].line); }
  }

  lemma ApartNests(source: string, offsets: seq<nat>, docs: seq<Node>, i: nat, j: nat)
    requires IsLineIndex(source, offsets) && SourceOrder(source, offsets, Stream(docs)) && i < j < |Stream(docs)|
    requires Stream(docs)[i].line >= 0 && Apart(source, offsets, Stream(docs), i)
    requires Stream(docs)[j].line >= 0 && Apart(source, offsets, Stream(docs), j)
    ensures PairNests(source, offsets, Stream(docs), i, j)
  {
    var es := Stream(docs);
    hide Stream, Entries, IsRange, IsLineIndex, SourceOrder, Apart, Boundary, Start, BlockEnd;
    BlockBounds(docs, i);
    BlockBounds(docs, j);
    var n, m := BlockEnd(es, i), BlockEnd(es, j);
    forall start, end, start', end'
      | IsRange(source, offsets, es, i, start, end) && IsRange(source, offsets, es, j, start', end')
      ensures if j < n then start <= start' && end' <= end else end <= start'
    {
      RangeNonEmpty(source, offsets, es, i, start, end);
      RangeNonEmpty(source, offsets, es, j, start', end');
      ApartEnds(source, offsets, es, i, start, end);
      ApartEnds(source, offsets, es, j, start', end');
      StartsRise(source, offsets, es, i, j);
      if j < n {
        BlocksNest(docs, i, j);
        BoundariesRise(source, offsets, es, m, n);
      } else {
        BoundariesRise(source, offsets, es, n, j);
      }
    }
  }

  /**
   * No range is ever empty. They all nest like the paths exactly if every entry is set apart from the first one
   * behind its block.
   */
  lemma RangesNestIff(source: string, offsets: seq<nat>, docs: seq<Node>)
    requires IsLineIndex(source, offsets) && SourceOrder(source, offsets, Stream(docs))
    ensures forall e | e in Stream(docs) :: e.line >= 0
    ensures forall i, start, end | 0 <= i < |Stream(docs)| && IsRange(source, offsets, Stream(docs), i, start, end) ::
              start < end
    ensures AllNest(source, offsets, Stream(docs)) <==> AllApart(source, offsets, Stream(docs))
  {
    var es := Stream(docs);
    hide Stream, Entries, IsRange, IsLineIndex, SourceOrder, Apart, BlockEnd, PairNests;
    forall e | e in es ensures e.line >= 0 {
      var i :| 0 <= i < |es| && es[i] == e;
      EntryOnLine(source, offsets, es, i);
    }
    forall i, start, end | 0 <= i < |es| && IsRange(source, offsets, es, i, start, end) ensures start < end {
      BlockBounds(docs, i);
      RangeNonEmpty(source, offsets, es, i, start, end);
    }
    if AllApart(source, offsets, es) {
      forall i, j | 0 <= i < j < |es| ensures PairNests(source, offsets, es, i, j) {
        ApartNests(source, offsets, docs, i, j);
      }
    }
    if AllNest(source, offsets, es) {
      forall i | 0 <= i < |es| ensures Apart(source, offsets, es, i) { NestsApart(source, offsets, docs, i); }
    }
  }

  lemma NestsApart(source: string, offsets: seq<nat>, docs: seq<Node>, i: nat)
    requires IsLineIndex(source, offsets) && SourceOrder(source, offsets, Stream(docs)) && i < |Stream(docs)|
    requires forall e | e in Stream(docs) :: e.line >= 0
    requires AllNest(source, offsets, Stream(docs))
    ensures Apart(source, offsets, Stream(docs), i)
  {
    var es := Stream(docs);
    hide Stream, Entries, IsRange, IsLineIndex, SourceOrder, Apart, BlockEnd;
    BlockBounds(docs, i);
    var n := BlockEnd(es, i);
    if !Apart(source, offsets, es, i) {
      var start, end := RangeExists(source, offsets, es, i);
      FlowOverlaps(source, offsets, es, i, start, end);
      var start', end' := RangeExists(source, offsets, es, n);
      BlockBounds(docs, n);
      RangeNonEmpty(source, offsets, es, n, start', end');
      NestedPair(source, offsets, es, i, n, start, end, start', end');
    }
  }

  lemma NestedPair(source: string, offsets: seq<nat>, es: seq<Entry>, i: nat, j: nat, start: nat, end: nat,
                   start': nat, end': nat)
    requires (forall e | e in es :: e.line >= 0) && AllNest(source, offsets, es) && i < j < |es|
    requires es[i].line >= 0 && IsRange(source, offsets, es, i, start, end)
    requires es[j].line >= 0 && IsRange(source, offsets, es, j, start', end')
    ensures if j < BlockEnd(es, i) then start <= start' && end' <= end else end <= start'
  {
    assert PairNests(source, offsets, es, i, j);
  }

  /** `{a: 1, b: 2}` as the parser sees it. */
  function FlowMapping(): Node {
    Node(Mapping, "", 1, 1, [Node(Scalar(false), "a", 1, 2, []), Node(Scalar(false), "1", 1, 5, []),
                             Node(Scalar(false), "b", 1, 8, []), Node(Scalar(false), "2", 1, 11, [])])
  }

  lemma FlowMappingEntries()
    ensures Stream([Node(Document, "", 1, 1, [FlowMapping()])])
            == [Entry(["a"], FlowMapping().content[1], 1, 2), Entry(["b"], FlowMapping().content[3], 1, 8)]
  {
    var m := FlowMapping();
    var ns := m.content;
    assert ns[2..] == [ns[2], ns[3]] && ns[2..][2..] == [];
    assert Sanitize("a") == "a" && Sanitize("b") == "b";
    assert Entries(ns[1], ["a"]) == [] && Entries(ns[3], ["b"]) == [];
    assert Pairs(ns[2..], []) == [KeyEntry(ns[2], ns[3], [])];
    assert [] + ["a"] == ["a"] && [] + ["b"] == ["b"];
    assert KeyEntry(ns[0], ns[1], []) == Entry(["a"], ns[1], 1, 2);
    assert KeyEntry(ns[2], ns[3], []) == Entry(["b"], ns[3], 1, 8);
    assert Pairs(ns, []) == [KeyEntry(ns[0], ns[1], [])] + Entries(ns[1], ["a"]) + Pairs(ns[2..], []);
    assert Entries(m, []) == [Entry(["a"], ns[1], 1, 2), Entry(["b"], ns[3], 1, 8)];
    assert Nodes([m], []) == Entries(m, []);
    var doc := Node(Document, "", 1, 1, [m]);
    assert Nodes([doc], []) == Entries(doc, []);
  }

  /** In that source the ranges of `a` and `b` are [1, 12) and [7, 12), although neither entry is inside the other. */
  lemma FlowMappingOverlaps(source: string)
    requires |source| == 12 && '\n' !in source
    ensures var es := Stream([Node(Document, "", 1, 1, [FlowMapping()])]);
            && IsLineIndex(source, [0]) && SourceOrder(source, [0], es) && |es| == 2
            && (forall e | e in es :: e.line >= 0)
            && IsRange(source, [0], es, 0, 1, 12) && IsRange(source, [0], es, 1, 7, 12)
            && !AllNest(source, [0], es)
  {
    FlowMappingEntries();
    hide Stream;
    var es := Stream([Node(Document, "", 1, 1, [FlowMapping()])]);
    assert es[0].val.kind == Scalar(false) && es[1].val.kind == Scalar(false);
    assert IsRawEnd(source, [0], es, 0, 12) && IsRawEnd(source, [0], es, 1, 12);
    assert BlockEnd(es, 0) == 1;
    if AllNest(source, [0], es) { NestedPair(source, [0], es, 0, 1, 1, 12, 7, 12); }
  }
}
