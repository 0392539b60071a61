/** Flattening YAML node trees into path entries, and recovering each entry's subtree from path lengths. */
module YamlEntries {
  import opened Decimal
  import opened Paths
  import opened Text
  import opened LineIndex

  datatype Kind = Document | Mapping | Sequence | Scalar(block: bool) | Alias

  datatype Node = Node(kind: Kind, value: string, line: int, col: int, content: seq<Node>)

  datatype Entry = Entry(path: seq<string>, val: Node, line: int, col: int)

  function Sanitize(key: string): (s: string)
    ensures |s| == |key| && '.' !in s
  {
    seq(|key|, i requires 0 <= i < |key| => if key[i] in ['.', '/', ' '] then '_' else key[i])
  }

  function KeyEntry(key: Node, val: Node, path: seq<string>): Entry {
    Entry(path + [Sanitize(key.value)], val, key.line, key.col)
  }

  function ItemEntry(item: Node, i: nat, path: seq<string>): Entry {
    Entry(path + [Render(i)], item, item.line, item.col)
  }

  /** The entries of a node below a path, in preorder. */
  function Entries(n: Node, path: seq<string>): seq<Entry>
    decreases n, 1
  {
    match n.kind
    case Document => Nodes(n.content, path)
    case Mapping => Pairs(n.content, path)
    case Sequence => Items(n.content, 0, path)
    case Scalar(_) => []
    case Alias => []
  }

  function Nodes(ns: seq<Node>, path: seq<string>): seq<Entry> {
    if ns == [] then [] else Entries(ns[0], path) + Nodes(ns[1..], path)
  }

  /** Keys and values alternate; a key that is no scalar is dropped with its value. */
  function Pairs(ns: seq<Node>, path: seq<string>): seq<Entry> {
    if |ns| < 2 then []
    else if !ns[0].kind.Scalar? then Pairs(ns[2..], path)
    else
      var e := KeyEntry(ns[0], ns[1], path);
      [e] + Entries(ns[1], e.path) + Pairs(ns[2..], path)
  }

  function Items(ns: seq<Node>, i: nat, path: seq<string>): seq<Entry> {
    if ns == [] then []
    else
      var e := ItemEntry(ns[0], i, path);
      [e] + Entries(ns[0], e.path) + Items(ns[1..], i + 1, path)
  }

  function DocPrefix(i: nat): seq<string> { ["doc" + Render(i)] }

  function DocEntry(doc: Node, i: nat): Entry {
    Entry(DocPrefix(i), doc, AtLeastOne(doc.line), AtLeastOne(doc.col))
  }

  function AtLeastOne(x: int): int { if x < 1 then 1 else x }

  /** A stream of several documents puts each below an entry of its own. */
  function Docs(docs: seq<Node>, i: nat): seq<Entry> {
    if docs == [] then []
    else
      [DocEntry(docs[0], i)] + Entries(docs[0], DocPrefix(i)) + Docs(docs[1..], i + 1)
  }

  function Stream(docs: seq<Node>): seq<Entry> {
    if |docs| > 1 then Docs(docs, 0) else Nodes(docs, [])
  }

  /** Every path properly extends the given one, by segments without dots. */
  ghost predicate Below(es: seq<Entry>, path: seq<string>) {
    forall e | e in es :: path < e.path && (DotFree(path) ==> DotFree(e.path))
  }

  /**
   * Entry i is followed by exactly its value's own entries, all deeper, and then by nothing as deep as its children.
   */
  ghost predicate OwnsBlock(es: seq<Entry>, i: nat)
    requires i < |es|
  {
    var own := Entries(es[i].val, es[i].path);
    var end := i + 1 + |own|;
    end <= |es| && es[i + 1..end] == own && (end < |es| ==> |es[end].path| <= |es[i].path|)
  }

  ghost predicate AllOwn(es: seq<Entry>) {
    forall i | 0 <= i < |es| :: OwnsBlock(es, i)
  }

  /** Blocks survive concatenation with entries no deeper than the ones before. */
  lemma JoinOwn(a: seq<Entry>, b: seq<Entry>)
    requires AllOwn(a) && AllOwn(b)
    requires b != [] ==> forall e | e in a :: |b[0].path| <= |e.path|
    ensures AllOwn(a + b)
  {
    hide OwnsBlock, Entries;
    forall i | 0 <= i < |a + b| ensures OwnsBlock(a + b, i) {
      if i < |a| {
        assert OwnsBlock(a, i) && a[i] in a;
        OwnsBefore(a, b, i);
      } else {
        assert OwnsBlock(b, i - |a|);
        OwnsBehind(a, b, i - |a|);
      }
    }
  }

  lemma OwnsBefore(a: seq<Entry>, b: seq<Entry>, i: nat)
    requires i < |a| && OwnsBlock(a, i) && (b != [] ==> |b[0].path| <= |a[i].path|)
    ensures OwnsBlock(a + b, i)
  {
    hide Entries;
    var end := i + 1 + |Entries(a[i].val, a[i].path)|;
    assert (a + b)[i + 1..end] == a[i + 1..end];
  }

  lemma OwnsBehind(a: seq<Entry>, b: seq<Entry>, k: nat)
    requires k < |b| && OwnsBlock(b, k)
    ensures OwnsBlock(a + b, |a| + k)
  {
    hide Entries;
    var end := k + 1 + |Entries(b[k].val, b[k].path)|;
    assert (a + b)[|a| + k + 1..|a| + end] == b[k + 1..end];
  }

  /** An entry put before its value's entries owns them. */
  lemma HeadOwns(e: Entry)
    requires AllOwn(Entries(e.val, e.path))
    ensures AllOwn([e] + Entries(e.val, e.path))
  {
    var own := Entries(e.val, e.path);
    var es := [e] + own;
    forall i | 0 <= i < |es| ensures OwnsBlock(es, i) {
      if i == 0 {
        assert es[1..1 + |own|] == own;
      } else {
        assert OwnsBlock(own, i - 1);
        var end := i + |Entries(own[i - 1].val, own[i - 1].path)|;
        assert es[i + 1..end + 1] == own[i..end];
      }
    }
  }

  /** What every walk below a path emits. */
  ghost predicate Grown(es: seq<Entry>, path: seq<string>) {
    && AllOwn(es)
    && Below(es, path)
    && (es != [] ==> |es[0].path| == |path| + 1)
  }

  lemma GrownJoin(a: seq<Entry>, b: seq<Entry>, path: seq<string>)
    requires Grown(a, path) && Grown(b, path)
    ensures Grown(a + b, path)
  {
    JoinOwn(a, b);
  }

  lemma GrownEntry(e: Entry, path: seq<string>)
    requires path < e.path && |e.path| == |path| + 1 && (DotFree(path) ==> DotFree(e.path))
    requires Grown(Entries(e.val, e.path), e.path)
    ensures Grown([e] + Entries(e.val, e.path), path)
  {
    HeadOwns(e);
  }

  /** The walk of any node emits entries that own their blocks, all below the path it was given. */
  lemma {:induction false} EntriesGrown(n: Node, path: seq<string>)
    ensures Grown(Entries(n, path), path)
    decreases n, 1
  {
    match n.kind
    case Document => NodesGrown(n.content, path);
    case Mapping => PairsGrown(n.content, path);
    case Sequence => ItemsGrown(n.content, 0, path);
    case Scalar(_) =>
    case Alias =>
  }

  lemma {:induction false} NodesGrown(ns: seq<Node>, path: seq<string>)
    ensures Grown(Nodes(ns, path), path)
  {
    if ns != [] {
      EntriesGrown(ns[0], path);
      NodesGrown(ns[1..], path);
      GrownJoin(Entries(ns[0], path), Nodes(ns[1..], path), path);
    }
  }

  lemma {:induction false} PairsGrown(ns: seq<Node>, path: seq<string>)
    ensures Grown(Pairs(ns, path), path)
  {
    if |ns| >= 2 {
      PairsGrown(ns[2..], path);
      if ns[0].kind.Scalar? {
        var e := KeyEntry(ns[0], ns[1], path);
        EntriesGrown(ns[1], e.path);
        GrownEntry(e, path);
        GrownJoin([e] + Entries(ns[1], e.path), Pairs(ns[2..], path), path);
      }
    }
  }

  lemma {:induction false} ItemsGrown(ns: seq<Node>, i: nat, path: seq<string>)
    ensures Grown(Items(ns, i, path), path)
  {
    if ns != [] {
      var e := ItemEntry(ns[0], i, path);
      EntriesGrown(ns[0], e.path);
      GrownEntry(e, path);
      ItemsGrown(ns[1..], i + 1, path);
      GrownJoin([e] + Entries(ns[0], e.path), Items(ns[1..], i + 1, path), path);
    }
  }

  lemma {:induction false} DocsGrown(docs: seq<Node>, i: nat)
    ensures Grown(Docs(docs, i), [])
  {
    if docs != [] {
      var e := DocEntry(docs[0], i);
      EntriesGrown(docs[0], e.path);
      GrownEntry(e, []);
      DocsGrown(docs[1..], i + 1);
      GrownJoin([e] + Entries(docs[0], e.path), Docs(docs[1..], i + 1), []);
    }
  }

  /** In a whole stream, too, every entry owns its block. */
  lemma StreamOwns(docs: seq<Node>)
    ensures AllOwn(Stream(docs)) && Below(Stream(docs), [])
  {
    if |docs| > 1 { DocsGrown(docs, 0); } else { NodesGrown(docs, []); }
  }

  /** Scanning path lengths for the next same-or-shallower entry stops exactly behind the entry's subtree. */
  lemma NextIsSubtreeEnd(docs: seq<Node>, i: nat, j: nat)
    requires i < j <= |Stream(docs)|
    requires forall k | i < k < j :: |Stream(docs)[k].path| > |Stream(docs)[i].path|
    requires j < |Stream(docs)| ==> |Stream(docs)[j].path| <= |Stream(docs)[i].path|
    ensures var e := Stream(docs)[i]; Stream(docs)[i + 1..j] == Entries(e.val, e.path)
  {
    var es := Stream(docs);
    StreamOwns(docs);
    assert OwnsBlock(es, i);
    EntriesGrown(es[i].val, es[i].path);
    var own := Entries(es[i].val, es[i].path);
    var end := i + 1 + |own|;
    forall k | i < k < end ensures |es[k].path| > |es[i].path| {
      assert es[k] == own[k - i - 1];
    }
  }

  class Walker {
    var entries: seq<Entry>

    constructor ()
      ensures entries == []
    {
      entries := [];
    }

    method Walk(n: Node, path: seq<string>)
      modifies this
      ensures entries == old(entries) + Entries(n, path)
      decreases n, 1
    {
      match n.kind
      case Document => WalkNodes(n, path);
      case Mapping => WalkPairs(n, path);
      case Sequence => WalkItems(n, path);
      case Scalar(_) =>
      case Alias =>
    }

    method WalkNodes(n: Node, path: seq<string>)
      modifies this
      ensures entries == old(entries) + Nodes(n.content, path)
      decreases n, 0
    {
      hide Entries;
      for i := 0 to |n.content|
        invariant entries + Nodes(n.content[i..], path) == old(entries) + Nodes(n.content, path)
      {
        Walk(n.content[i], path);
        assert n.content[i..][1..] == n.content[i + 1..];
      }
    }

    method WalkItems(n: Node, path: seq<string>)
      modifies this
      ensures entries == old(entries) + Items(n.content, 0, path)
      decreases n, 0
    {
      hide Entries;
      for i := 0 to |n.content|
        invariant entries + Items(n.content[i..], i, path) == old(entries) + Items(n.content, 0, path)
      {
        var e := ItemEntry(n.content[i], i, path);
        entries := entries + [e];
        Walk(n.content[i], e.path);
        assert n.content[i..][1..] == n.content[i + 1..];
      }
    }

    method WalkPairs(n: Node, path: seq<string>)
      modifies this
      ensures entries == old(entries) + Pairs(n.content, path)
      decreases n, 0
    {
      var i := 0;
      while i + 1 < |n.content|
        invariant 0 <= i <= |n.content|
        invariant entries + Pairs(n.content[i..], path) == old(entries) + Pairs(n.content, path)
      {
        assert n.content[i..][2..] == n.content[i + 2..];
        if n.content[i].kind.Scalar? {
          var e := KeyEntry(n.content[i], n.content[i + 1], path);
          entries := entries + [e];
          Walk(n.content[i + 1], e.path);
        }
        i := i + 2;
      }
    }

    method WalkStream(docs: seq<Node>)
      requires entries == []
      modifies this
      ensures entries == Stream(docs)
    {
      hide *;
      RestEnds(docs);
      var multiDoc := |docs| > 1;
      for i := 0 to |docs|
        invariant entries + Rest(docs, i) == Stream(docs)
      {
        RestStep(docs, i);
        if multiDoc {
          entries := entries + [DocEntry(docs[i], i)];
        }
        Walk(docs[i], if multiDoc then DocPrefix(i) else []);
      }
    }
  }

  /** What a stream emits from document i on. */
  function Rest(docs: seq<Node>, i: nat): seq<Entry>
    requires i <= |docs|
  {
    if |docs| > 1 then Docs(docs[i..], i) else Nodes(docs[i..], [])
  }

  lemma RestEnds(docs: seq<Node>)
    ensures Rest(docs, 0) == Stream(docs) && Rest(docs, |docs|) == []
  {
    assert docs[0..] == docs;
  }

  lemma RestStep(docs: seq<Node>, i: nat)
    requires i < |docs|
    ensures Rest(docs, i) == if |docs| > 1
                             then [DocEntry(docs[i], i)] + Entries(docs[i], DocPrefix(i)) + Rest(docs, i + 1)
                             else Entries(docs[i], []) + Rest(docs, i + 1)
  {
    assert docs[i..][1..] == docs[i + 1..];
  }

  /** The first entry behind a block. */
  function BlockEnd(es: seq<Entry>, i: nat): nat
    requires i < |es|
  {
    i + 1 + |Entries(es[i].val, es[i].path)|
  }

  /** The end byte of a mapping, sequence or document entry. */
  method ContainerEnd(docs: seq<Node>, es: seq<Entry>, i: nat, offsets: seq<nat>, sourceLen: nat) returns (end: nat)
    requires es == Stream(docs) && i < |es|
    ensures BlockEnd(es, i) <= |es|
    ensures end == if BlockEnd(es, i) < |es| then LineColToOffset(offsets, es[BlockEnd(es, i)].line, 1, sourceLen)
            else sourceLen
  {
    var j := i + 1;
    while j < |es| && |es[j].path| > |es[i].path|
      invariant i < j <= |es|
      invariant forall k | i < k < j :: |es[k].path| > |es[i].path|
    {
      j := j + 1;
    }
    NextIsSubtreeEnd(docs, i, j);
    end := if j < |es| then LineColToOffset(offsets, es[j].line, 1, sourceLen) else sourceLen;
  }

  /** Where 1-based line `line` ends. */
  function LineEnd(offsets: seq<nat>, line: nat, sourceLen: nat): nat {
    if line < |offsets| then offsets[line] else sourceLen
  }

  /** Column `col` holds the first byte of the line that is neither margin nor line break. */
  ghost predicate TextAt(source: string, from: nat, to: nat, col: nat) {
    && 1 <= col && from + col <= to <= |source|
    && !Margin(source[from + col - 1]) && source[from + col - 1] !in ['\n', '\r']
    && forall p | from <= p < from + col - 1 :: Margin(source[p])
  }

  method FirstColumn(source: string, from: nat, to: nat) returns (col: nat)
    requires to <= |source|
    ensures col > 0 ==> TextAt(source, from, to, col)
    ensures col == 0 ==> forall c: nat :: !TextAt(source, from, to, c)
  {
    var i := from;
    while i < to
      invariant from <= i
      invariant forall p | from <= p < i && p < to :: Margin(source[p])
    {
      if source[i] == '\n' || source[i] == '\r' {
        assert forall c: nat :: TextAt(source, from, to, c) ==> from + c - 1 == i;
        return 0;
      }
      if !Margin(source[i]) { return i - from + 1; }
      i := i + 1;
    }
    return 0;
  }

  /** A line whose text starts no deeper than the key: it ends a block scalar. */
  ghost predicate Outdented(source: string, offsets: seq<nat>, line: nat, keyCol: int)
    requires 1 <= line <= |offsets|
  {
    exists c: nat :: c <= keyCol && Indent(source, offsets, line, c)
  }

  /** The text of a 1-based line starts at column `col`. */
  ghost predicate Indent(source: string, offsets: seq<nat>, line: nat, col: nat)
    requires 1 <= line <= |offsets|
  {
    TextAt(source, offsets[line - 1], LineEnd(offsets, line, |source|), col)
  }

  /** A block scalar runs to the first outdented line below its key, any other scalar to the end of the key's line. */
  ghost predicate IsScalarEnd(source: string, offsets: seq<nat>, block: bool, keyLine: nat, keyCol: int, end: nat) {
    if !block then end == LineEnd(offsets, keyLine, |source|)
    else
      var col := AtLeastOne(keyCol);
      || (end == |source| && forall line | keyLine < line <= |offsets| :: !Outdented(source, offsets, line, col))
      || (exists line | keyLine < line <= |offsets| ::
            && end == offsets[line - 1] && Outdented(source, offsets, line, col)
            && forall m | keyLine < m < line :: !Outdented(source, offsets, m, col))
  }

  method ScalarEnd(source: string, offsets: seq<nat>, block: bool, keyLine: nat, keyCol: int) returns (end: nat)
    requires IsLineIndex(source, offsets)
    ensures IsScalarEnd(source, offsets, block, keyLine, keyCol, end)
  {
    if !block { return LineEnd(offsets, keyLine, |source|); }
    var keyCol := AtLeastOne(keyCol);
    var line := keyLine + 1;
    while line - 1 < |offsets|
      invariant keyLine < line
      invariant forall m | keyLine < m < line && m <= |offsets| :: !Outdented(source, offsets, m, keyCol)
    {
      var from, to := offsets[line - 1], LineEnd(offsets, line, |source|);
      assert from in offsets && (line < |offsets| ==> to in offsets);
      var col := FirstColumn(source, from, to);
      assert col > 0 ==> Indent(source, offsets, line, col);
      if 0 < col <= keyCol {
        assert Outdented(source, offsets, line, keyCol);
        return from;
      }
      line := line + 1;
    }
    return |source|;
  }

  /** Two entries of a stream share a qualified name only if they share the path. */
  lemma NamesArePaths(docs: seq<Node>, i: nat, j: nat)
    requires i < |Stream(docs)| && j < |Stream(docs)|
    ensures var es := Stream(docs); Join(es[i].path) == Join(es[j].path) <==> es[i].path == es[j].path
  {
    var es := Stream(docs);
    StreamOwns(docs);
    assert es[i] in es && es[j] in es;
    if Join(es[i].path) == Join(es[j].path) { JoinInjective(es[i].path, es[j].path); }
  }

  /** Keys keep their characters but dots, slashes and blanks, which become underscores. */
  lemma SanitizeIff(key: string)
    ensures forall i | 0 <= i < |key| ::
              Sanitize(key)[i] == if key[i] == '.' || key[i] == '/' || key[i] == ' ' then '_' else key[i]
    ensures Sanitize(key) == key <==> forall i | 0 <= i < |key| :: key[i] != '.' && key[i] != '/' && key[i] != ' '
  {
    if Sanitize(key) == key {
      forall i | 0 <= i < |key| ensures key[i] != '.' && key[i] != '/' && key[i] != ' ' {
        assert Sanitize(key)[i] == key[i];
      }
    }
  }

  /** The entry is the value of this key, or below it. */
  predicate UnderKey(key: Node, val: Node, path: seq<string>, e: Entry) {
    var p := path + [Sanitize(key.value)];
    key.kind.Scalar? && (e == Entry(p, val, key.line, key.col) || e in Entries(val, p))
  }

  /** The entry is item i of a sequence, or below it. */
  predicate UnderItem(item: Node, i: nat, path: seq<string>, e: Entry) {
    var p := path + [Render(i)];
    e == Entry(p, item, item.line, item.col) || e in Entries(item, p)
  }

  /** Keys and values alternate. */
  predicate PairAt(ns: seq<Node>, m: nat, path: seq<string>, e: Entry) {
    2 * m + 1 < |ns| && UnderKey(ns[2 * m], ns[2 * m + 1], path, e)
  }

  predicate ItemAt(ns: seq<Node>, m: nat, from: nat, path: seq<string>, e: Entry) {
    m < |ns| && UnderItem(ns[m], from + m, path, e)
  }

  predicate DocAt(docs: seq<Node>, m: nat, from: nat, e: Entry) {
    m < |docs| && UnderDoc(docs[m], from + m, e)
  }

  /** The entry of document i of several, or one below it. */
  predicate UnderDoc(doc: Node, i: nat, e: Entry) {
    var p := ["doc" + Render(i)];
    || e == Entry(p, doc, if doc.line < 1 then 1 else doc.line, if doc.col < 1 then 1 else doc.col)
    || e in Entries(doc, p)
  }

  lemma PairShift(ns: seq<Node>, m: nat, path: seq<string>, e: Entry)
    requires |ns| >= 2
    ensures PairAt(ns[2..], m, path, e) <==> PairAt(ns, m + 1, path, e)
  {
    hide UnderKey;
    assert 2 * m + 1 < |ns| - 2 ==> ns[2..][2 * m] == ns[2 * (m + 1)] && ns[2..][2 * m + 1] == ns[2 * (m + 1) + 1];
  }

  lemma {:induction false} PairsIff(ns: seq<Node>, path: seq<string>, e: Entry)
    ensures e in Pairs(ns, path) <==> exists m: nat :: PairAt(ns, m, path, e)
    decreases |ns|
  {
    if |ns| >= 2 {
      hide *;
      PairsIff(ns[2..], path, e);
      FirstPair(ns, path, e);
      if m: nat :| PairAt(ns, m, path, e) && m > 0 { PairShift(ns, m - 1, path, e); }
      if m: nat :| PairAt(ns[2..], m, path, e) { PairShift(ns, m, path, e); }
    }
  }

  lemma FirstPair(ns: seq<Node>, path: seq<string>, e: Entry)
    requires |ns| >= 2
    ensures e in Pairs(ns, path) <==> PairAt(ns, 0, path, e) || e in Pairs(ns[2..], path)
  {
    hide Entries;
  }

  lemma ItemShift(ns: seq<Node>, m: nat, from: nat, path: seq<string>, e: Entry)
    requires ns != []
    ensures ItemAt(ns[1..], m, from + 1, path, e) <==> ItemAt(ns, m + 1, from, path, e)
  {
    hide UnderItem;
  }

  lemma {:induction false} ItemsIff(ns: seq<Node>, from: nat, path: seq<string>, e: Entry)
    ensures e in Items(ns, from, path) <==> exists m: nat :: ItemAt(ns, m, from, path, e)
    decreases |ns|
  {
    if ns != [] {
      hide *;
      ItemsIff(ns[1..], from + 1, path, e);
      FirstItem(ns, from, path, e);
      if m: nat :| ItemAt(ns, m, from, path, e) && m > 0 { ItemShift(ns, m - 1, from, path, e); }
      var next := from + 1;
      if m: nat :| ItemAt(ns[1..], m, next, path, e) { ItemShift(ns, m, from, path, e); }
    }
  }

  lemma FirstItem(ns: seq<Node>, from: nat, path: seq<string>, e: Entry)
    requires ns != []
    ensures e in Items(ns, from, path) <==> ItemAt(ns, 0, from, path, e) || e in Items(ns[1..], from + 1, path)
  {
    hide Entries;
  }

  lemma {:induction false} NodesIff(ns: seq<Node>, path: seq<string>, e: Entry)
    ensures e in Nodes(ns, path) <==> exists m :: 0 <= m < |ns| && e in Entries(ns[m], path)
    decreases |ns|
  {
    hide Entries;
    if ns != [] { NodesIff(ns[1..], path, e); }
  }

  /**
   * The entries are the values of scalar keys, with the key's position, and the items of sequences, numbered from 0,
   * and what is below them; a document adds nothing of its own.
   */
  lemma EntriesIff(n: Node, path: seq<string>, e: Entry)
    ensures e in Entries(n, path) <==>
            match n.kind
            case Document => exists m :: 0 <= m < |n.content| && e in Entries(n.content[m], path)
            case Mapping => exists m: nat :: PairAt(n.content, m, path, e)
            case Sequence => exists m: nat :: ItemAt(n.content, m, 0, path, e)
            case _ => false
  {
    NodesIff(n.content, path, e);
    PairsIff(n.content, path, e);
    ItemsIff(n.content, 0, path, e);
    hide PairAt, ItemAt;
  }

  lemma DocShift(docs: seq<Node>, m: nat, from: nat, e: Entry)
    requires docs != []
    ensures DocAt(docs[1..], m, from + 1, e) <==> DocAt(docs, m + 1, from, e)
  {
    hide UnderDoc;
  }

  lemma {:induction false} DocsIff(docs: seq<Node>, from: nat, e: Entry)
    ensures e in Docs(docs, from) <==> exists m: nat :: DocAt(docs, m, from, e)
    decreases |docs|
  {
    if docs != [] {
      hide *;
      DocsIff(docs[1..], from + 1, e);
      FirstDoc(docs, from, e);
      if m: nat :| DocAt(docs, m, from, e) && m > 0 { DocShift(docs, m - 1, from, e); }
      var next := from + 1;
      if m: nat :| DocAt(docs[1..], m, next, e) { DocShift(docs, m, from, e); }
    }
  }

  lemma FirstDoc(docs: seq<Node>, from: nat, e: Entry)
    requires docs != []
    ensures e in Docs(docs, from) <==> DocAt(docs, 0, from, e) || e in Docs(docs[1..], from + 1)
  {
    hide Entries;
  }

  /** Of several documents each has an entry of its own, numbered from 0; a single one has none. */
  lemma StreamIff(docs: seq<Node>, e: Entry)
    ensures |docs| > 1 ==> (e in Stream(docs) <==> exists m: nat :: DocAt(docs, m, 0, e))
    ensures |docs| == 1 ==> (e in Stream(docs) <==> e in Entries(docs[0], []))
    ensures docs == [] ==> Stream(docs) == []
  {
    DocsIff(docs, 0, e);
    NodesIff(docs, [], e);
    hide DocAt, Entries;
  }

  /** A line ends a block scalar if its first byte that is no blank or tab is no line break and not right of the key. */
  lemma OutdentedIff(source: string, offsets: seq<nat>, line: nat, keyCol: int)
    requires 1 <= line <= |offsets|
    ensures Outdented(source, offsets, line, keyCol)
            <==>
            var from, to := offsets[line - 1], if line < |offsets| then offsets[line] else |source|;
            exists p | from <= p < to ::
              && to <= |source| && p - from + 1 <= keyCol
              && source[p] != ' ' && source[p] != '\t' && source[p] != '\n' && source[p] != '\r'
              && forall q | from <= q < p :: source[q] == ' ' || source[q] == '\t'
  {
    var from, to := offsets[line - 1], LineEnd(offsets, line, |source|);
    if c: nat :| c <= keyCol && Indent(source, offsets, line, c) {
      var p := from + c - 1;
      assert TextAt(source, from, to, c) && from <= p < to;
    }
    if p :| && from <= p < to && to <= |source| && p - from + 1 <= keyCol
            && source[p] !in [' ', '\t', '\n', '\r'] && forall q | from <= q < p :: source[q] in [' ', '\t'] {
      var c := p - from + 1;
      assert TextAt(source, from, to, c) && Indent(source, offsets, line, c);
    }
  }
}
