/** Line numbers two ways: a sorted index searched by bisection, and counting newlines. */
module LineIndex {

  /** Exactly the offset 0 and every in-bounds offset that follows a newline, ascending. */
  ghost predicate IsLineIndex(source: string, offsets: seq<nat>) {
    && (forall i, j | 0 <= i < j < |offsets| :: offsets[i] < offsets[j])
    && forall p: nat :: p in offsets <==> p == 0 || (p < |source| && source[p - 1] == '\n')
  }

  method BuildLineOffsets(source: string) returns (offsets: seq<nat>)
    ensures IsLineIndex(source, offsets)
  {
    offsets := [0];
    for i := 0 to |source|
      invariant forall k | 0 <= k < |offsets| :: offsets[k] <= i
      invariant forall x, y | 0 <= x < y < |offsets| :: offsets[x] < offsets[y]
      invariant forall p: nat :: p in offsets <==> p == 0 || (p <= i && p < |source| && source[p - 1] == '\n')
    {
      if source[i] == '\n' && i + 1 < |source| {
        offsets := offsets + [i + 1];
      }
    }
  }

  /** The first r offsets, and only those, are at most `offset`. */
  ghost predicate Splits(offsets: seq<nat>, offset: int, r: nat) {
    r <= |offsets| && (forall k | 0 <= k < r :: offsets[k] <= offset) && forall k | r <= k < |offsets| ::
        offsets[k] > offset
  }

  /** Bisection; the result is the 1-based line. */
  method OffsetToLine(offsets: seq<nat>, offset: int) returns (line: nat)
    requires forall i, j | 0 <= i < j < |offsets| :: offsets[i] < offsets[j]
    ensures Splits(offsets, offset, line)
  {
    var lo, hi := 0, |offsets| - 1;
    while lo <= hi
      invariant 0 <= lo <= hi + 1 <= |offsets|
      invariant forall k | 0 <= k < lo :: offsets[k] <= offset
      invariant forall k | hi < k < |offsets| :: offsets[k] > offset
    {
      var mid := (lo + hi) / 2;
      if offsets[mid] <= offset { lo := mid + 1; } else { hi := mid - 1; }
    }
    line := hi + 1;
  }

  function Newlines(source: string, end: nat): nat
    requires end <= |source|
  {
    if end == 0 then 0 else Newlines(source, end - 1) + if source[end - 1] == '\n' then 1 else 0
  }

  /** Counts newlines before the offset, clamped to the source. */
  method ByteOffsetToLine(source: string, off: int) returns (line: nat)
    ensures line == 1 + Newlines(source, if off < 0 then 0 else if off > |source| then |source| else off)
  {
    var end := if off > |source| then |source| else off;
    line := 1;
    var i := 0;
    while i < end
      invariant 0 <= i && (i <= end || i == 0) && i <= |source|
      invariant line == 1 + Newlines(source, i)
    {
      if source[i] == '\n' { line := line + 1; }
      i := i + 1;
    }
  }

  lemma SplitStep(offsets: seq<nat>, offset: int, r: nat, r': nat)
    requires forall i, j | 0 <= i < j < |offsets| :: offsets[i] < offsets[j]
    requires Splits(offsets, offset, r) && Splits(offsets, offset + 1, r') && offset >= -1
    ensures r' == r + if offset + 1 in offsets then 1 else 0
  {
    if r' < |offsets| { assert offsets[r'] > offset + 1; }
    if r < |offsets| { assert offsets[r] > offset; }
    if r + 1 < |offsets| { assert offset + 1 < offsets[r + 1]; }
    if offset + 1 in offsets {
      var k :| 0 <= k < |offsets| && offsets[k] == offset + 1;
      assert r <= k < r';
    }
  }

  lemma {:induction false} SplitExists(offsets: seq<nat>, offset: int, n: nat) returns (r: nat)
    requires forall i, j | 0 <= i < j < |offsets| :: offsets[i] < offsets[j]
    requires n <= |offsets| && forall k | n <= k < |offsets| :: offsets[k] > offset
    ensures Splits(offsets, offset, r)
  {
    if n == 0 || offsets[n - 1] <= offset { r := n; } else { r := SplitExists(offsets, offset, n - 1); }
  }

  lemma NegativeSplit(offsets: seq<nat>, offset: int, r: nat)
    requires offset < 0 && Splits(offsets, offset, r)
    ensures r == 0
  {
    if |offsets| > 0 { assert offsets[0] >= 0; }
  }

  /** The index counts the newlines whose next byte exists. */
  lemma {:induction false} SplitIsNewlineCount(source: string, offsets: seq<nat>, off: nat, r: nat)
    requires IsLineIndex(source, offsets) && off <= |source| && Splits(offsets, off, r)
    ensures r == 1 + Newlines(source, off) - if off > 0 && off == |source| && source[off - 1] == '\n' then 1 else 0
  {
    var prev := SplitExists(offsets, off - 1, |offsets|);
    SplitStep(offsets, off - 1, prev, r);
    if off == 0 {
      NegativeSplit(offsets, -1, prev);
      assert 0 in offsets;
    } else {
      SplitIsNewlineCount(source, offsets, off - 1, prev);
      assert off - 1 < |source|;
    }
  }

  /** Bisection and counting agree at every offset but negative ones, and the end of a source that ends in a newline. */
  lemma LineNumbersAgree(source: string, offsets: seq<nat>, off: int, bisected: nat, counted: nat)
    requires IsLineIndex(source, offsets) && Splits(offsets, off, bisected)
    requires counted == 1 + Newlines(source, if off < 0 then 0 else if off > |source| then |source| else off)
    ensures bisected == counted <==> 0 <= off && !(off >= |source| > 0 && source[|source| - 1] == '\n')
  {
    if off < 0 {
      NegativeSplit(offsets, off, bisected);
    } else {
      var at := if off > |source| then |source| else off;
      forall k | 0 <= k < |offsets| ensures offsets[k] <= |source| { assert offsets[k] in offsets; }
      SplitIsNewlineCount(source, offsets, at, bisected);
    }
  }

  /** Clamped conversion from a 1-based line and column. */
  function LineColToOffset(offsets: seq<nat>, line: int, col: int, sourceLen: nat): nat {
    if line < 1 || line - 1 >= |offsets| then sourceLen
    else
      var off := offsets[line - 1] + (col - 1);
      if off > sourceLen then sourceLen else if off < 0 then 0 else off
  }

  /** A position's line and column lead back to it. */
  lemma LineColRoundTrip(source: string, offsets: seq<nat>, off: nat, line: nat)
    requires IsLineIndex(source, offsets) && off <= |source| && Splits(offsets, off, line)
    ensures 1 <= line <= |offsets| && 1 <= off - offsets[line - 1] + 1
    ensures LineColToOffset(offsets, line, off - offsets[line - 1] + 1, |source|) == off
  {
    assert 0 in offsets;
    var k :| 0 <= k < |offsets| && offsets[k] == 0;
    assert k < line;
  }

  /** Walks back to the byte after the previous newline. */
  method LineStartAt(source: string, off: int) returns (start: nat)
    ensures off < 0 ==> start == 0
    ensures off >= 0 ==> start <= off && start <= |source| && (start == 0 || source[start - 1] == '\n')
    ensures forall p | start <= p < off && p < |source| :: source[p] != '\n'
  {
    if off < 0 { return 0; }
    start := if off > |source| then |source| else off;
    while start > 0 && source[start - 1] != '\n'
      invariant 0 <= start <= off && start <= |source|
      invariant forall p | start <= p < off && p < |source| :: source[p] != '\n'
    {
      start := start - 1;
    }
  }

  /** Inside the source the line start is the index entry of the offset's line. */
  lemma LineStartIsIndexed(source: string, offsets: seq<nat>, off: nat, line: nat, start: nat)
    requires IsLineIndex(source, offsets) && off < |source| && Splits(offsets, off, line) && line >= 1
    requires start <= off && (start == 0 || source[start - 1] == '\n')
    requires forall p | start <= p < off :: source[p] != '\n'
    ensures start == offsets[line - 1]
  {
    var s := offsets[line - 1];
    assert s in offsets && start in offsets;
    assert !(start < s);
    var k :| 0 <= k < |offsets| && offsets[k] == start;
    assert k < line;
  }

  /** Positions outside the table are clamped: no such line is the end of the source, and so is what is beyond it. */
  lemma LineColClamped(offsets: seq<nat>, line: int, col: int, sourceLen: nat)
    ensures LineColToOffset(offsets, line, col, sourceLen) <= sourceLen
    ensures !(1 <= line <= |offsets|) ==> LineColToOffset(offsets, line, col, sourceLen) == sourceLen
    ensures 1 <= line <= |offsets| && 0 <= offsets[line - 1] + col - 1 <= sourceLen
            ==> LineColToOffset(offsets, line, col, sourceLen) == offsets[line - 1] + col - 1
  {
  }
}
