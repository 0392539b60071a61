/** Source text: a Go byte slice is a string whose characters stand for byte values. */
module Text {

  predicate Margin(c: char) { c == ' ' || c == '\t' }

  predicate IsBlank(c: char) { c == ' ' || c == '\t' || c == '\r' || c == '\n' }

  /** The first byte at or after i that is not blank, or the length. */
  function NextNonBlank(source: string, i: nat): (j: nat)
    ensures i <= j && (j < |source| ==> !IsBlank(source[j]))
    ensures j == i || j <= |source|
    ensures forall k | i <= k < j :: IsBlank(source[k])
    decreases |source| - i
  {
    if i < |source| && IsBlank(source[i]) then NextNonBlank(source, i + 1) else i
  }

  /** Margins are made of blanks and tabs; blank bytes are those and line breaks of either kind. */
  lemma BlanksAre(c: char)
    ensures Margin(c) <==> c == ' ' || c == '\t'
    ensures IsBlank(c) <==> Margin(c) || c == '\n' || c == '\r'
  {
  }
}
