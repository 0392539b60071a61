/** `%d`. */
module Decimal {

  function Digit(d: nat): char
    requires d < 10
  {
    ('0' as int + d) as char
  }

  predicate IsDigit(c: char) { '0' <= c <= '9' }

  function Natural(n: nat): (s: string)
    ensures s != "" && forall i | 0 <= i < |s| :: IsDigit(s[i])
  {
    if n < 10 then [Digit(n)] else Natural(n / 10) + [Digit(n % 10)]
  }

  function Render(n: int): (s: string)
    ensures s != "" && forall i | 0 <= i < |s| :: IsDigit(s[i]) || s[i] == '-'
  {
    if n < 0 then "-" + Natural(-n) else Natural(n)
  }

  lemma NaturalLength(n: nat)
    ensures |Natural(n)| == 1 <==> n < 10
    ensures n >= 10 ==> Natural(n)[..|Natural(n)| - 1] == Natural(n / 10)
    ensures Natural(n)[|Natural(n)| - 1] == Digit(n % 10)
  {
    if n >= 10 { assert |Natural(n / 10)| > 0; }
  }

  lemma {:induction false} NaturalInjective(a: nat, b: nat)
    requires Natural(a) == Natural(b)
    ensures a == b
  {
    NaturalLength(a);
    NaturalLength(b);
    if a >= 10 && b >= 10 { NaturalInjective(a / 10, b / 10); }
  }

  lemma RenderInjective(a: int, b: int)
    requires Render(a) == Render(b)
    ensures a == b
  {
    RenderSign(a);
    RenderSign(b);
    if a < 0 && b < 0 { NaturalInjective(-a, -b); }
    if a >= 0 && b >= 0 { NaturalInjective(a, b); }
  }

  lemma RenderSign(a: int)
    ensures Render(a)[0] == '-' <==> a < 0
    ensures a < 0 ==> Render(a)[1..] == Natural(-a)
  {
    if a >= 0 { assert IsDigit(Natural(a)[0]); }
  }

  function Value(s: string): int {
    if s == "" then 0 else 10 * Value(s[..|s| - 1]) + (s[|s| - 1] as int - '0' as int)
  }

  /** The digits spell the number, and there is no leading zero. */
  lemma {:induction false} NaturalValue(n: nat)
    ensures Value(Natural(n)) == n && (Natural(n)[0] == '0' <==> n == 0)
  {
    if n >= 10 {
      NaturalValue(n / 10);
      NaturalLength(n);
      assert Natural(n)[..|Natural(n)| - 1] == Natural(n / 10);
    } else {
      assert Natural(n)[..0] == "";
    }
  }
}
