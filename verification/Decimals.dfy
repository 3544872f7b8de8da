/** Decimal digits of natural numbers. */
module Decimals {
  predicate IsDigit(c: char) { '0' <= c <= '9' }

  predicate AllDigits(s: string) { forall i :: 0 <= i < |s| ==> IsDigit(s[i]) }

  function DigitsValue(s: string): nat
    requires AllDigits(s)
  {
    if s == "" then 0
    else
      assert IsDigit(s[|s| - 1]);
      DigitsValue(s[..|s| - 1]) * 10 + (s[|s| - 1] as int - '0' as int)
  }

  function Digit(d: int): char
    requires 0 <= d < 10
  {
    "0123456789"[d]
  }

  function Digits(n: nat): (s: string)
    ensures s != ""
  {
    (if n < 10 then "" else Digits(n / 10)) + [Digit(n % 10)]
  }

  lemma OneMore(s: string, d: int)
    requires AllDigits(s) && 0 <= d < 10
    ensures AllDigits(s + [Digit(d)]) && DigitsValue(s + [Digit(d)]) == DigitsValue(s) * 10 + d
  {
    assert (s + [Digit(d)])[..|s|] == s;
  }

  lemma {:induction false} DigitsAre(n: nat)
    ensures AllDigits(Digits(n)) && DigitsValue(Digits(n)) == n && (n > 0 ==> Digits(n)[0] != '0')
    decreases n
  {
    hide AllDigits, DigitsValue;
    if n >= 10 {
      DigitsAre(n / 10);
      OneMore(Digits(n / 10), n % 10);
    } else {
      NoDigits();
      OneMore("", n);
      assert "" + [Digit(n)] == [Digit(n)];
    }
  }

  lemma NoDigits()
    ensures AllDigits("") && DigitsValue("") == 0
  {}

  lemma {:induction false} DigitsShort(n: nat, k: nat)
    requires k >= 1 && n < Power10(k)
    ensures |Digits(n)| <= k
    decreases k
  {
    if n >= 10 { DigitsShort(n / 10, k - 1); }
  }

  function Power10(k: nat): nat { if k == 0 then 1 else 10 * Power10(k - 1) }
}
