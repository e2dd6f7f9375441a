/** Strings of decimal digits and their values. */
module Decimals {
  import opened Powers

  predicate IsDigit(c: char) {
    '0' <= c <= '9'
  }

  predicate AllDigits(s: string) {
    forall i :: 0 <= i < |s| ==> IsDigit(s[i])
  }

  function DigitValue(c: char): nat
    requires IsDigit(c)
  {
    c as nat - '0' as nat
  }

  function DecimalValue(s: string): nat
    requires AllDigits(s)
  {
    if s == [] then 0 else 10 * DecimalValue(s[..|s| - 1]) + DigitValue(s[|s| - 1])
  }

  lemma {:induction false} DecimalConcat(s: string, t: string)
    requires AllDigits(s) && AllDigits(t)
    ensures AllDigits(s + t) && DecimalValue(s + t) == DecimalValue(s) * Pow10(|t|) + DecimalValue(t)
    decreases |t|
  {
    if t == [] {
      assert s + t == s;
    } else {
      hide DecimalValue, Pow10;
      var u, d := t[..|t| - 1], t[|t| - 1];
      DecimalConcat(s, u);
      assert s + t == s + u + [d] && t == u + [d];
      LastDigit(s + u, d);
      LastDigit(u, d);
      TenTimes(DecimalValue(s), |u|);
    }
  }

  lemma LastDigit(s: string, d: char)
    requires AllDigits(s) && IsDigit(d)
    ensures AllDigits(s + [d]) && DecimalValue(s + [d]) == 10 * DecimalValue(s) + DigitValue(d)
  {
    assert (s + [d])[..|s|] == s;
  }

  lemma TenTimes(x: nat, n: nat)
    ensures x * Pow10(n + 1) == 10 * (x * Pow10(n))
  {
  }

  lemma {:induction false} DecimalBelow(s: string)
    requires AllDigits(s)
    ensures DecimalValue(s) < Pow10(|s|)
    decreases |s|
  {
    if s != [] {
      DecimalBelow(s[..|s| - 1]);
    }
  }
}
