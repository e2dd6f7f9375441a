/** Parts of texts, by where they stand. */
module Texts {
  predicate At(text: seq<nat>, i: nat, s: seq<nat>) {
    i + |s| <= |text| && text[i..i + |s|] == s
  }

  lemma AtConcat(text: seq<nat>, i: nat, a: seq<nat>, b: seq<nat>)
    requires At(text, i, a + b)
    ensures At(text, i, a) && At(text, i + |a|, b) && i + |a| + |b| <= |text|
  {
    var w := text[i..i + |a + b|];
    assert w[..|a|] == a && w[|a|..] == b;
    assert text[i..i + |a|] == w[..|a|];
    assert text[i + |a|..i + |a| + |b|] == w[|a|..];
  }

  lemma AtJoin(text: seq<nat>, i: nat, a: seq<nat>, b: seq<nat>)
    requires At(text, i, a) && At(text, i + |a|, b)
    ensures At(text, i, a + b)
  {
    assert text[i..i + |a + b|] == text[i..i + |a|] + text[i + |a|..i + |a| + |b|];
  }

  lemma AtOne(text: seq<nat>, i: nat)
    requires i < |text|
    ensures At(text, i, [text[i]])
  {
  }

  lemma AtFits(text: seq<nat>, i: nat, s: seq<nat>)
    requires At(text, i, s)
    ensures i + |s| <= |text|
  {
  }

  // ----- Digits -----

  predicate IsDigit(c: nat) {
    '0' as nat <= c <= '9' as nat
  }

  predicate AllDigits(s: seq<nat>) {
    forall k :: 0 <= k < |s| ==> IsDigit(s[k])
  }

  /** A text of digits without a leading zero, but one digit for zero. */
  predicate PlainDigits(t: seq<nat>) {
    t != [] && AllDigits(t) && (|t| > 1 ==> t[0] != '0' as nat)
  }

  /** The value of the digits from `i` to `j`, after a prefix worth `v`. */
  function DigitsValue(text: seq<nat>, i: nat, j: nat, v: nat): nat
    requires i <= j <= |text|
    decreases j - i
  {
    if i == j || !IsDigit(text[i]) then v else DigitsValue(text, i + 1, j, v * 10 + (text[i] - '0' as nat))
  }

  lemma {:induction false} DigitsStep(text: seq<nat>, i: nat, j: nat, v: nat)
    requires i <= j < |text| && IsDigit(text[j])
    requires forall k :: i <= k < j ==> IsDigit(text[k])
    ensures DigitsValue(text, i, j + 1, v) == DigitsValue(text, i, j, v) * 10 + (text[j] - '0' as nat)
    decreases j - i
  {
    if i < j {
      DigitsStep(text, i + 1, j, v * 10 + (text[i] - '0' as nat));
    }
  }

  lemma {:induction false} DigitsGrow(text: seq<nat>, i: nat, j: nat, v: nat)
    requires i <= j <= |text|
    ensures DigitsValue(text, i, j, v) >= v
    decreases j - i
  {
    if i < j && IsDigit(text[i]) {
      DigitsGrow(text, i + 1, j, v * 10 + (text[i] - '0' as nat));
    }
  }
}
