/** Decimal text of integers, written two digits at a time: internal/itoa.h. */
module IntegerText {
  import opened Powers
  import opened Texts

  type Text = seq<nat>

  function Digit(d: nat): nat {
    '0' as nat + d
  }

  /** The shortest decimal text: no leading zero, but one digit for zero. */
  function DecimalText(n: nat): (t: Text)
    ensures t != []
  {
    if n < 10 then [Digit(n)] else DecimalText(n / 10) + [Digit(n % 10)]
  }

  function TextValue(t: Text): nat {
    DigitsValue(t, 0, |t|, 0)
  }

  lemma {:induction false} FrontValue(t: Text, i: nat, j: nat, v: nat)
    requires i <= j <= |t|
    ensures DigitsValue(t[..j], i, j, v) == DigitsValue(t, i, j, v)
    decreases j - i
  {
    if i < j && IsDigit(t[i]) {
      FrontValue(t, i + 1, j, v * 10 + (t[i] - '0' as nat));
    }
  }

  lemma OneMoreDigit(front: Text, d: nat)
    requires AllDigits(front) && d < 10
    ensures AllDigits(front + [Digit(d)]) && TextValue(front + [Digit(d)]) == 10 * TextValue(front) + d
  {
    hide DigitsValue;
    var t := front + [Digit(d)];
    DigitsStep(t, 0, |front|, 0);
    FrontValue(t, 0, |front|, 0);
    assert t[..|front|] == front;
  }

  lemma {:induction false} DecimalTextIsPlain(n: nat)
    ensures PlainDigits(DecimalText(n)) && TextValue(DecimalText(n)) == n
    ensures n > 0 ==> DecimalText(n)[0] != '0' as nat
  {
    if n < 10 {
      assert [] + [Digit(n)] == [Digit(n)];
      OneMoreDigit([], n);
    } else {
      DecimalTextIsPlain(n / 10);
      OneMoreDigit(DecimalText(n / 10), n % 10);
    }
  }

  lemma {:induction false} PlainIsDecimalText(t: Text)
    requires PlainDigits(t)
    ensures t == DecimalText(TextValue(t))
    decreases |t|
  {
    hide TextValue;
    var front, d := t[..|t| - 1], t[|t| - 1] - '0' as nat;
    assert t == front + [Digit(d)];
    OneMoreDigit(front, d);
    if front == [] {
      NoDigits();
    } else {
      PlainIsDecimalText(front);
      assert front[0] == t[0];
    }
  }

  lemma NoDigits()
    ensures TextValue([]) == 0
  {
  }

  /** The only text of digits without leading zeros that is worth `n`. */
  lemma DecimalTextIsUnique(n: nat, t: Text)
    ensures t == DecimalText(n) <==> PlainDigits(t) && TextValue(t) == n
  {
    hide TextValue, DecimalText;
    DecimalTextIsPlain(n);
    if PlainDigits(t) {
      PlainIsDecimalText(t);
    }
  }

  /** The length of the text is that of the number's magnitude. */
  lemma {:induction false} DecimalTextLength(n: nat)
    ensures n > 0 ==> Pow10(|DecimalText(n)| - 1) <= n
    ensures n < Pow10(|DecimalText(n)|)
  {
    if n < 10 {
      assert Pow10(0) == 1 && Pow10(1) == 10;
    } else {
      DecimalTextLength(n / 10);
    }
  }

  /** The last `k` digits, with leading zeros. */
  function Padded(n: nat, k: nat): (t: Text)
    ensures |t| == k
  {
    if k == 0 then [] else Padded(n / 10, k - 1) + [Digit(n % 10)]
  }

  lemma {:induction false} MoreDigits(n: nat, m: nat, k: nat)
    requires n > 0 && m < Pow10(k)
    ensures DecimalText(n * Pow10(k) + m) == DecimalText(n) + Padded(m, k)
  {
    if k == 0 {
      assert DecimalText(n) + [] == DecimalText(n);
    } else {
      var q := n * Pow10(k - 1) + m / 10;
      assert n * Pow10(k) == 10 * (n * Pow10(k - 1));
      MoreDigits(n, m / 10, k - 1);
      assert n * Pow10(k) + m == 10 * q + m % 10;
      assert q >= 1 by {
        Cancel(0, n, Pow10(k - 1));
      }
      assert DecimalText(n) + Padded(m / 10, k - 1) + [Digit(m % 10)] == DecimalText(n) + Padded(m, k);
    }
  }

  lemma {:induction false} PaddedSplits(n: nat, m: nat, j: nat, k: nat)
    requires m < Pow10(k)
    ensures Padded(n * Pow10(k) + m, j + k) == Padded(n, j) + Padded(m, k)
    decreases k
  {
    if k == 0 {
      assert Padded(n, j) + [] == Padded(n, j);
    } else {
      assert n * Pow10(k) == 10 * (n * Pow10(k - 1));
      PaddedSplits(n, m / 10, j, k - 1);
      assert n * Pow10(k) + m == 10 * (n * Pow10(k - 1) + m / 10) + m % 10;
      assert Padded(n, j) + Padded(m / 10, k - 1) + [Digit(m % 10)] == Padded(n, j) + Padded(m, k);
    }
  }

  /** The table of all pairs of digits, "000102...99". */
  function Lut(i: nat): nat {
    if i % 2 == 0 then Digit(i / 2 / 10) else Digit(i / 2 % 10)
  }

  lemma Pair(k: nat)
    requires k < 100
    ensures [Lut(2 * k), Lut(2 * k + 1)] == Padded(k, 2)
    ensures k >= 10 ==> [Lut(2 * k), Lut(2 * k + 1)] == DecimalText(k)
    ensures k < 10 ==> [Lut(2 * k + 1)] == DecimalText(k)
  {
    assert (2 * k + 1) / 2 == k && 2 * k / 2 == k;
    assert Padded(k, 2) == Padded(k / 10, 1) + [Digit(k % 10)];
    assert Padded(k / 10, 1) == Padded(k / 10 / 10, 0) + [Digit(k / 10 % 10)];
  }

  lemma SmallPowers()
    ensures Pow10(2) == 100 && Pow10(4) == 10000 && Pow10(8) == 100000000
  {
    assert Pow10(4) == 10000;
    assert Pow10(8) == 100000000;
  }

  lemma FourDigits(b: nat)
    requires b < 10000
    ensures Padded(b, 4) == Padded(b / 100, 2) + Padded(b % 100, 2)
    ensures b >= 100 ==> DecimalText(b) == DecimalText(b / 100) + Padded(b % 100, 2)
  {
    SmallPowers();
    PaddedSplits(b / 100, b % 100, 2, 2);
    if b >= 100 {
      MoreDigits(b / 100, b % 100, 2);
    }
  }

  lemma EightDigits(v: nat)
    requires v < 100000000
    ensures Padded(v, 8) == Padded(v / 10000, 4) + Padded(v % 10000, 4)
    ensures v >= 10000 ==> DecimalText(v) == DecimalText(v / 10000) + Padded(v % 10000, 4)
  {
    SmallPowers();
    PaddedSplits(v / 10000, v % 10000, 4, 4);
    if v >= 10000 {
      MoreDigits(v / 10000, v % 10000, 4);
    }
  }

  // ----- Writing through an advancing pointer -----

  method Put(buffer: array<nat>, p: nat, c: nat) returns (p': nat)
    requires p < buffer.Length
    modifies buffer
    ensures p' == p + 1 && buffer[..p'] == old(buffer[..p]) + [c]
  {
    buffer[p] := c;
    p' := p + 1;
  }

  /** Up to four digits, without leading zeros. */
  method PutUpToFour(buffer: array<nat>, p: nat, b: nat) returns (p': nat)
    requires p + 4 <= buffer.Length && b < 10000
    modifies buffer
    ensures p <= p' <= p + 4 && buffer[..p'] == old(buffer[..p]) + DecimalText(b)
  {
    hide DecimalText, Padded, Lut;
    var d1, d2 := b / 100 * 2, b % 100 * 2;
    FourDigits(b);
    Pair(b / 100);
    Pair(b % 100);
    p' := p;
    if b >= 1000 {
      p' := Put(buffer, p', Lut(d1));
    }
    if b >= 100 {
      p' := Put(buffer, p', Lut(d1 + 1));
    }
    if b >= 10 {
      p' := Put(buffer, p', Lut(d2));
    }
    p' := Put(buffer, p', Lut(d2 + 1));
  }

  /** Exactly four digits. */
  method PutFour(buffer: array<nat>, p: nat, c: nat) returns (p': nat)
    requires p + 4 <= buffer.Length && c < 10000
    modifies buffer
    ensures p' == p + 4 && buffer[..p'] == old(buffer[..p]) + Padded(c, 4)
  {
    hide DecimalText, Padded, Lut;
    var d3, d4 := c / 100 * 2, c % 100 * 2;
    FourDigits(c);
    Pair(c / 100);
    Pair(c % 100);
    p' := Put(buffer, p, Lut(d3));
    p' := Put(buffer, p', Lut(d3 + 1));
    p' := Put(buffer, p', Lut(d4));
    p' := Put(buffer, p', Lut(d4 + 1));
  }

  method PutEight(buffer: array<nat>, p: nat, v: nat) returns (p': nat)
    requires p + 8 <= buffer.Length && v < 100000000
    modifies buffer
    ensures p' == p + 8 && buffer[..p'] == old(buffer[..p]) + Padded(v, 8)
  {
    hide DecimalText, Padded;
    EightDigits(v);
    p' := PutFour(buffer, p, v / 10000);
    p' := PutFour(buffer, p', v % 10000);
  }

  /** Up to eight digits, without leading zeros. */
  method PutUpToEight(buffer: array<nat>, p: nat, v: nat) returns (p': nat)
    requires p + 8 <= buffer.Length && v < 100000000
    modifies buffer
    ensures p <= p' <= p + 8 && buffer[..p'] == old(buffer[..p]) + DecimalText(v)
  {
    hide DecimalText, Padded;
    if v < 10000 {
      p' := PutUpToFour(buffer, p, v);
    } else {
      EightDigits(v);
      p' := PutUpToFour(buffer, p, v / 10000);
      p' := PutFour(buffer, p', v % 10000);
    }
  }

  method U32toa(value: nat, buffer: array<nat>, p: nat) returns (p': nat)
    requires value < TWO32 && p + 10 <= buffer.Length
    modifies buffer
    ensures p <= p' <= p + 10 && buffer[..p'] == old(buffer[..p]) + DecimalText(value)
  {
    hide DecimalText, Padded, Lut;
    if value < 100000000 {
      p' := PutUpToEight(buffer, p, value);
    } else {
      var a, rest := value / 100000000, value % 100000000;
      SmallPowers();
      MoreDigits(a, rest, 8);
      Pair(a);
      if a >= 10 {
        p' := Put(buffer, p, Lut(2 * a));
        p' := Put(buffer, p', Lut(2 * a + 1));
      } else {
        OneDigit(a);
        p' := Put(buffer, p, Digit(a));
      }
      p' := PutEight(buffer, p', rest);
    }
  }

  lemma OneDigit(a: nat)
    requires a < 10
    ensures DecimalText(a) == [Digit(a)]
  {
  }

  lemma SixteenDigits(v: nat)
    requires v < 10000000000000000
    ensures Padded(v, 16) == Padded(v / 100000000, 8) + Padded(v % 100000000, 8)
    ensures v >= 100000000 ==> DecimalText(v) == DecimalText(v / 100000000) + Padded(v % 100000000, 8)
  {
    SmallPowers();
    PaddedSplits(v / 100000000, v % 100000000, 8, 8);
    if v >= 100000000 {
      MoreDigits(v / 100000000, v % 100000000, 8);
    }
  }

  /** The up to four digits above the lower sixteen. */
  method PutLeading(buffer: array<nat>, p: nat, a: nat) returns (p': nat)
    requires p + 4 <= buffer.Length && a < 10000
    modifies buffer
    ensures p <= p' <= p + 4 && buffer[..p'] == old(buffer[..p]) + DecimalText(a)
  {
    hide DecimalText, Padded, Lut;
    FourDigits(a);
    Pair(a / 100);
    Pair(a % 100);
    if a < 10 {
      OneDigit(a);
      p' := Put(buffer, p, Digit(a));
    } else if a < 100 {
      p' := Put(buffer, p, Lut(2 * a));
      p' := Put(buffer, p', Lut(2 * a + 1));
    } else if a < 1000 {
      OneDigit(a / 100);
      p' := Put(buffer, p, Digit(a / 100));
      p' := Put(buffer, p', Lut(a % 100 * 2));
      p' := Put(buffer, p', Lut(a % 100 * 2 + 1));
    } else {
      p' := Put(buffer, p, Lut(a / 100 * 2));
      p' := Put(buffer, p', Lut(a / 100 * 2 + 1));
      p' := Put(buffer, p', Lut(a % 100 * 2));
      p' := Put(buffer, p', Lut(a % 100 * 2 + 1));
    }
  }

  method U64toa(value: nat, buffer: array<nat>, p: nat) returns (p': nat)
    requires value < TWO64 && p + 20 <= buffer.Length
    modifies buffer
    ensures p <= p' <= p + 20 && buffer[..p'] == old(buffer[..p]) + DecimalText(value)
  {
    hide DecimalText, Padded;
    if value < 100000000 {
      p' := PutUpToEight(buffer, p, value);
    } else if value < 10000000000000000 {
      SixteenDigits(value);
      p' := PutUpToEight(buffer, p, value / 100000000);
      p' := PutEight(buffer, p', value % 100000000);
    } else {
      var a, rest := value / 10000000000000000, value % 10000000000000000;
      LeadingPart(a, rest);
      SixteenDigits(rest);
      p' := PutLeading(buffer, p, a);
      p' := PutEight(buffer, p', rest / 100000000);
      p' := PutEight(buffer, p', rest % 100000000);
    }
  }

  lemma LeadingPart(a: nat, rest: nat)
    requires a > 0 && rest < 10000000000000000
    ensures DecimalText(a * 10000000000000000 + rest) == DecimalText(a) + Padded(rest, 16)
  {
    SmallPowers();
    Pow10Add(8, 8);
    MoreDigits(a, rest, 16);
  }

  /** Decimal text with a sign. */
  function SignedText(i: int): Text {
    if i < 0 then ['-' as nat] + DecimalText(-i) else DecimalText(i)
  }

  /** `u = ~u + 1` is the magnitude, also of the smallest value. */
  method I32toa(value: int, buffer: array<nat>, p: nat) returns (p': nat)
    requires -0x8000_0000 <= value < 0x8000_0000 && p + 11 <= buffer.Length
    modifies buffer
    ensures p <= p' <= p + 11 && buffer[..p'] == old(buffer[..p]) + SignedText(value)
  {
    hide DecimalText;
    var u: nat := value % TWO32;
    p' := p;
    if value < 0 {
      p' := Put(buffer, p', '-' as nat);
      u := (TWO32 - u) % TWO32;
    }
    p' := U32toa(u, buffer, p');
  }

  method I64toa(value: int, buffer: array<nat>, p: nat) returns (p': nat)
    requires -0x8000_0000_0000_0000 <= value < 0x8000_0000_0000_0000 && p + 21 <= buffer.Length
    modifies buffer
    ensures p <= p' <= p + 21 && buffer[..p'] == old(buffer[..p]) + SignedText(value)
  {
    hide DecimalText;
    var u: nat := value % TWO64;
    p' := p;
    if value < 0 {
      p' := Put(buffer, p', '-' as nat);
      u := (TWO64 - u) % TWO64;
    }
    p' := U64toa(u, buffer, p');
  }
}
