/** The integer part of ParseNumber, with its 32-bit and 64-bit accumulators. */
module JsonNumbers {
  import opened Options
  import opened Powers
  import opened JsonEvents
  import opened JsonLexer
  import opened Texts

  /** The events an integer can be reported with, or that the number is left to floating point. */
  datatype Number = Int(i: int) | Uint(u: nat) | Int64(i64: int) | Uint64(u64: nat) | NotAnInteger | NoNumber

  /** The digits so far come first in the value of all of them. */
  lemma {:induction false} DigitsSplit(text: Text, i: nat, k: nat, j: nat, v: nat)
    requires i <= k <= j <= |text| && forall l :: i <= l < k ==> IsDigit(text[l])
    ensures DigitsValue(text, i, j, v) == DigitsValue(text, k, j, DigitsValue(text, i, k, v))
    decreases k - i
  {
    if i < k {
      DigitsSplit(text, i + 1, k, j, v * 10 + (text[i] - '0' as nat));
    }
  }

  lemma {:induction false} DigitsEndStep(text: Text, i: nat, k: nat)
    requires i <= k <= |text| && forall l :: i <= l < k ==> IsDigit(text[l])
    ensures DigitsEnd(text, i) == DigitsEnd(text, k)
    decreases k - i
  {
    if i < k {
      DigitsEndStep(text, i + 1, k);
    }
  }

  /** Takes digits while the next one cannot push the accumulator past `limit * 10 + last`. */
  method Accumulate(text: Text, start: nat, i: nat, acc: nat, limit: nat, last: nat) returns (j: nat, r: nat, full: bool)
    requires start <= i <= |text| && last <= 9 && limit * 10 + last < TWO64
    requires (forall l :: start <= l < i ==> IsDigit(text[l])) && acc == DigitsValue(text, start, i, 0) <= limit * 10 + last
    ensures i <= j <= DigitsEnd(text, start) && (forall l :: start <= l < j ==> IsDigit(text[l]))
    ensures r == DigitsValue(text, start, j, 0) <= limit * 10 + last
    ensures full ==> j < DigitsEnd(text, start) && DigitsValue(text, start, DigitsEnd(text, start), 0) > limit * 10 + last
    ensures !full ==> j == DigitsEnd(text, start)
  {
    j, r, full := i, acc, false;
    DigitsEndStep(text, start, i);
    while IsDigit(Peek(text, j))
      invariant i <= j <= |text| && (forall l :: start <= l < j ==> IsDigit(text[l]))
      invariant r == DigitsValue(text, start, j, 0) <= limit * 10 + last
      decreases |text| - j
    {
      DigitsEndStep(text, start, j);
      DigitsEndStep(text, start, j + 1);
      DigitsStep(text, start, j, 0);
      if r >= limit && (r != limit || text[j] > '0' as nat + last) {
        full := true;
        var e := DigitsEnd(text, start);
        DigitsSplit(text, start, j + 1, e, 0);
        DigitsGrow(text, j + 1, e, DigitsValue(text, start, j + 1, 0));
        return;
      }
      NoWrap64(r * 10 + (text[j] - '0' as nat));
      r := Wrap64(r * 10 + (text[j] - '0' as nat));
      j := j + 1;
    }
    DigitsEndStep(text, start, j);
  }

  /** The smallest integer type that takes the value. */
  function Smallest(minus: bool, v: nat): Number {
    if minus then (if v <= 0x8000_0000 then Int(0 - v) else if v <= TWO63 then Int64(0 - v) else NotAnInteger)
    else if v < TWO32 then Uint(v) else if v < TWO64 then Uint64(v) else NotAnInteger
  }

  /** Two's complement: `~x + 1` read as a signed number of that many bits. */
  function Negated(x: nat, bits: nat): int
    requires x <= bits && bits > 0
  {
    var y := (bits - x) % bits;
    if y >= bits / 2 then y - bits else y
  }

  lemma NegatedIs(x: nat)
    ensures x <= 0x8000_0000 ==> Negated(x, TWO32) == 0 - x
    ensures x <= TWO63 ==> Negated(x, TWO64) == 0 - x
  {
  }

  lemma ZeroAlone(text: Text, i: nat)
    requires i < |text| && text[i] == '0' as nat
    ensures DigitsValue(text, i, i + 1, 0) == 0
  {
  }

  lemma NoDigitsYet(text: Text, i: nat)
    requires i <= |text|
    ensures DigitsValue(text, i, i, 0) == 0
  {
  }

  /**
   * Integers of any length: the event has the exact value and the smallest of the four types,
   * and there is none exactly when the value is outside [-2^63, 2^64).
   */
  method ParseInteger(text: Text, start: nat) returns (n: Number, end: nat)
    requires start <= |text|
    ensures IntegerEnd(text, start).None? ==> n == NoNumber
    ensures IntegerEnd(text, start).Some? ==>
              var minus := Peek(text, start) == '-' as nat;
              var from := if minus then start + 1 else start;
              n == Smallest(minus, DigitsValue(text, from, IntegerEnd(text, start).value, 0))
              && (n != NotAnInteger ==> end == IntegerEnd(text, start).value)
  {
    hide DigitsValue, DigitsEnd, Negated;
    var minus := Peek(text, start) == '-' as nat;
    var s := if minus then start + 1 else start;
    end := s;
    if Peek(text, s) == '0' as nat {
      end := s + 1;
      ZeroAlone(text, s);
      return if minus then Int(0) else Uint(0), end;
    }
    if !IsDigit(Peek(text, s)) {
      return NoNumber, end;
    }
    NoDigitsYet(text, s);
    var i, full;
    end, i, full := Accumulate(text, s, s, 0, if minus then 214748364 else 429496729, if minus then 8 else 5);
    if !full {
      NegatedIs(i);
      return if minus then Int(Negated(i, TWO32)) else Uint(i), end;
    }
    var i64, big;
    end, i64, big := Accumulate(text, s, end, i, if minus then 0x0CCC_CCCC_CCCC_CCCC else 0x1999_9999_9999_9999, if minus then 8 else 5);
    if big {
      return NotAnInteger, end;
    }
    NegatedIs(i64);
    return if minus then Int64(Negated(i64, TWO64)) else Uint64(i64), end;
  }

  /** The event of ParseInteger is the one the scanner reports. */
  lemma SmallestFits(minus: bool, v: nat)
    ensures Smallest(minus, v) != NotAnInteger <==> Fits(minus, v)
    ensures match Smallest(minus, v)
            case Int(i) => minus && i == 0 - v && -0x8000_0000 <= i <= 0
            case Int64(i) => minus && i == 0 - v && -0x8000_0000_0000_0000 <= i < -0x8000_0000
            case Uint(u) => !minus && u == v && u < TWO32
            case Uint64(u) => !minus && u == v && TWO32 <= u < TWO64
            case _ => true
  {
  }
}
