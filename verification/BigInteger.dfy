/** The multi-word integer of internal/biginteger.h, changed in place. */
module BigIntegers {
  import opened Powers
  import opened Limbs
  import opened Decimals

  /** 3328 / sizeof(uint64_t): the source divides a bit count by a byte count. */
  const CAPACITY: nat := 416

  const POWERS_OF_FIVE: seq<nat> :=
    [5, 25, 125, 625, 3125, 15625, 78125, 390625, 1953125, 9765625, 48828125, 244140625]

  lemma SmallPower(e: nat)
    requires 1 <= e <= 12
    ensures POWERS_OF_FIVE[e - 1] == Pow5(e) < TWO32
  {
    assert Pow5(6) == 15625;
    assert Pow5(12) == 15625 * Pow5(6) by {
      Pow5Add(6, 6);
    }
    assert Pow5(11) == 3125 * Pow5(6) by {
      Pow5Add(5, 6);
    }
    assert Pow5(10) == 625 * Pow5(6) by {
      Pow5Add(4, 6);
    }
  }

  lemma PowersOfFive()
    ensures Pow5(0) == 1 && Pow5(13) == 1220703125 && Pow5(27) == 0x6765_C793_FA10_079D
  {
    SmallPower(12);
    assert Pow5(13) == 5 * Pow5(12);
    Pow5Add(13, 13);
    assert Pow5(27) == 5 * Pow5(26);
  }

  /** A power of five that divides the whole product can be multiplied in first. */
  lemma FactorOut(v: nat, a: nat, b: nat)
    ensures v * Pow5(a + b) == v * Pow5(a) * Pow5(b)
    ensures v * Pow5(a) <= v * Pow5(a + b)
  {
    Pow5Add(a, b);
    Associate(v, Pow5(a), Pow5(b));
    Grows(v * Pow5(a), Pow5(b));
  }

  lemma ShorterIsLess(s: seq<nat>, t: seq<nat>)
    requires Normal(s) && Normal(t) && |s| < |t|
    ensures ValueOf(s) < ValueOf(t)
  {
    ValueBelow(s);
    BaseGrows(|s|, |t| - 1);
    NormalAtLeast(t);
  }

  lemma LongerIsNotLess(s: seq<nat>, t: seq<nat>)
    requires Normal(s) && Normal(t) && ValueOf(s) > ValueOf(t)
    ensures |s| >= |t|
  {
    if |s| < |t| {
      ShorterIsLess(s, t);
    }
  }

  lemma DifferenceWordIs(s: seq<nat>, t: seq<nat>, i: nat, borrow: nat)
    requires Words(s) && Words(t) && i < |s| && borrow <= 1
    ensures DifferenceWord(s[i], WordOr0(t, i), borrow) ==
            if i < |t| then ((s[i] - borrow) % TWO64 - t[i]) % TWO64 else (s[i] - borrow) % TWO64
  {
  }

  /** What a subtraction of two different numbers leaves: too much by what was lost, and exact only if nothing was. */
  ghost predicate Subtraction(x: nat, y: nat, r: nat) {
    var hi, lo := if x > y then x else y, if x > y then y else x;
    && r == hi - lo + Lost(hi, lo)
    && (r == hi - lo <==> !LosesBorrow(hi, lo))
    && (LosesBorrow(hi, lo) ==> r >= hi - lo + TWO64 * TWO64)
  }

  lemma SubtractionDone(s: seq<nat>, t: seq<nat>, d: seq<nat>, top: nat, since: nat, borrow: nat, lost: nat)
    requires Words(s) && Words(t) && Words(d) && |d| == |s| >= |t| && ValueOf(s) > ValueOf(t)
    requires Subtracted(s, t, d, |s|, borrow, lost) && Losing(ValueOf(s), ValueOf(t), since, |s|, borrow, lost)
    requires top <= |d| && (top > 0 ==> d[top - 1] != 0) && forall j :: top <= j < |d| ==> d[j] == 0
    ensures top > 0 && Normal(d[..top])
    ensures Subtraction(ValueOf(s), ValueOf(t), ValueOf(d[..top]))
    ensures Subtraction(ValueOf(t), ValueOf(s), ValueOf(d[..top]))
  {
    hide ValueOf, LosesBorrow, Lost, Losing;
    SubtractEnd(s, t, d, borrow, lost);
    LosingEnd(ValueOf(s), t, since, |s|, borrow, lost);
    LostBorrow(ValueOf(s), ValueOf(t));
    assert d[..|s|] == d;
    TopZeros(d, top);
    NoWords(d);
  }

  lemma NoDigits(s: string)
    requires AllDigits(s)
    ensures AllDigits(s[..0]) && DecimalValue(s[..0]) == 0
  {
  }

  lemma TenTo19()
    ensures Pow10(19) == 10000000000000000000 < TWO64
  {
    assert Pow10(9) == 1000000000;
    Pow10Add(9, 9);
    assert Pow10(19) == 10 * Pow10(18);
  }

  /** `k` chunks of 19 digits fit `k` words. */
  lemma {:induction false} ChunksFit(k: nat)
    ensures Pow10(19 * k) <= Base(k)
  {
    if k > 0 {
      ChunksFit(k - 1);
      Pow10Add(19, 19 * (k - 1));
      TenTo19();
      Cancel(Pow10(19), TWO64, Pow10(19 * (k - 1)));
      Cancel(Pow10(19 * (k - 1)), Base(k - 1), TWO64);
    }
  }

  lemma ChunksBelow(s: string, k: nat)
    requires AllDigits(s) && |s| <= 19 * k
    ensures DecimalValue(s) < Base(k)
  {
    DecimalBelow(s);
    Pow10Grows(|s|, 19 * k);
    ChunksFit(k);
  }

  lemma ChunkStart(s: string, i: nat, k: nat)
    requires AllDigits(s) && i == 19 * k <= |s|
    ensures AllDigits(s[..i]) && DecimalValue(s[..i]) < Base(k + 1)
  {
    ChunksBelow(s[..i], k);
    BaseGrows(k, k + 1);
  }

  lemma ChunkEnd(s: string, i: nat, j: nat)
    requires AllDigits(s) && i <= j <= |s|
    ensures AllDigits(s[..i]) && AllDigits(s[i..j]) && AllDigits(s[..j])
    ensures DecimalValue(s[..j]) == DecimalValue(s[..i]) * Pow10(j - i) + DecimalValue(s[i..j])
  {
    DecimalConcat(s[..i], s[i..j]);
    assert s[..i] + s[i..j] == s[..j];
  }

  /** The value of at most 19 digits, in a word. */
  method ParseUint64(s: string) returns (r: nat)
    requires AllDigits(s) && |s| <= 19
    ensures r == DecimalValue(s) < TWO64
  {
    hide Pow10;
    r := 0;
    TenTo19();
    for i := 0 to |s|
      invariant AllDigits(s[..i]) && r == DecimalValue(s[..i])
    {
      assert s[..i + 1][..i] == s[..i];
      DecimalBelow(s[..i + 1]);
      Pow10Grows(i + 1, 19);
      NoWrap64(r * 10 + DigitValue(s[i]));
      r := Wrap64(r * 10 + DigitValue(s[i]));
    }
    assert s[..|s|] == s;
    DecimalBelow(s);
    Pow10Grows(|s|, 19);
  }

  /** A chunk multiplied in needs at most one word more. */
  lemma ChunkFits(v: nat, e: nat, n: nat, u: nat)
    requires e <= 19 && v < Base(n) && n + 2 <= CAPACITY && u < TWO64
    ensures v * Pow5(e) < Base(n + 1) && Base(n + 1) <= Base(CAPACITY)
    ensures v * Pow5(e) * Pow2(e) == v * Pow10(e) && v * Pow10(e) + u < Base(CAPACITY)
  {
    hide Base, Pow5, Pow2, Pow10;
    Pow10Splits(e);
    Associate(v, Pow5(e), Pow2(e));
    TenTo19();
    Pow10Grows(e, 19);
    Grows(Pow5(e), Pow2(e));
    BaseNext(n);
    ProductUnder(v, Pow5(e), Base(n));
    ProductUnder(v, Pow10(e), Base(n));
    BaseGrows(n + 1, CAPACITY);
    BaseNext(n + 1);
    BaseGrows(n + 2, CAPACITY);
    BaseGrows(1, n + 1);
    OneWord(0);
  }

  lemma ProductUnder(v: nat, x: nat, p: nat)
    requires v < p && x < TWO64
    ensures v * x < TWO64 * p
  {
    Cancel(x, TWO64, p);
    if v > 0 {
      ProductBelowBoth(v, p, x);
    }
    assert x * p < TWO64 * p;
  }

  lemma ProductBelowBoth(v: nat, p: nat, x: nat)
    requires v <= p
    ensures v * x <= x * p
  {
  }

  class BigInteger {
    const digits: array<nat>
    var count: nat

    ghost predicate Valid()
      reads this, digits
    {
      digits.Length == CAPACITY && 1 <= count <= CAPACITY && Normal(digits[..count])
    }

    ghost function Value(): nat
      requires Valid()
      reads this, digits
    {
      ValueOf(digits[..count])
    }

    constructor (u: nat)
      requires u < TWO64
      ensures Valid() && Value() == u && fresh(digits) && count == 1
    {
      digits := new nat[CAPACITY];
      count := 1;
      new;
      digits[0] := u;
      OneWord(u);
      assert digits[..1] == [u];
    }

    /** The value as it was before is still there. */
    constructor Copy(rhs: BigInteger)
      requires rhs.Valid()
      ensures Valid() && Value() == rhs.Value() && fresh(digits) && count == rhs.count
    {
      digits := new nat[CAPACITY];
      count := rhs.count;
      new;
      forall i | 0 <= i < count {
        digits[i] := rhs.digits[i];
      }
      assert digits[..count] == rhs.digits[..count];
    }

    method AssignWord(u: nat)
      requires Valid() && u < TWO64
      modifies this, digits
      ensures Valid() && Value() == u && count == 1
    {
      digits[0] := u;
      count := 1;
      OneWord(u);
      assert digits[..1] == [u];
    }

    predicate IsWord(u: nat)
      requires Valid()
      reads this, digits
      ensures IsWord(u) && u < TWO64 ==> Value() == u
    {
      OneWord(digits[0]);
      assert count == 1 ==> digits[..count] == [digits[0]];
      count == 1 && digits[0] == u
    }

    method PushBack(w: nat)
      requires digits.Length == CAPACITY && count < CAPACITY
      modifies this`count, digits
      ensures count == old(count) + 1 && digits[..count] == old(digits[..count]) + [w]
    {
      digits[count] := w;
      count := count + 1;
    }

    /** `*this += u` */
    method Increase(u: nat)
      requires Valid() && u < TWO64 && Value() + u < Base(CAPACITY)
      modifies this, digits
      ensures Valid() && Value() == old(Value()) + u
    {
      hide ValueOf, Base, Normal, Wrap64;
      ghost var s := digits[..count];
      NormalWords(s);
      var backup := digits[0];
      WrapSum(digits[0], u);
      digits[0] := Wrap64(digits[0] + u);
      var i := 0;
      FirstWord(s, digits[..count], u);
      while i < count - 1
        invariant 0 <= i < count == |s| && Words(digits[..count]) && backup == s[i]
        invariant forall j :: i < j < count ==> digits[j] == s[j]
        invariant ValueOf(digits[..count][..i + 1]) + (if digits[i] < backup then Base(i + 1) else 0) == ValueOf(s[..i + 1]) + u
      {
        if digits[i] >= backup {
          Carried(s, digits[..count], i + 1, u);
          return;
        }
        backup := digits[i + 1];
        WrapSum(digits[i + 1], 1);
        ghost var before := digits[..count];
        digits[i + 1] := Wrap64(digits[i + 1] + 1);
        CarryOn(s, before, digits[..count], i + 1, u);
        i := i + 1;
      }
      ghost var t := digits[..count];
      assert t[..i + 1] == t && s[..i + 1] == s;
      if digits[count - 1] < backup {
        CarryFits(t, s, u);
        PushBack(1);
      } else {
        NormalAfter(s, t);
      }
    }

    /** `*this *= u` for a 64-bit factor */
    method Multiply(u: nat)
      requires Valid() && u < TWO64 && Value() * u < Base(CAPACITY)
      modifies this, digits
      ensures Valid() && Value() == old(Value()) * u
    {
      hide ValueOf, Base, Normal, MulAdd64;
      if u == 0 {
        AssignWord(0);
        return;
      }
      if u == 1 {
        return;
      }
      if IsWord(1) {
        AssignWord(u);
        return;
      }
      ghost var s := digits[..count];
      NormalWords(s);
      var k := 0;
      NoWords(s);
      for i := 0 to count
        invariant count == |s| && 0 <= k < TWO64 && Words(digits[..count])
        invariant forall j :: i <= j < count ==> digits[j] == s[j]
        invariant ValueOf(digits[..count][..i]) + k * Base(i) == ValueOf(s[..i]) * u
      {
        ghost var before := digits[..count];
        MulAdd64Exact(digits[i], u, k);
        var (lo, hi) := MulAdd64(digits[i], u, k);
        digits[i] := lo;
        ProductWord(s, before, digits[..count], i, u, k, hi);
        k := hi;
      }
      FinishProduct(s, u, k);
    }

    /** `*this *= u` for a 32-bit factor */
    method MultiplySmall(u: nat)
      requires Valid() && u < TWO32 && Value() * u < Base(CAPACITY)
      modifies this, digits
      ensures Valid() && Value() == old(Value()) * u
    {
      hide ValueOf, Base, Normal, MulAdd32;
      if u == 0 {
        AssignWord(0);
        return;
      }
      if u == 1 {
        return;
      }
      if IsWord(1) {
        AssignWord(u);
        return;
      }
      ghost var s := digits[..count];
      NormalWords(s);
      var k := 0;
      NoWords(s);
      for i := 0 to count
        invariant count == |s| && 0 <= k < TWO32 && Words(digits[..count])
        invariant forall j :: i <= j < count ==> digits[j] == s[j]
        invariant ValueOf(digits[..count][..i]) + k * Base(i) == ValueOf(s[..i]) * u
      {
        ghost var before := digits[..count];
        MulAdd32Exact(digits[i], u, k);
        var (lo, hi) := MulAdd32(digits[i], u, k);
        digits[i] := lo;
        ProductWord(s, before, digits[..count], i, u, k, hi);
        k := hi;
      }
      FinishProduct(s, u, k);
    }

    /** The carry out of the last word becomes a word of its own. */
    method FinishProduct(ghost s: seq<nat>, ghost u: nat, k: nat)
      requires digits.Length == CAPACITY && 1 <= count == |s| <= CAPACITY && Normal(s) && u > 1 && k < TWO64
      requires Words(digits[..count]) && ValueOf(s) * u < Base(CAPACITY)
      requires ValueOf(digits[..count][..count]) + k * Base(count) == ValueOf(s[..count]) * u
      modifies this`count, digits
      ensures Valid() && Value() == ValueOf(s) * u
    {
      hide ValueOf, Base, Normal;
      ghost var t := digits[..count];
      assert t[..count] == t && s[..count] == s;
      LastCarry(s, t, u, k, CAPACITY);
      if k > 0 {
        PushBack(k);
      }
    }

    /** `memset` of the low words. */
    method ClearLow(n: nat)
      requires n <= digits.Length
      modifies digits
      ensures forall i :: 0 <= i < n ==> digits[i] == 0
      ensures forall i :: n <= i < digits.Length ==> digits[i] == old(digits[i])
    {
      forall i | 0 <= i < n {
        digits[i] := 0;
      }
    }

    /** The words move up by `offset`; the part of the shift within a word is done on the way down. */
    method ShiftWords(offset: nat, h: nat, l: nat)
      requires digits.Length == CAPACITY && 1 <= count && count + offset < CAPACITY && h > 0 && l > 0
      modifies digits
      ensures forall j :: 0 <= j <= count ==> digits[j + offset] == ShiftedWord(old(digits[..count]), j, h, l)
    {
      hide ShiftedWord;
      ghost var s := digits[..count];
      digits[count] := 0;
      var i := count;
      while i > 0
        invariant 0 <= i <= count
        invariant forall j :: 0 <= j <= i && j < count ==> digits[j] == s[j]
        invariant i == count ==> digits[count] == 0
        invariant forall j :: i < j <= count ==> digits[j + offset] == ShiftedWord(s, j, h, l)
      {
        ShiftedWordIs(s, i, h, l);
        digits[i + offset] := Wrap64(digits[i] * h) + digits[i - 1] / l;
        i := i - 1;
      }
      ShiftedWordIs(s, 0, h, l);
      digits[offset] := Wrap64(digits[0] * h);
    }

    /** A shift by whole words. */
    method ShiftWhole(offset: nat)
      requires Valid() && Value() > 0 && count + offset <= CAPACITY
      modifies this, digits
      ensures Valid() && Value() == Base(offset) * (old(Value()) * 1)
    {
      hide ValueOf, Base, Normal;
      ghost var s := digits[..count];
      forall i | 0 <= i < count {
        digits[i + offset] := digits[i];
      }
      count := count + offset;
      ClearLow(offset);
      MovedUp(s, digits[..count], offset);
    }

    /** A shift by whole words and some bits. */
    method ShiftBits(offset: nat, h: nat, l: nat)
      requires Valid() && Value() > 0 && count + offset < CAPACITY && h > 0 && l > 0 && h * l == TWO64
      modifies this, digits
      ensures Valid() && Value() == Base(offset) * (old(Value()) * h)
    {
      hide ValueOf, Base, Normal, ShiftedWord;
      ghost var s := digits[..count];
      NormalWords(s);
      ShiftWords(offset, h, l);
      ghost var w := digits[offset..offset + count + 1];
      ShiftedWords(s, w, h, l);
      count := count + offset;
      if digits[count] != 0 {
        count := count + 1;
      }
      ClearLow(offset);
      ghost var t := digits[..|s| + offset + 1];
      ShiftedUp(s, w, t, offset, h);
      assert t[..|s| + offset] == digits[..|s| + offset];
    }

    /** `*this <<= shift` */
    method ShiftLeft(shift: nat)
      requires Valid()
      requires Value() > 0 && shift > 0 ==> count + shift / 64 + (if shift % 64 == 0 then 0 else 1) <= CAPACITY
      modifies this, digits
      ensures Valid() && Value() == old(Value()) * Pow2(shift)
    {
      hide ValueOf, Base, Normal, Pow2;
      ZeroShift();
      if IsWord(0) || shift == 0 {
        return;
      }
      NotZero(digits[..count]);
      var offset, interShift := shift / 64, shift % 64;
      ShiftParts(Value(), offset, interShift);
      if interShift == 0 {
        ShiftWhole(offset);
      } else {
        ShiftBits(offset, Pow2(interShift), Pow2(64 - interShift));
      }
    }

    /** `*this *= 5^exp`, by the largest powers of five that fit a word. */
    method MultiplyPow5(exp: nat)
      requires Valid() && Value() * Pow5(exp) < Base(CAPACITY)
      modifies this, digits
      ensures Valid() && Value() == old(Value()) * Pow5(exp)
    {
      hide ValueOf, Base, Normal, Pow5;
      PowersOfFive();
      if exp == 0 {
        return;
      }
      var e := exp;
      while e >= 27
        invariant 0 <= e && Valid() && Value() * Pow5(e) == old(Value()) * Pow5(exp)
      {
        FactorOut(Value(), 27, e - 27);
        Multiply(0x6765_C793_FA10_079D);
        e := e - 27;
      }
      while e >= 13
        invariant 0 <= e < 27 && Valid() && Value() * Pow5(e) == old(Value()) * Pow5(exp)
      {
        FactorOut(Value(), 13, e - 13);
        MultiplySmall(1220703125);
        e := e - 13;
      }
      if e > 0 {
        SmallPower(e);
        FactorOut(Value(), e, 0);
        MultiplySmall(POWERS_OF_FIVE[e - 1]);
      }
    }

    /** -1, 0 or 1 as this number is less than, equal to or greater than `rhs`. */
    method Compare(rhs: BigInteger) returns (r: int)
      requires Valid() && rhs.Valid()
      ensures r == if Value() < rhs.Value() then -1 else if Value() == rhs.Value() then 0 else 1
    {
      hide ValueOf, Base, Normal;
      ghost var s, t := digits[..count], rhs.digits[..rhs.count];
      if count != rhs.count {
        if count < rhs.count {
          ShorterIsLess(s, t);
        } else {
          ShorterIsLess(t, s);
        }
        return if count < rhs.count then -1 else 1;
      }
      NormalWords(s);
      NormalWords(t);
      var i := count;
      while i > 0
        invariant 0 <= i <= count && forall j :: i <= j < count ==> digits[j] == rhs.digits[j]
      {
        i := i - 1;
        if digits[i] != rhs.digits[i] {
          if digits[i] < rhs.digits[i] {
            TopDecides(s, t, i);
          } else {
            TopDecides(t, s, i);
          }
          return if digits[i] < rhs.digits[i] then -1 else 1;
        }
      }
      assert s == t;
      return 0;
    }

    /** One word of `a - b`, written to `out`, whose count follows the last non-zero word. */
    static method SubtractWord(a: BigInteger, b: BigInteger, out: BigInteger, i: nat, borrow: nat, ghost top: nat)
      returns (borrow': nat, ghost top': nat)
      requires a.Valid() && b.Valid() && i < a.count && out.digits.Length == CAPACITY && borrow <= 1
      requires out != a && out != b && out.digits != a.digits && out.digits != b.digits
      requires top <= i && (top > 0 ==> out.count == top && out.digits[top - 1] != 0)
      requires forall j :: top <= j < i ==> out.digits[j] == 0
      modifies out`count, out.digits
      ensures out.digits[..i] == old(out.digits[..i])
      ensures out.digits[i] == DifferenceWord(a.digits[i], WordOr0(b.digits[..b.count], i), borrow)
      ensures borrow' == if out.digits[i] > a.digits[i] then 1 else 0
      ensures top' <= i + 1 && (top' > 0 ==> out.count == top' && out.digits[top' - 1] != 0)
      ensures forall j :: top' <= j < i + 1 ==> out.digits[j] == 0
    {
      var d := (a.digits[i] - borrow) % TWO64;
      if i < b.count {
        d := (d - b.digits[i]) % TWO64;
      }
      NormalWords(a.digits[..a.count]);
      NormalWords(b.digits[..b.count]);
      DifferenceWordIs(a.digits[..a.count], b.digits[..b.count], i, borrow);
      hide Normal, DifferenceWord;
      borrow' := if d > a.digits[i] then 1 else 0;
      out.digits[i] := d;
      top' := top;
      if d != 0 {
        out.count := i + 1;
        top' := i + 1;
      }
    }

    /** `*out = a - b` for `a > b` */
    static method Subtract(a: BigInteger, b: BigInteger, out: BigInteger)
      requires a.Valid() && b.Valid() && out.digits.Length == CAPACITY && a.Value() > b.Value()
      requires out != a && out != b && out.digits != a.digits && out.digits != b.digits
      modifies out`count, out.digits
      ensures out.Valid() && Subtraction(a.Value(), b.Value(), out.Value()) && Subtraction(b.Value(), a.Value(), out.Value())
    {
      hide ValueOf, Base, Normal, Subtracted, Losing, LosesBorrow, Lost, Word, Subtraction, DifferenceWord;
      ghost var s, t := a.digits[..a.count], b.digits[..b.count];
      NormalWords(s);
      NormalWords(t);
      LongerIsNotLess(s, t);
      var borrow := 0;
      ghost var lost: nat := 0;
      ghost var since: nat := 0;
      ghost var top: nat := 0;
      NothingSubtracted(s, t, out.digits[..0]);
      NothingLost(ValueOf(s), ValueOf(t));
      for i := 0 to a.count
        invariant a.digits[..a.count] == s && b.digits[..b.count] == t
        invariant 0 <= borrow <= 1 && Words(out.digits[..i])
        invariant Subtracted(s, t, out.digits[..i], i, borrow, lost)
        invariant Losing(ValueOf(s), ValueOf(t), since, i, borrow, lost)
        invariant top <= i && (top > 0 ==> out.count == top && out.digits[top - 1] != 0)
        invariant forall j :: top <= j < i ==> out.digits[j] == 0
      {
        ghost var before, came := out.digits[..i], borrow;
        borrow, top := SubtractWord(a, b, out, i, borrow, top);
        assert out.digits[..i + 1][..i] == before;
        SubtractNext(s, t, before, out.digits[..i + 1], i, came, lost);
        WordOf(s, i);
        WordOf(t, i);
        LosingNext(ValueOf(s), ValueOf(t), since, i, came, lost);
        if HidesBorrow(WordOr0(t, i), came) {
          lost, since := lost + Base(i + 1), i + 1;
        }
      }
      SubtractionDone(s, t, out.digits[..a.count], top, since, borrow, lost);
      assert out.digits[..a.count][..top] == out.digits[..out.count];
    }

    /**
     * The absolute difference, written to `out`; the result says whether this number is the smaller one.
     * It is exact unless a borrow meets an all-ones word, and then too large.
     */
    method Difference(rhs: BigInteger, out: BigInteger) returns (negative: bool)
      requires Valid() && rhs.Valid() && out.digits.Length == CAPACITY && Value() != rhs.Value()
      requires out != this && out != rhs && out.digits != digits && out.digits != rhs.digits
      modifies out, out.digits
      ensures negative <==> Value() < rhs.Value()
      ensures out.Valid() && Subtraction(Value(), rhs.Value(), out.Value())
    {
      hide ValueOf, Normal, Subtraction;
      var cmp := Compare(rhs);
      var a, b := this, rhs;
      negative := cmp < 0;
      if cmp < 0 {
        a, b := rhs, this;
      }
      Subtract(a, b, out);
    }

    /** `*this = *this * 10^n + u` for the next `n` digits, at most 19. */
    method AppendDecimal64(s: string, ghost n: nat)
      requires Valid() && AllDigits(s) && |s| <= 19
      requires 1 <= n && Value() < Base(n) && n + 2 <= CAPACITY
      modifies this, digits
      ensures Valid() && Value() == old(Value()) * Pow10(|s|) + DecimalValue(s)
    {
      hide ValueOf, Base, Normal, Pow10, Pow5, Pow2, DecimalValue;
      var u := ParseUint64(s);
      if IsWord(0) {
        AssignWord(u);
      } else {
        ChunkFits(Value(), |s|, n, DecimalValue(s));
        MultiplyPow5(|s|);
        FewWords(digits[..count], n + 1);
        ShiftLeft(|s|);
        Increase(u);
      }
    }

    /** One chunk of digits. */
    method AppendChunk(decimals: string, i: nat, j: nat, ghost k: nat)
      requires Valid() && AllDigits(decimals) && i == 19 * k && i <= j <= |decimals| && j - i <= 19 && k + 3 <= CAPACITY
      requires AllDigits(decimals[..i]) && Value() == DecimalValue(decimals[..i])
      modifies this, digits
      ensures Valid() && AllDigits(decimals[..j]) && Value() == DecimalValue(decimals[..j])
    {
      hide ValueOf, Base, Normal, Pow10, DecimalValue;
      ChunkStart(decimals, i, k);
      ChunkEnd(decimals, i, j);
      AppendDecimal64(decimals[i..j], k + 1);
    }

    /** Takes the digits 19 at a time. */
    method AppendAll(decimals: string)
      requires Valid() && Value() == 0 && decimals != [] && AllDigits(decimals) && |decimals| <= 19 * (CAPACITY - 2)
      modifies this, digits
      ensures Valid() && Value() == DecimalValue(decimals)
    {
      hide ValueOf, Base, Normal, Pow10, DecimalValue;
      NoDigits(decimals);
      var length, i := |decimals|, 0;
      ghost var k: nat := 0;
      while length >= 19
        invariant length >= 0 && i + length == |decimals| && i == 19 * k && Valid()
        invariant AllDigits(decimals[..i]) && Value() == DecimalValue(decimals[..i])
      {
        AppendChunk(decimals, i, i + 19, k);
        length := length - 19;
        i := i + 19;
        k := k + 1;
      }
      if length > 0 {
        AppendChunk(decimals, i, i + length, k);
      }
      assert decimals[..|decimals|] == decimals;
    }

    constructor FromDecimals(decimals: string)
      requires decimals != [] && AllDigits(decimals) && |decimals| <= 19 * (CAPACITY - 2)
      ensures Valid() && fresh(digits) && Value() == DecimalValue(decimals)
      ensures count <= (|decimals| + 18) / 19
    {
      digits := new nat[CAPACITY];
      count := 1;
      new;
      digits[0] := 0;
      OneWord(0);
      assert digits[..1] == [0];
      hide ValueOf, Base, Normal, DecimalValue;
      AppendAll(decimals);
      ChunksBelow(decimals, (|decimals| + 18) / 19);
      FewWords(digits[..count], (|decimals| + 18) / 19);
    }
  }
}
