/** The exact half-ULP test of internal/strtod.h and the rounding built on it. */
module Strtod {
  import opened Powers
  import opened Limbs
  import opened Decimals
  import opened BigIntegers

  // ----- Doubles as bit patterns, internal/ieee754.h -----

  const HIDDEN_BIT: nat := 0x10_0000_0000_0000
  const INFINITY: nat := 0x7FF0_0000_0000_0000

  function Significand(u: nat): nat {
    u % HIDDEN_BIT
  }

  function BiasedExponent(u: nat): nat {
    u / HIDDEN_BIT % 2048
  }

  /** The source counts zero among the normal numbers. */
  predicate IsNormal(u: nat) {
    BiasedExponent(u) != 0 || Significand(u) == 0
  }

  function IntegerSignificand(u: nat): nat {
    if IsNormal(u) then Significand(u) + HIDDEN_BIT else Significand(u)
  }

  function IntegerExponent(u: nat): int {
    (if IsNormal(u) then BiasedExponent(u) - 0x3FF else -0x3FE) - 52
  }

  /** The pattern after that of a positive double is one unit in the last place away, also across a power of two. */
  lemma NextDouble(u: nat)
    requires 0 < u && u < INFINITY
    ensures 0 <= IntegerExponent(u + 1) - IntegerExponent(u) <= 1
    ensures IntegerSignificand(u + 1) * Pow2(IntegerExponent(u + 1) - IntegerExponent(u)) == IntegerSignificand(u) + 1
    ensures 0 < IntegerSignificand(u) < 2 * HIDDEN_BIT && -1074 <= IntegerExponent(u) <= 971
    ensures IntegerSignificand(u) % 2 == u % 2
  {
    hide Significand, BiasedExponent;
    assert Pow2(0) == 1 && Pow2(1) == 2;
    var q, r := u / HIDDEN_BIT, u % HIDDEN_BIT;
    Fields(u, q, r);
    if r + 1 < HIDDEN_BIT {
      Fields(u + 1, q, r + 1);
    } else {
      Fields(u + 1, q + 1, 0);
    }
    Parity(u, q, r);
  }

  lemma Fields(u: nat, q: nat, r: nat)
    requires u == q * HIDDEN_BIT + r && r < HIDDEN_BIT && q < 2048
    ensures Significand(u) == r && BiasedExponent(u) == q
  {
    DivideUnique(u, q, r, HIDDEN_BIT);
  }

  lemma Parity(u: nat, q: nat, r: nat)
    requires u == q * HIDDEN_BIT + r
    ensures u % 2 == r % 2 == (r + HIDDEN_BIT) % 2
  {
    assert u == 2 * (q * (HIDDEN_BIT / 2)) + r;
  }

  /** What the source makes of any double that is not negative; zero too is taken for a normal number. */
  lemma Decoded(u: nat)
    requires u < INFINITY
    ensures 0 < IntegerSignificand(u) < 2 * HIDDEN_BIT && -1075 <= IntegerExponent(u) <= 971
    ensures IntegerSignificand(u) % 2 == u % 2 == Significand(u) % 2
  {
    if u > 0 {
      NextDouble(u);
    }
    Parity(u, u / HIDDEN_BIT, Significand(u));
  }

  // ----- The exact comparison -----

  function Sign(x: int): int {
    if x < 0 then -1 else if x == 0 then 0 else 1
  }

  function Positive(x: int): nat {
    if x > 0 then x else 0
  }

  /** `d * 10^dExp`, `bInt * 2^bExp` and half a unit of the latter, all times the same power of ten and of two. */
  function DecimalSide(d: nat, dExp: int, bExp: int): nat {
    d * Pow10(Positive(dExp)) * Pow2(Positive(1 - bExp))
  }

  function BinarySide(bInt: nat, dExp: int, bExp: int): nat {
    bInt * Pow10(Positive(-dExp)) * Pow2(Positive(bExp - 1) + 1)
  }

  function HalfUlp(dExp: int, bExp: int): nat {
    Pow10(Positive(-dExp)) * Pow2(Positive(bExp - 1))
  }

  /** The sign of `|d * 10^dExp - bInt * 2^bExp| - 2^(bExp - 1)`. */
  function ExactSign(d: nat, dExp: int, bInt: nat, bExp: int): int {
    Sign(Gap(DecimalSide(d, dExp, bExp), BinarySide(bInt, dExp, bExp)) - HalfUlp(dExp, bExp))
  }

  // ----- The scaling of the source -----

  /** The powers of two left after the common one is taken out. */
  function DShift(dExp: int, bExp: int): int {
    Positive(dExp - bExp + 1)
  }

  function HShift(dExp: int, bExp: int): int {
    Positive(bExp - 1 - dExp)
  }

  function Scaled(v: nat, five: nat, two: nat): nat {
    v * Pow5(five) * Pow2(two)
  }

  function ScaledD(d: nat, dExp: int, bExp: int): nat {
    Scaled(d, Positive(dExp), DShift(dExp, bExp))
  }

  function ScaledB(bInt: nat, dExp: int, bExp: int): nat {
    Scaled(bInt, Positive(-dExp), HShift(dExp, bExp) + 1)
  }

  function ScaledH(dExp: int, bExp: int): nat {
    Scaled(1, Positive(-dExp), HShift(dExp, bExp))
  }

  lemma {:induction false} Pow5BelowPow10(n: nat)
    ensures Pow5(n) <= Pow10(n)
  {
    if n > 0 {
      Pow5BelowPow10(n - 1);
    }
  }

  /** A number of `n` words times a power of five that fits `k` words. */
  lemma FivesFit(v: nat, n: nat, e: nat, k: nat)
    requires v < Base(n) && e <= 19 * k
    ensures v * Pow5(e) < Base(n + k)
  {
    Pow5BelowPow10(e);
    Pow10Grows(e, 19 * k);
    ChunksFit(k);
    BaseAdd(n, k);
    Cancel(v, Base(n), Pow5(e));
    Cancel(Pow5(e), Base(k), Base(n));
    Commute(Base(n), Pow5(e));
    Commute(Base(n), Base(k));
  }

  /** One power of ten and one of two, split into fives and twos. */
  lemma SplitTens(v: nat, p: nat, m: nat, shift: nat, g: nat)
    requires p + m == shift + g
    ensures v * Pow10(p) * Pow2(m) == v * Pow5(p) * Pow2(shift) * Pow2(g)
  {
    Pow10Splits(p);
    Pow2Add(p, m);
    Pow2Add(shift, g);
    Associate(v, Pow5(p), Pow2(p));
    Associate(v * Pow5(p), Pow2(p), Pow2(m));
    Associate(v * Pow5(p), Pow2(shift), Pow2(g));
  }

  lemma ScaledSign(x: nat, y: nat, h: nat, g: nat)
    requires g > 0
    ensures Sign(Gap(x * g, y * g) - h * g) == Sign(Gap(x, y) - h)
    ensures x * g == y * g <==> x == y
  {
    Cancel(x, y, g);
    Cancel(y, x, g);
    var d := Gap(x, y);
    assert Gap(x * g, y * g) == d * g;
    Cancel(d, h, g);
    Cancel(h, d, g);
  }

  /** Taking the common factor out changes nothing. */
  lemma ScalingIsExact(d: nat, dExp: int, bInt: nat, bExp: int)
    ensures Sign(Gap(ScaledD(d, dExp, bExp), ScaledB(bInt, dExp, bExp)) - ScaledH(dExp, bExp)) == ExactSign(d, dExp, bInt, bExp)
    ensures ScaledD(d, dExp, bExp) == ScaledB(bInt, dExp, bExp) <==> DecimalSide(d, dExp, bExp) == BinarySide(bInt, dExp, bExp)
  {
    hide Pow2, Pow5, Pow10, Sign, Gap;
    var p, n, q, m := Positive(dExp), Positive(-dExp), Positive(bExp - 1), Positive(1 - bExp);
    var g := p + m - DShift(dExp, bExp);
    assert g == n + q - HShift(dExp, bExp) && g >= 0;
    SplitTens(d, p, m, DShift(dExp, bExp), g);
    SplitTens(bInt, n, q + 1, HShift(dExp, bExp) + 1, g);
    SplitTens(1, n, q, HShift(dExp, bExp), g);
    ScaledSign(ScaledD(d, dExp, bExp), ScaledB(bInt, dExp, bExp), ScaledH(dExp, bExp), Pow2(g));
  }

  /** The subtraction of the scaled numbers loses a borrow. */
  ghost predicate Misled(d: nat, dExp: int, bInt: nat, bExp: int) {
    var x, y := ScaledD(d, dExp, bExp), ScaledB(bInt, dExp, bExp);
    LosesBorrow(if x > y then x else y, if x > y then y else x)
  }

  /** The distance of the two scaled numbers, and what is lost in computing it. */
  function ScaledGap(d: nat, dExp: int, bInt: nat, bExp: int): nat {
    Gap(ScaledD(d, dExp, bExp), ScaledB(bInt, dExp, bExp))
  }

  ghost function ScaledLoss(d: nat, dExp: int, bInt: nat, bExp: int): nat {
    var x, y := ScaledD(d, dExp, bExp), ScaledB(bInt, dExp, bExp);
    Lost(if x > y then x else y, if x > y then y else x)
  }

  /** The sign of that distance, with the loss in it, less half a unit. */
  ghost function TestSign(d: nat, dExp: int, bInt: nat, bExp: int): int {
    Sign(ScaledGap(d, dExp, bInt, bExp) + ScaledLoss(d, dExp, bInt, bExp) - ScaledH(dExp, bExp))
  }

  /** When the test is right, for all numbers: unless the loss carries the distance up to half a unit or over it. */
  lemma TestIsRight(d: nat, dExp: int, bInt: nat, bExp: int)
    ensures var gap, lost, half := ScaledGap(d, dExp, bInt, bExp), ScaledLoss(d, dExp, bInt, bExp), ScaledH(dExp, bExp);
            TestSign(d, dExp, bInt, bExp) == ExactSign(d, dExp, bInt, bExp) <==> lost == 0 || gap > half || gap + lost < half
    ensures !Misled(d, dExp, bInt, bExp) <==> ScaledLoss(d, dExp, bInt, bExp) == 0
    ensures Misled(d, dExp, bInt, bExp) ==> ScaledLoss(d, dExp, bInt, bExp) >= TWO64 * TWO64
    ensures TestSign(d, dExp, bInt, bExp) >= ExactSign(d, dExp, bInt, bExp)
  {
    hide ScaledD, ScaledB, ScaledH, Lost, LosesBorrow, ExactSign;
    var x, y := ScaledD(d, dExp, bExp), ScaledB(bInt, dExp, bExp);
    ScalingIsExact(d, dExp, bInt, bExp);
    LostBorrow(if x > y then x else y, if x > y then y else x);
  }

  function Min3(a: int, b: int, c: int): int {
    var m := if a > b then b else a;
    if m > c then c else m
  }

  /** The loop-free bookkeeping of exponents comes out as DShift and HShift. */
  method Exponents(bExp: int, dExp: int) returns (d2: int, d5: int, b2: int, b5: int, h2: int, h5: int)
    ensures d5 == Positive(dExp) && b5 == h5 == Positive(-dExp)
    ensures d2 == DShift(dExp, bExp) && h2 == HShift(dExp, bExp) && b2 == h2 + 1
  {
    var hExp := bExp - 1;
    d2, d5, b2, b5, h2, h5 := 0, 0, 0, 0, 0, 0;
    if dExp >= 0 {
      d2, d5 := d2 + dExp, d5 + dExp;
    } else {
      b2, b5 := b2 - dExp, b5 - dExp;
      h2, h5 := h2 - dExp, h5 - dExp;
    }
    if bExp >= 0 {
      b2 := b2 + bExp;
    } else {
      d2, h2 := d2 - bExp, h2 - bExp;
    }
    if hExp >= 0 {
      h2 := h2 + hExp;
    } else {
      d2, b2 := d2 - hExp, b2 - hExp;
    }
    var common := Min3(d2, b2, h2);
    d2, b2, h2 := d2 - common, b2 - common, h2 - common;
  }

  /** `x` times a power of five and a power of two, in place. */
  method Scale(x: BigInteger, five: nat, two: nat, ghost n: nat)
    requires x.Valid() && 1 <= n <= 42 && x.Value() < Base(n) && five <= 1100 && two <= 2100
    modifies x, x.digits
    ensures x.Valid() && x.Value() == Scaled(old(x.Value()), five, two)
  {
    hide Base, ValueOf, Normal, Pow5, Pow2;
    FivesFit(x.Value(), n, five, 58);
    BaseGrows(n + 58, CAPACITY);
    x.MultiplyPow5(five);
    FewWords(x.digits[..x.count], n + 58);
    x.ShiftLeft(two);
  }

  /** The range of the callers: at most 768 digits, and no double's exponent is outside [-1075, 971]. */
  predicate InRange(dExp: int, bInt: nat, bExp: int) {
    -1092 < dExp <= 308 && 0 < bInt < 2 * HIDDEN_BIT && -1075 <= bExp <= 971
  }

  /** What the computed difference `r` says about the exact one. */
  lemma Verdict(d: nat, dExp: int, bInt: nat, bExp: int, r: nat)
    requires Subtraction(ScaledD(d, dExp, bExp), ScaledB(bInt, dExp, bExp), r)
    ensures var cmp := Sign(r - ScaledH(dExp, bExp));
            && cmp == TestSign(d, dExp, bInt, bExp)
            && (!Misled(d, dExp, bInt, bExp) ==> cmp == ExactSign(d, dExp, bInt, bExp))
            && (cmp < 0 ==> ExactSign(d, dExp, bInt, bExp) < 0)
            && (Misled(d, dExp, bInt, bExp) && ScaledH(dExp, bExp) < TWO64 * TWO64 ==> cmp == 1)
  {
    hide ScaledD, ScaledB, ScaledH, Lost, LosesBorrow, ExactSign;
    ScalingIsExact(d, dExp, bInt, bExp);
  }

  lemma ScaledAre(d: nat, dExp: int, bInt: nat, bExp: int)
    ensures ScaledD(d, dExp, bExp) == Scaled(d, Positive(dExp), DShift(dExp, bExp))
    ensures ScaledB(bInt, dExp, bExp) == Scaled(bInt, Positive(-dExp), HShift(dExp, bExp) + 1)
    ensures ScaledH(dExp, bExp) == Scaled(1, Positive(-dExp), HShift(dExp, bExp))
  {
  }

  /**
   * The sign of the distance from half a unit, with what the subtraction loses in it: exact as long as no borrow
   * is lost, and never below zero for a number that is not within half a unit.
   */
  method CheckWithinHalfULP(bInt: nat, bExp: int, d: BigInteger, dExp: int) returns (cmp: int)
    requires d.Valid() && d.Value() < Pow10(768) && InRange(dExp, bInt, bExp)
    requires DecimalSide(d.Value(), dExp, bExp) != BinarySide(bInt, dExp, bExp)
    ensures cmp == TestSign(d.Value(), dExp, bInt, bExp)
    ensures !Misled(d.Value(), dExp, bInt, bExp) ==> cmp == ExactSign(d.Value(), dExp, bInt, bExp)
    ensures cmp < 0 ==> ExactSign(d.Value(), dExp, bInt, bExp) < 0
    ensures Misled(d.Value(), dExp, bInt, bExp) && ScaledH(dExp, bExp) < TWO64 * TWO64 ==> cmp == 1
  {
    hide Base, ValueOf, Normal, Scaled, Pow10, Subtraction, ScaledD, ScaledB, ScaledH, Misled, TestSign, ExactSign, DecimalSide, BinarySide;
    ghost var v := d.Value();
    var d2, d5, b2, b5, h2, h5 := Exponents(bExp, dExp);
    SmallFits(bInt);
    DigitsFit(v);
    ScaledAre(v, dExp, bInt, bExp);
    ScalingIsExact(v, dExp, bInt, bExp);
    var delta := Distance(d, d5, d2, bInt, b5, b2);
    var hS := new BigInteger(1);
    Scale(hS, h5, h2, 1);
    cmp := delta.Compare(hS);
    Verdict(v, dExp, bInt, bExp, delta.Value());
  }

  /** The two scaled numbers and the difference between them. */
  method Distance(d: BigInteger, d5: nat, d2: nat, bInt: nat, b5: nat, b2: nat) returns (delta: BigInteger)
    requires d.Valid() && d.Value() < Base(42) && bInt < Base(1) && bInt < TWO64
    requires d5 <= 1100 && d2 <= 2100 && b5 <= 1100 && b2 <= 2100
    requires Scaled(d.Value(), d5, d2) != Scaled(bInt, b5, b2)
    ensures delta.Valid() && fresh(delta) && fresh(delta.digits) && d.Valid() && d.Value() == old(d.Value())
    ensures Subtraction(Scaled(d.Value(), d5, d2), Scaled(bInt, b5, b2), delta.Value())
  {
    hide Base, ValueOf, Normal, Scaled, Subtraction;
    var dS := new BigInteger.Copy(d);
    Scale(dS, d5, d2, 42);
    var bS := new BigInteger(bInt);
    Scale(bS, b5, b2, 1);
    delta := new BigInteger(0);
    var less := dS.Difference(bS, delta);
  }

  lemma SmallFits(b: nat)
    requires b < TWO64
    ensures b < Base(1) && 1 < Base(1)
  {
    OneWord(0);
  }

  lemma DigitsFit(v: nat)
    requires v < Pow10(768)
    ensures v < Base(42)
  {
    Pow10Grows(768, 798);
    ChunksFit(42);
  }

  /**
   * 2^128 - 1 lies within half a unit of the double 2^128, yet the test answers 1:
   * the subtraction loses the borrow into an all-ones word.
   */
  lemma MisledExample()
    ensures InRange(0, HIDDEN_BIT, 76)
    ensures Misled(TWO64 * TWO64 - 1, 0, HIDDEN_BIT, 76) && ScaledH(0, 76) < TWO64 * TWO64
    ensures ExactSign(TWO64 * TWO64 - 1, 0, HIDDEN_BIT, 76) == -1 && TestSign(TWO64 * TWO64 - 1, 0, HIDDEN_BIT, 76) == 1
  {
    hide Pow2, Word, Low, HiddenAt, Lost;
    var d, x, y := TWO64 * TWO64 - 1, ScaledD(TWO64 * TWO64 - 1, 0, 76), ScaledB(HIDDEN_BIT, 0, 76);
    PowersOfTwoTo16();
    PowersOfTwo();
    ZeroShift();
    Pow2Add(60, 16);
    Pow2Add(60, 8);
    Pow2Add(68, 4);
    Pow2Add(72, 3);
    assert Pow5(0) == 1;
    assert x == d && y == TWO64 * TWO64;
    TwoWordsOf();
    ScalingIsExact(d, 0, HIDDEN_BIT, 76);
    TestIsRight(d, 0, HIDDEN_BIT, 76);
  }

  lemma TwoWordsOf()
    ensures HiddenAt(TWO64 * TWO64, TWO64 * TWO64 - 1, 1)
  {
    OneWord(0);
    DivideUnique(TWO64 * TWO64 - 1, TWO64 - 1, TWO64 - 1, TWO64);
    DivideUnique(TWO64 * TWO64, TWO64, 0, TWO64);
  }

  /** The source's rounding: the double itself, the next one, or the even one of the two. */
  function Rounded(u: nat, sign: int): nat {
    if sign < 0 || (sign == 0 && Significand(u) % 2 == 0) then u else u + 1
  }

  /**
   * Rounding with the test: `u` when the decimal seems to be within half a unit of it, else the next double,
   * and the even one of the two when it seems to stand halfway.
   */
  method StrtodBigInteger(u: nat, decimals: string, dExp: int) returns (u': nat)
    requires u < INFINITY && -1092 < dExp <= 308
    requires decimals != [] && AllDigits(decimals) && |decimals| <= 768
    requires DecimalSide(DecimalValue(decimals), dExp, IntegerExponent(u)) != BinarySide(IntegerSignificand(u), dExp, IntegerExponent(u))
    ensures u' == Rounded(u, TestSign(DecimalValue(decimals), dExp, IntegerSignificand(u), IntegerExponent(u)))
    ensures !Misled(DecimalValue(decimals), dExp, IntegerSignificand(u), IntegerExponent(u)) ==>
              var sign := ExactSign(DecimalValue(decimals), dExp, IntegerSignificand(u), IntegerExponent(u));
              && (sign < 0 ==> u' == u)
              && (sign > 0 ==> u' == u + 1)
              && (sign == 0 ==> u <= u' <= u + 1 && u' % 2 == 0)
  {
    hide Misled, DecimalSide, BinarySide, Pow10, IntegerSignificand, IntegerExponent, Significand, DecimalValue, AllDigits, ExactSign, TestSign;
    Decoded(u);
    DecimalBelow(decimals);
    Pow10Grows(|decimals|, 768);
    var dInt := new BigInteger.FromDecimals(decimals);
    var cmp := CheckWithinHalfULP(IntegerSignificand(u), IntegerExponent(u), dInt, dExp);
    if cmp < 0 {
      u' := u;
    } else if cmp == 0 {
      u' := if Significand(u) % 2 == 1 then u + 1 else u;
    } else {
      u' := u + 1;
    }
  }

  // ----- Rounding to nearest -----

  /** `r` is the nearer of the doubles `u` and `u + 1` of the given distances, the even one when they are as near. */
  predicate NearestEven(toThis: int, toNext: int, u: nat, r: nat) {
    && (r == u || r == u + 1)
    && (toThis < toNext ==> r == u)
    && (toNext < toThis ==> r == u + 1)
    && (toThis == toNext ==> r % 2 == 0)
  }

  /** The nearest one is what the sign of the difference of the two distances rounds to. */
  lemma RoundedIsNearest(toThis: int, toNext: int, u: nat, r: nat)
    requires Significand(u) % 2 == u % 2
    ensures NearestEven(toThis, toNext, u, r) <==> r == Rounded(u, Sign(toThis - toNext))
  {
    hide Significand;
  }

  /** From the approximation up to the next double, the exact sign says which of the two is closer. */
  lemma NearestOfTwo(d: nat, dExp: int, u: nat)
    requires 0 < u < INFINITY
    requires var b, e := IntegerSignificand(u), IntegerExponent(u);
             BinarySide(b, dExp, e) <= DecimalSide(d, dExp, e) <= BinarySide(b + 1, dExp, e)
    ensures var b, e := IntegerSignificand(u), IntegerExponent(u);
            var toThis, toNext := DecimalSide(d, dExp, e) - BinarySide(b, dExp, e), BinarySide(b + 1, dExp, e) - DecimalSide(d, dExp, e);
            ExactSign(d, dExp, b, e) == Sign(toThis - toNext)
  {
    hide IntegerSignificand, IntegerExponent, DecimalSide, Pow10, Pow2;
    var b, e := IntegerSignificand(u), IntegerExponent(u);
    var p, q := Pow10(Positive(-dExp)), Pow2(Positive(e - 1));
    TwiceAsMuch(Positive(e - 1));
    UnitIsTwoHalves(b, p, q);
  }

  lemma UnitIsTwoHalves(b: nat, p: nat, q: nat)
    ensures (b + 1) * p * (2 * q) == b * p * (2 * q) + 2 * (p * q)
  {
  }

  lemma TwiceAsMuch(n: nat)
    ensures Pow2(n + 1) == 2 * Pow2(n)
  {
  }

  /**
   * When the answer is the nearest double, for every decimal between the approximation and the next double:
   * unless what the subtraction loses carries the distance over half a unit, or up to it where the tie goes the other way.
   */
  lemma RoundsToNearest(d: nat, dExp: int, u: nat)
    requires 0 < u < INFINITY
    requires var b, e := IntegerSignificand(u), IntegerExponent(u);
             BinarySide(b, dExp, e) <= DecimalSide(d, dExp, e) <= BinarySide(b + 1, dExp, e)
    ensures var b, e := IntegerSignificand(u), IntegerExponent(u);
            var toThis, toNext := DecimalSide(d, dExp, e) - BinarySide(b, dExp, e), BinarySide(b + 1, dExp, e) - DecimalSide(d, dExp, e);
            var gap, lost, half := ScaledGap(d, dExp, b, e), ScaledLoss(d, dExp, b, e), ScaledH(dExp, e);
            NearestEven(toThis, toNext, u, Rounded(u, TestSign(d, dExp, b, e))) <==>
            || lost == 0 || gap > half || gap + lost < half
            || (gap == half && u % 2 == 1) || (gap + lost == half && u % 2 == 0)
  {
    hide IntegerSignificand, IntegerExponent, Significand, DecimalSide, BinarySide, ScaledD, ScaledB, ScaledH, Lost, ExactSign, ScaledLoss, NearestEven;
    var b, e := IntegerSignificand(u), IntegerExponent(u);
    Decoded(u);
    NearestOfTwo(d, dExp, u);
    RoundedIsNearest(DecimalSide(d, dExp, e) - BinarySide(b, dExp, e), BinarySide(b + 1, dExp, e) - DecimalSide(d, dExp, e), u,
                     Rounded(u, TestSign(d, dExp, b, e)));
    ScalingIsExact(d, dExp, b, e);
  }

  /**
   * Zero is decoded as 2^-1023, so next to zero the exact comparison itself goes wrong: for every decimal up to the
   * least double 2^-1074 the answer is that double, which is the nearest one if and only if the decimal exceeds its half.
   */
  lemma ZeroIsMisread(d: nat, dExp: int)
    requires DecimalSide(d, dExp, -1075) <= 4 * HalfUlp(dExp, -1075)
    ensures IntegerSignificand(0) == HIDDEN_BIT && IntegerExponent(0) == -1075
    ensures ExactSign(d, dExp, HIDDEN_BIT, -1075) == 1 && Rounded(0, TestSign(d, dExp, HIDDEN_BIT, -1075)) == 1
    ensures var toZero, toLeast := DecimalSide(d, dExp, -1075), 4 * HalfUlp(dExp, -1075) - DecimalSide(d, dExp, -1075);
            NearestEven(toZero, toLeast, 0, Rounded(0, TestSign(d, dExp, HIDDEN_BIT, -1075))) <==>
            DecimalSide(d, dExp, -1075) > 2 * HalfUlp(dExp, -1075)
  {
    hide Pow10, DecimalSide, TestSign;
    var h := HalfUlp(dExp, -1075);
    assert Pow2(0) == 1 && Pow2(1) == 2;
    assert h == Pow10(Positive(-dExp));
    assert BinarySide(HIDDEN_BIT, dExp, -1075) == HIDDEN_BIT * h * 2;
    TestIsRight(d, dExp, HIDDEN_BIT, -1075);
  }

  lemma {:induction false} FivesBelowTens(k: nat)
    ensures Pow5(10 * k) <= Pow10(7 * k)
  {
    if k > 0 {
      FivesBelowTens(k - 1);
      Pow5Add(10, 10 * (k - 1));
      Pow10Add(7, 7 * (k - 1));
      TenFives();
      ProductGrows(Pow5(10), Pow5(10 * (k - 1)), Pow10(7), Pow10(7 * (k - 1)));
    }
  }

  lemma TenFives()
    ensures Pow5(10) == 9765625 && Pow10(7) == 10000000
  {
  }

  lemma ProductGrows(a: nat, b: nat, c: nat, d: nat)
    requires a <= c && b <= d
    ensures a * b <= c * d
  {
    if a > 0 {
      Cancel(b, d, a);
    }
    if d > 0 {
      Cancel(a, c, d);
    }
  }

  /** 2^-n is 5^n * 10^-n. */
  lemma HalfInTens(n: int)
    requires n > 0
    ensures DecimalSide(Pow5(n), -n, -n) == 2 * HalfUlp(-n, -n)
  {
    assert Pow2(0) == 1 && Pow10(0) == 1;
    Pow10Splits(n);
    assert Pow5(n) * Pow2(n + 1) == 2 * (Pow5(n) * Pow2(n));
  }

  /** The tie 2^-1075 is 5^1075 * 10^-1075, a decimal in the range; it too is rounded away from the even zero. */
  lemma TieAtZero()
    ensures Pow5(1075) < Pow10(768)
    ensures DecimalSide(Pow5(1075), -1075, -1075) == 2 * HalfUlp(-1075, -1075)
    ensures Rounded(0, TestSign(Pow5(1075), -1075, HIDDEN_BIT, -1075)) == 1
  {
    hide Pow2, Pow5, Pow10, TestSign, Rounded, DecimalSide, HalfUlp;
    FivesBelowTens(108);
    Pow5Add(1075, 5);
    Grows(Pow5(1075), Pow5(5));
    Pow10Add(756, 12);
    Cancel(1, Pow10(12), Pow10(756));
    TwelveTens();
    HalfInTens(1075);
    ZeroIsMisread(Pow5(1075), -1075);
  }

  lemma TwelveTens()
    ensures Pow10(12) == 1000000000000
  {
  }

  // ----- A decimal that is not rounded to nearest -----

  const MISROUNDED_DECIMAL: nat :=
    33476077134687993798356534298142293624316416876599661210863931875749990702912146926958636082448568255937049187139498635971580757968630079096615894272

  const MISROUNDED_SIGNIFICAND: nat := 6412742366823986

  const MISROUNDED_DOUBLE: nat := 898 * HIDDEN_BIT + 1909142739453490

  const FIVES: nat := 0xeb57ff22fc0c7959a90cb506d155a7ea6f51b7409b1133b2eca5bd9c43bea62ecdac16e335704054c7e9c666777c8db751914fcd1639

  lemma FewFives()
    ensures Pow5(0) == 1 && Pow5(2) == 25 && Pow5(8) == 390625
  {
  }

  lemma FivesAre()
    ensures Pow5(186) == FIVES
  {
    hide Pow5;
    FewFives();
    Pow5Add(8, 8);
    Pow5Add(16, 16);
    Pow5Add(32, 32);
    Pow5Add(64, 64);
    Pow5Add(128, 32);
    Pow5Add(160, 16);
    Pow5Add(176, 8);
    Pow5Add(184, 2);
  }

  lemma MisroundedScales()
    ensures ScaledD(MISROUNDED_DECIMAL, -186, -177) == MISROUNDED_DECIMAL
    ensures ScaledB(MISROUNDED_SIGNIFICAND, -186, -177) == MISROUNDED_SIGNIFICAND * FIVES * 512
    ensures ScaledH(-186, -177) == FIVES * 256
  {
    hide Pow5;
    FivesAre();
    FewFives();
    assert Pow2(0) == 1 && Pow2(8) == 256 && Pow2(9) == 512;
  }

  lemma MisroundedWords()
    ensures HiddenAt(MISROUNDED_DECIMAL, MISROUNDED_SIGNIFICAND * FIVES * 512, 2)
  {
    assert Base(2) == TWO64 * TWO64;
  }

  lemma MisroundedGap()
    ensures MISROUNDED_DECIMAL == MISROUNDED_SIGNIFICAND * FIVES * 512 + FIVES * 256 - TWO63 * TWO64
  {
  }

  lemma MisroundedFits()
    ensures MISROUNDED_DECIMAL < Pow10(768)
  {
    hide Pow10;
    TwelveTens();
    Pow10Add(12, 12);
    Pow10Add(24, 24);
    Pow10Add(48, 48);
    Pow10Add(96, 96);
    Pow10Grows(192, 768);
  }

  /** The decimal and its two neighbours on the scale of the exact comparison. */
  lemma MisroundedSides()
    ensures var d, b, f := MISROUNDED_DECIMAL, MISROUNDED_SIGNIFICAND, Pow2(178);
            && DecimalSide(d, -186, -177) == d * f
            && BinarySide(b, -186, -177) == b * FIVES * 512 * f
            && BinarySide(b + 1, -186, -177) == (b + 1) * FIVES * 512 * f
  {
    hide Pow2, Pow5, Pow10;
    FivesAre();
    FewFives();
    FewTwos();
    SplitTens(MISROUNDED_DECIMAL, 0, 178, 0, 178);
    SplitTens(MISROUNDED_SIGNIFICAND, 186, 1, 9, 178);
    SplitTens(MISROUNDED_SIGNIFICAND + 1, 186, 1, 9, 178);
  }

  lemma FewTwos()
    ensures Pow2(0) == 1 && Pow2(8) == 256 && Pow2(9) == 512
  {
  }

  /**
   * A decimal of 149 digits, less than half a unit above a double, that is rounded to the next double:
   * the subtraction loses a borrow into its third word.
   */
  lemma MisroundedExample()
    ensures var d, u, b := MISROUNDED_DECIMAL, MISROUNDED_DOUBLE, MISROUNDED_SIGNIFICAND;
            && d < Pow10(768) && u < INFINITY && IntegerSignificand(u) == b && IntegerExponent(u) == -177
            && BinarySide(b, -186, -177) < DecimalSide(d, -186, -177) < BinarySide(b + 1, -186, -177)
            && ExactSign(d, -186, b, -177) == -1 && Rounded(u, TestSign(d, -186, b, -177)) == u + 1
            && var toThis, toNext := DecimalSide(d, -186, -177) - BinarySide(b, -186, -177),
                                     BinarySide(b + 1, -186, -177) - DecimalSide(d, -186, -177);
               NearestEven(toThis, toNext, u, u) && !NearestEven(toThis, toNext, u, u + 1)
  {
    hide Pow2, Pow5, Pow10, HiddenAt, Lost, ScaledD, ScaledB, ScaledH, DecimalSide, BinarySide;
    var d, u, b := MISROUNDED_DECIMAL, MISROUNDED_DOUBLE, MISROUNDED_SIGNIFICAND;
    Fields(u, 898, 1909142739453490);
    MisroundedFits();
    MisroundedSides();
    Cancel(b * FIVES * 512, d, Pow2(178));
    Cancel(d, (b + 1) * FIVES * 512, Pow2(178));
    MisroundedScales();
    MisroundedWords();
    MisroundedGap();
    ScalingIsExact(d, -186, b, -177);
    TestIsRight(d, -186, b, -177);
    NearestOfTwo(d, -186, u);
  }
}
