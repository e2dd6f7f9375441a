/** Grisu2 of internal/dtoa.h: the text of a double lies strictly between the halfway points to its neighbours. */
module Grisu {
  import opened Powers
  import opened RealPowers
  import opened Decimals
  import opened DiyFloat
  import opened DigitGeneration
  import opened CachedPowers

  lemma HalfUnit(x: real, y: real, power: real)
    requires x >= 0.0 && y - 0.5 <= power <= y + 0.5
    ensures Mul(x, y) - x / 2.0 <= Mul(x, power) <= Mul(x, y) + x / 2.0
  {
    hide Mul;
    var d := power - y;
    RealScale(x, d, 0.5);
    RealScale(x, -0.5, d);
    MulSum(x, y, d);
    MulHalf(x);
  }

  lemma MulSum(x: real, y: real, d: real)
    ensures Mul(x, y + d) == Mul(x, y) + Mul(x, d)
  {
  }

  lemma MulHalf(x: real)
    ensures Mul(x, 0.5) == x / 2.0 && Mul(x, -0.5) == -(x / 2.0)
  {
  }

  lemma RealScale(x: real, a: real, b: real)
    requires x >= 0.0 && a <= b
    ensures Mul(x, a) <= Mul(x, b)
  {
  }

  lemma RealBounds(w: nat, c: nat, power: real)
    requires w < TWO64 && c as real - 0.5 <= power <= c as real + 0.5
    ensures (w * c) as real - TWO63 as real < Mul(w as real, power) < (w * c) as real + TWO63 as real
  {
    hide Mul;
    HalfUnit(w as real, c as real, power);
    MulIs(w, c);
  }

  function Rounded(x: nat, c: nat): nat {
    (x * c + TWO63) / TWO64
  }

  /** One unit beyond the rounded product is beyond the exact product, in both directions. */
  lemma StrictlyWithin(w: nat, c: nat, power: real)
    requires w < TWO64 && c as real - 0.5 <= power <= c as real + 0.5
    ensures var r := Rounded(w, c);
            ((r - 1) * TWO64) as real < Mul(w as real, power) < ((r + 1) * TWO64) as real
  {
    hide Mul;
    RealBounds(w, c, power);
    RoundingError(w * c);
  }

  /** `d * 10^k` stands strictly between the exact boundaries `lo` and `hi` times the power. */
  ghost predicate Between(lo: nat, hi: nat, power: real, d: nat, k: int, s: nat) {
    Mul(Mul(lo as real, power), Down(k) as real) < (At(d, k, s) * TWO64) as real < Mul(Mul(hi as real, power), Down(k) as real)
  }

  lemma CoveredIsBetween(lo: nat, hi: nat, c: nat, power: real, d: nat, k: int, s: nat)
    requires lo < TWO64 && hi < TWO64 && c as real - 0.5 <= power <= c as real + 0.5
    requires Rounded(hi, c) >= 1 && Covered(Rounded(lo, c) + 1, Rounded(hi, c) - 1, s, d, k)
    ensures Between(lo, hi, power, d, k, s)
  {
    hide Mul, Rounded;
    StrictlyWithin(lo, c, power);
    StrictlyWithin(hi, c, power);
    Widen(Rounded(lo, c) + 1, Rounded(hi, c) - 1, Mul(lo as real, power), Mul(hi as real, power), At(d, k, s), Down(k));
  }

  lemma Widen(l: nat, h: nat, x: real, y: real, a: nat, t: nat)
    requires t > 0 && x < (l * TWO64) as real && (h * TWO64) as real < y && l * t <= a <= h * t
    ensures Mul(x, t as real) < (a * TWO64) as real < Mul(y, t as real)
  {
    hide Mul;
    MulIs(l * TWO64, t);
    MulIs(h * TWO64, t);
    StrictScale(t as real, x, (l * TWO64) as real);
    StrictScale(t as real, (h * TWO64) as real, y);
    assert l * TWO64 * t == l * t * TWO64;
    assert h * TWO64 * t == h * t * TWO64;
  }

  lemma StrictScale(t: real, a: real, b: real)
    requires t > 0.0 && a < b
    ensures Mul(a, t) < Mul(b, t)
  {
  }

  lemma SmallShift(q: nat, n: nat)
    requires q >= 6 && q * Pow2(n) < TWO64
    ensures n <= 61
  {
    PowersOfTwo();
    if n > 61 {
      Pow2Grows(62, n);
      Pow2Add(62, 2);
      Cancel(6, q, Pow2(n));
    }
  }

  lemma LowBitsDoNotReach(f: nat, p: nat, q: nat)
    requires p > 0 && (4 * f + 2) * p >= (4 * q) * p
    ensures 4 * f * p >= (4 * q) * p
  {
    Cancel(4 * q, 4 * f + 2, p);
    Cancel(4 * q, 4 * f, p);
  }

  /** `v` normalised has the exponent of its normalised boundaries. */
  lemma SameExponent(v: DiyFp, n: nat)
    requires 0 < v.f < 2 * HIDDEN_BIT && TWO63 <= QuartersAbove(v) * Pow2(n) < TWO64
    ensures Normalize(v) == DiyFp(4 * v.f * Pow2(n), v.e - 2 - n)
  {
    hide Pow2, LeadingZeros, Wrap64;
    var p := Pow2(n);
    PowersOfTwo();
    SmallShift(QuartersAbove(v), n);
    QuarterOf(n);
    LowBitsDoNotReach(v.f, p, Pow2(61 - n));
    Cancel(4 * v.f, 4 * v.f + 2, p);
    ShiftTwo(v.f, n);
    OneNormalForm(v.f, n + 2);
    assert Wrap64(4 * v.f * p) == 4 * v.f * p by {
      NoWrap64(4 * v.f * p);
    }
  }

  lemma ShiftTwo(f: nat, n: nat)
    ensures f * Pow2(n + 2) == 4 * f * Pow2(n)
  {
    Pow2Add(n, 2);
    assert f * (Pow2(n) * 4) == 4 * f * Pow2(n);
  }

  lemma QuarterOf(n: nat)
    requires n <= 61
    ensures (4 * Pow2(61 - n)) * Pow2(n) == TWO63
  {
    hide Pow2;
    PowersOfTwo();
    Pow2Add(n, 61 - n);
    Pow2Add(61, 2);
    FourFirst(Pow2(n), Pow2(61 - n));
  }

  lemma FourFirst(p: nat, q: nat)
    ensures (4 * q) * p == 4 * (p * q)
    ensures Pow2(2) == 4
  {
  }

  /** A gap of 512 units survives multiplication by a normalised significand, halved. */
  lemma GapSurvives(x: nat, y: nat, c: nat)
    requires x + 512 <= y && c >= TWO63
    ensures Rounded(x, c) + 256 <= Rounded(y, c)
  {
    Cancel(x + 512, y, c);
    assert (x + 512) * c == x * c + 512 * c;
  }

  lemma RoundedRange(x: nat, c: nat)
    requires TWO63 <= x < TWO64 && TWO63 <= c < TWO64
    ensures 0x4000_0000_0000_0000 <= Rounded(x, c) <= c
  {
    Cancel(TWO63, x, c);
    Cancel(x, TWO64 - 1, c);
    assert (TWO64 - 1) * c == TWO64 * c - c;
  }

  lemma Separated(f: nat, below: nat, above: nat, n: nat)
    requires below + 1 <= 4 * f && 4 * f + 2 == above && n >= 9
    ensures below * Pow2(n) + 512 <= 4 * f * Pow2(n)
    ensures 4 * f * Pow2(n) + 512 <= above * Pow2(n)
  {
    var p := Pow2(n);
    Pow2Grows(9, n);
    assert Pow2(9) == 512;
    Cancel(below + 1, 4 * f, p);
    assert (below + 1) * p == below * p + p;
    assert (4 * f + 2) * p == 4 * f * p + 2 * p;
  }

  lemma IntegerPartFits(m: nat, c: nat, s: nat)
    requires 0x3FFF_FFFF_FFFF_FFFF <= m < c < 100000000 * Pow2(s + 3) && s <= 60
    ensures 1 <= m / Pow2(s) < 1000000000
  {
    hide Pow2;
    PowersOfTwo();
    PowersOfTwoTo16();
    Pow2Grows(s, 60);
    Pow2Add(s, 3);
    DivideBelow(m, Pow2(s), 800000000);
  }

  lemma DivideBelow(m: nat, p: nat, k: nat)
    requires 0 < p <= m < k * p
    ensures 1 <= m / p < k
  {
    if m / p >= k {
      Cancel(k, m / p, p);
    }
  }

  /** The three products: an interval around `v` that holds more than a unit. */
  lemma Products(v: DiyFp, c: DiyFp, n: nat)
    requires 0 < v.f < 2 * HIDDEN_BIT && TWO63 <= c.f < TWO64 && n >= 9
    requires TWO63 <= QuartersAbove(v) * Pow2(n) < TWO64
    ensures var w, lo, hi := Rounded(4 * v.f * Pow2(n), c.f), Rounded(QuartersBelow(v) * Pow2(n), c.f), Rounded(QuartersAbove(v) * Pow2(n), c.f);
            lo + 256 <= w <= hi - 256 && 0x4000_0000_0000_0000 <= hi <= c.f
    ensures QuartersBelow(v) * Pow2(n) < 4 * v.f * Pow2(n) < TWO64
  {
    hide Pow2, Rounded;
    Separated(v.f, QuartersBelow(v), QuartersAbove(v), n);
    GapSurvives(QuartersBelow(v) * Pow2(n), 4 * v.f * Pow2(n), c.f);
    GapSurvives(4 * v.f * Pow2(n), QuartersAbove(v) * Pow2(n), c.f);
    RoundedRange(QuartersAbove(v) * Pow2(n), c.f);
  }

  lemma WideIsRounded(x: DiyFp, c: DiyFp)
    requires x.f < TWO64 && c.f < TWO64
    ensures TimesWide(x, c) == DiyFp(Rounded(x.f, c.f), x.e + c.e + 64) && Rounded(x.f, c.f) < TWO64
  {
    ProductsAgree(x, c);
    hide TimesWide, TimesPortable;
  }

  /** `v` and its boundaries times the cached power, the boundaries one unit further in. */
  method Scaled(v: DiyFp, minus: DiyFp, plus: DiyFp, c: DiyFp, ghost n: nat) returns (W: DiyFp, Wp: DiyFp, Wm: DiyFp)
    requires 0 < v.f < 2 * HIDDEN_BIT && TWO63 <= c.f < TWO64 && n >= 9
    requires plus == DiyFp(QuartersAbove(v) * Pow2(n), v.e - 2 - n) && TWO63 <= plus.f < TWO64
    requires minus == DiyFp(QuartersBelow(v) * Pow2(n), v.e - 2 - n)
    ensures QuartersBelow(v) * Pow2(n) < QuartersAbove(v) * Pow2(n) < TWO64
    ensures W.e == Wp.e == Wm.e == v.e - 2 - n + c.e + 64
    ensures Wm.f == Rounded(QuartersBelow(v) * Pow2(n), c.f) + 1 && Wp.f == Rounded(QuartersAbove(v) * Pow2(n), c.f) - 1
    ensures 0 < Wm.f < W.f < Wp.f && 0x3FFF_FFFF_FFFF_FFFF <= Wp.f < c.f
  {
    hide Pow2, Rounded, TimesWide;
    SameExponent(v, n);
    Products(v, c, n);
    var w := Normalize(v);
    WideIsRounded(w, c);
    WideIsRounded(plus, c);
    WideIsRounded(minus, c);
    W, Wp, Wm := TimesWide(w, c), TimesWide(plus, c), TimesWide(minus, c);
    Wm := Wm.(f := Wrap64(Wm.f + 1));
    Wp := Wp.(f := Wrap64(Wp.f - 1));
  }

  /** The boundaries and the digits stand on one scale, `10^-k0 * 2^h`. */
  lemma BoundaryScale(lo: nat, k0: int, n: nat, ce: int, x: int)
    ensures Mul((lo * Pow2(n)) as real, Mul(Exp(10.0, -k0), Exp(2.0, -ce))) ==
            Mul(Mul(lo as real, Exp(2.0, x)), Mul(Exp(10.0, -k0), Exp(2.0, n - ce - x)))
  {
    hide Exp, Pow2, Mul;
    MulIs(lo, Pow2(n));
    ExpIsPow2(n);
    ExpAdd(2.0, n, -ce);
    ExpAdd(2.0, x, n - ce - x);
    Balance(lo as real, Exp(2.0, n), Exp(2.0, -ce), Exp(10.0, -k0), Exp(2.0, x), Exp(2.0, n - ce - x));
  }

  lemma Balance(l: real, a: real, b: real, t: real, x: real, h: real)
    requires Mul(a, b) == Mul(x, h)
    ensures Mul(Mul(l, a), Mul(t, b)) == Mul(Mul(l, x), Mul(t, h))
  {
    assert l * a * (t * b) == l * t * (a * b);
    assert l * x * (t * h) == l * t * (x * h);
  }

  lemma DigitScale(d: nat, K: int, k0: int, s: nat)
    ensures (At(d, K - k0, s) * TWO64) as real ==
            Mul(Mul(Mul(d as real, Exp(10.0, K)), Mul(Exp(10.0, -k0), Exp(2.0, s + 64))), Down(K - k0) as real)
  {
    hide Exp, Pow2, Up, Down, Mul;
    var k := K - k0;
    PowersOfTwo();
    Pow2Add(s, 64);
    ExpIsPow2(s + 64);
    MulIs(Pow2(s), TWO64);
    MulIs(At(d, k, s), TWO64);
    MulIs(d, Up(k) * Pow2(s));
    MulIs(Up(k), Pow2(s));
    UpIsDown(k);
    ExpAdd(10.0, K, -k0);
    Collect(d as real, Up(k) as real, Pow2(s) as real, TWO64 as real, Exp(10.0, K), Exp(10.0, -k0), Down(k) as real);
  }

  lemma Collect(d: real, up: real, p: real, w: real, z: real, t: real, down: real)
    requires up == Mul(Mul(z, t), down)
    ensures Mul(Mul(d, Mul(up, p)), w) == Mul(Mul(Mul(d, z), Mul(t, Mul(p, w))), down)
  {
    assert d * (z * t * down * p) * w == d * z * (t * (p * w)) * down;
  }

  lemma UpIsDown(k: int)
    ensures Up(k) as real == Mul(Exp(10.0, k), Down(k) as real)
  {
    hide Exp, Pow10;
    ExpNone(10.0);
    assert Pow10(0) == 1 by {
      NoTens();
    }
    if k >= 0 {
      ExpIsPow10(k);
    } else {
      ExpIsPow10(-k);
      ExpAdd(10.0, k, -k);
    }
  }

  lemma NoTens()
    ensures Pow10(0) == 1
  {
  }

  lemma MulPositive(x: real, y: real)
    requires x > 0.0 && y > 0.0
    ensures Mul(x, y) > 0.0
  {
  }

  lemma Unscale(x: real, y: real, h: real, t: real)
    requires h > 0.0 && t > 0.0
    ensures Mul(Mul(x, h), t) < Mul(Mul(y, h), t) <==> x < y
  {
    hide Mul;
    Orders(x, y, h);
    Orders(Mul(x, h), Mul(y, h), t);
  }

  lemma Orders(x: real, y: real, h: real)
    requires h > 0.0
    ensures Mul(x, h) < Mul(y, h) <==> x < y
  {
    if x < y {
      StrictScale(h, x, y);
    } else if y < x {
      StrictScale(h, y, x);
    }
  }

  /** In terms of the numbers themselves: `d * 10^K` against a quarter unit's multiples around `v`. */
  ghost predicate WithinHalfUnits(v: DiyFp, d: nat, K: int)
    requires v.f > 0
  {
    var unit, x := Exp(2.0, v.e - 2), Mul(d as real, Exp(10.0, K));
    Mul(QuartersBelow(v) as real, unit) < x < Mul(QuartersAbove(v) as real, unit)
  }

  lemma BetweenIsWithin(v: DiyFp, c: DiyFp, k0: int, n: nat, d: nat, K: int, s: nat)
    requires v.f > 0 && s + 64 == n - c.e - (v.e - 2)
    ensures Between(QuartersBelow(v) * Pow2(n), QuartersAbove(v) * Pow2(n), PowerOf(c, k0), d, K - k0, s) <==> WithinHalfUnits(v, d, K)
  {
    hide Exp, Mul, Pow2, Down, At;
    var x, h, t := v.e - 2, Mul(Exp(10.0, -k0), Exp(2.0, s + 64)), Down(K - k0) as real;
    MulPositive(Exp(10.0, -k0), Exp(2.0, s + 64));
    BoundaryScale(QuartersBelow(v), k0, n, c.e, x);
    BoundaryScale(QuartersAbove(v), k0, n, c.e, x);
    DigitScale(d, K, k0, s);
    Unscale(Mul(QuartersBelow(v) as real, Exp(2.0, x)), Mul(d as real, Exp(10.0, K)), h, t);
    Unscale(Mul(d as real, Exp(10.0, K)), Mul(QuartersAbove(v) as real, Exp(2.0, x)), h, t);
  }

  /** The value of the integer part stays below 8 * 10^8 for every power that is chosen. */
  lemma ChosenFits(f: nat, s: nat)
    requires 34 <= s <= 60 && f < TWO64 && (s == 34 ==> f < 100000000 * 0x20_0000_0000)
    ensures f < 100000000 * Pow2(s + 3)
  {
    PowersOfTwo();
    assert Pow2(37) == 32 * Pow2(32);
    if s > 34 {
      Pow2Grows(38, s + 3);
      assert Pow2(38) == 2 * Pow2(37);
    }
  }

  /**
   * The digits of `v`, for every significand and exponent of a double: the decimal they stand for lies strictly
   * between the halfway points to the doubles next to `v`, so reading it back gives `v`.
   */
  method Grisu2(v: DiyFp, buffer: array<char>) returns (len: nat, K: int)
    requires 0 < v.f < 2 * HIDDEN_BIT && -1074 <= v.e <= 971
    requires buffer.Length >= 21
    modifies buffer
    ensures len <= buffer.Length && Numeral(buffer[..len])
    ensures WithinHalfUnits(v, DecimalValue(buffer[..len]), K)
  {
    hide Exp, PowerOf, WithinHalfUnits, Pow2, Rounded, Numeral, Between, Covered, DecimalValue, Shortest, Nearest, QuartersBelow, QuartersAbove, Normalize;
    var minus, plus;
    ghost var n;
    minus, plus, n := NormalizedBoundaries(v);
    FewShifts(v, n);
    var c, k0 := GetCachedPower(plus.e);
    var W, Wp, Wm := Scaled(v, minus, plus, c, n);
    ghost var s := -Wp.e;
    ChosenFits(c.f, s);
    IntegerPartFits(Wp.f, c.f, s);
    NoWrap64(Wp.f - Wm.f);
    len, K := DigitGen(W, Wp, Wrap64(Wp.f - Wm.f), buffer, k0);
    NumeralIsDigits(buffer[..len]);
    CoveredIsBetween(QuartersBelow(v) * Pow2(n), QuartersAbove(v) * Pow2(n), c.f, PowerOf(c, k0), DecimalValue(buffer[..len]), K - k0, s);
    BetweenIsWithin(v, c, k0, n, DecimalValue(buffer[..len]), K, s);
  }

  lemma FewShifts(v: DiyFp, n: nat)
    requires v.f > 0 && QuartersAbove(v) * Pow2(n) < TWO64
    ensures n <= 61
  {
    SmallShift(QuartersAbove(v), n);
  }

  /** Where the example of a last digit that is not nearest comes from: 0.1 + 0.2 is 5404319552844596 * 2^-54. */
  lemma SumIsScaled()
    ensures var v, c := DiyFp(5404319552844596, -54), Entry(44);
            && Rounded(4 * v.f * Pow2(9), c.f) == SUM && v.e - 2 - 9 + c.e + 64 == -51
            && Rounded(QuartersBelow(v) * Pow2(9), c.f) + 1 == SUM_LOW && Rounded(QuartersAbove(v) * Pow2(9), c.f) - 1 == SUM_HIGH
            && TWO63 <= QuartersAbove(v) * Pow2(9) < TWO64
  {
    assert Pow2(9) == 512;
  }
}
