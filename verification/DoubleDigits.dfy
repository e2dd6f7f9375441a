/** Doubles by their bits, as real numbers: printing gives a decimal nearest to the double, reading the double nearest to a decimal. */
module DoubleDigits {
  import opened RealPowers
  import opened Powers
  import opened Decimals
  import opened DiyFloat
  import opened DigitGeneration
  import opened Grisu
  import S = Strtod

  /** The number a pattern of a double stands for, up to the first one beyond the finite doubles. */
  ghost function Number(u: nat): real {
    if u < 0x10_0000_0000_0000 then Mul(u as real, Exp(2.0, -1074))
    else Mul((0x10_0000_0000_0000 + u % 0x10_0000_0000_0000) as real, Exp(2.0, u / 0x10_0000_0000_0000 - 1075))
  }

  lemma NumberIs(u: nat)
    requires 0 < u <= S.INFINITY
    ensures Number(u) == Mul(S.IntegerSignificand(u) as real, Exp(2.0, S.IntegerExponent(u)))
  {
    hide Mul, Exp;
    var q, r := u / 0x10_0000_0000_0000, u % 0x10_0000_0000_0000;
    S.Fields(u, q, r);
  }

  /** Closer to the double than half way to the next one on either side. */
  ghost predicate NearestTo(u: nat, x: real)
    requires u > 0
  {
    2.0 * (x - Number(u)) < Number(u + 1) - Number(u) && 2.0 * (Number(u) - x) < Number(u) - Number(u - 1)
  }

  lemma Quarters(f: nat, e: int)
    ensures Mul(f as real, Exp(2.0, e)) == Mul((4 * f) as real, Exp(2.0, e - 2))
  {
    hide Exp;
    ExpNext(2.0, e - 1);
    ExpNext(2.0, e - 2);
    var q := Exp(2.0, e - 2);
    assert Exp(2.0, e) == 4.0 * q;
    FourTimes(f as real, q);
    MulIs(4, f);
    assert Mul(4.0, f as real) == 4.0 * (f as real);
  }

  lemma FourTimes(f: real, q: real)
    ensures f * (4.0 * q) == (4.0 * f) * q
  {
  }

  lemma Halves(f: nat, e: int)
    ensures Mul(f as real, Exp(2.0, e - 1)) == Mul((2 * f) as real, Exp(2.0, e - 2))
  {
    hide Exp;
    ExpNext(2.0, e - 2);
    var q := Exp(2.0, e - 2);
    assert Exp(2.0, e - 1) == 2.0 * q;
    MulIs(2, f);
    assert Mul(2.0, f as real) == 2.0 * (f as real);
    Twice(f as real, q);
  }

  lemma Twice(f: real, q: real)
    ensures f * (2.0 * q) == (2.0 * f) * q
  {
  }

  lemma Apart(a: nat, b: nat, q: real)
    ensures Mul((a + b) as real, q) == Mul(a as real, q) + Mul(b as real, q)
  {
  }

  /** The next double is four quarters away. */
  lemma NextAbove(u: nat)
    requires 0 < u < S.INFINITY
    ensures Number(u) == Mul((4 * S.IntegerSignificand(u)) as real, Exp(2.0, S.IntegerExponent(u) - 2))
    ensures Number(u + 1) == Mul((4 * S.IntegerSignificand(u) + 4) as real, Exp(2.0, S.IntegerExponent(u) - 2))
  {
    hide Exp, Mul, Number, S.IntegerSignificand, S.IntegerExponent;
    NumberIs(u);
    NumberIs(u + 1);
    S.NextDouble(u);
    var f, e, f', e' := S.IntegerSignificand(u), S.IntegerExponent(u), S.IntegerSignificand(u + 1), S.IntegerExponent(u + 1);
    assert Pow2(0) == 1 && Pow2(1) == 2;
    Quarters(f, e);
    if e' == e {
      Quarters(f', e);
    } else {
      Quarters(f', e');
      Halves(4 * f', e);
    }
  }

  /** The one before is as far, or half as far below a power of two. */
  lemma NextBelow(u: nat)
    requires 1 < u < S.INFINITY
    ensures var f, q := S.IntegerSignificand(u), Exp(2.0, S.IntegerExponent(u) - 2);
            Number(u - 1) == Mul((4 * f - 4) as real, q) || (f == S.HIDDEN_BIT && Number(u - 1) == Mul((4 * f - 2) as real, q))
  {
    hide Exp, Mul, Number, S.IntegerSignificand, S.IntegerExponent;
    NumberIs(u - 1);
    S.NextDouble(u);
    S.NextDouble(u - 1);
    var f, e, f', e' := S.IntegerSignificand(u), S.IntegerExponent(u), S.IntegerSignificand(u - 1), S.IntegerExponent(u - 1);
    assert Pow2(0) == 1 && Pow2(1) == 2;
    if e' == e {
      Quarters(f', e);
    } else {
      Halves(f', e);
      Normal(u);
    }
  }

  lemma Normal(u: nat)
    requires 0 < u < S.INFINITY && S.IntegerExponent(u) > -1074
    ensures S.IntegerSignificand(u) >= S.HIDDEN_BIT
  {
  }

  lemma Between(a: nat, b: nat, q: real)
    requires q > 0.0
    ensures Mul((a + b) as real, q) - Mul(a as real, q) == (b as real) * q
  {
    Apart(a, b, q);
  }

  /** What lies between the two halfway points is nearest to the double. */
  lemma HalfwayIsNearest(u: nat, d: nat, K: int)
    requires 0 < u < S.INFINITY
    requires var v := DiyFp(S.IntegerSignificand(u), S.IntegerExponent(u)); v.f > 0 && WithinHalfUnits(v, d, K)
    ensures NearestTo(u, Mul(d as real, Exp(10.0, K)))
  {
    hide Exp, Mul, Number, S.IntegerSignificand, S.IntegerExponent;
    var f, q, x := S.IntegerSignificand(u), Exp(2.0, S.IntegerExponent(u) - 2), Mul(d as real, Exp(10.0, K));
    NextAbove(u);
    S.NextDouble(u);
    Between(4 * f, 2, q);
    Between(4 * f, 4, q);
    Between(4 * f - 2, 2, q);
    Between(4 * f - 1, 1, q);
    Between(4 * f - 4, 4, q);
    if u > 1 {
      NextBelow(u);
    } else {
      Least();
    }
  }

  lemma Least()
    ensures S.IntegerSignificand(1) == 1 && Number(0) == 0.0 && forall q: real :: Mul(0.0, q) == 0.0
  {
  }

  /** DiyFp's constructor from a double: mantissa and exponent field, with the hidden bit where the field is not zero. */
  function FromBits(u: nat): DiyFp {
    var biased, significand := u / HIDDEN_BIT % 2048, u % HIDDEN_BIT;
    if biased != 0 then DiyFp(significand + HIDDEN_BIT, biased - 0x433) else DiyFp(significand, -0x433 + 1)
  }

  /** It decodes to the number the bits stand for, as Double::IntegerSignificand and IntegerExponent do for all but zero. */
  lemma BitsAreNumber(u: nat)
    requires 0 < u < S.INFINITY
    ensures Number(u) == Mul(FromBits(u).f as real, Exp(2.0, FromBits(u).e))
    ensures FromBits(u) == DiyFp(S.IntegerSignificand(u), S.IntegerExponent(u))
    ensures 0 < FromBits(u).f < 2 * HIDDEN_BIT && -1074 <= FromBits(u).e <= 971
  {
    hide Exp, Mul, Number;
    NumberIs(u);
    S.NextDouble(u);
  }

  /** Grisu2 on the bits of a double: reading its digits back, with rounding to nearest, gives the same bits. */
  method DigitsOf(u: nat, buffer: array<char>) returns (len: nat, K: int)
    requires 0 < u < S.INFINITY && buffer.Length >= 21
    modifies buffer
    ensures len <= buffer.Length && Numeral(buffer[..len])
    ensures NearestTo(u, Mul(DecimalValue(buffer[..len]) as real, Exp(10.0, K)))
  {
    hide Exp, Mul, WithinHalfUnits, NearestTo, FromBits, S.IntegerSignificand, S.IntegerExponent;
    BitsAreNumber(u);
    len, K := Grisu2(FromBits(u), buffer);
    HalfwayIsNearest(u, DecimalValue(buffer[..len]), K);
  }

  // ----- Reading -----

  lemma InnerProduct(a: real, x: real, y: real, z: real)
    ensures Mul(Mul(a, x), Mul(y, z)) == Mul(Mul(a, Mul(x, y)), z)
  {
    assert (a * x) * (y * z) == (a * (x * y)) * z;
  }

  lemma CrossProduct(b: real, x: real, y: real, z: real)
    ensures Mul(Mul(b, x), Mul(y, z)) == Mul(Mul(b, y), Mul(x, z))
  {
    assert (b * x) * (y * z) == (b * y) * (x * z);
  }

  lemma Positives(x: real, y: real)
    requires x > 0.0 && y > 0.0
    ensures Mul(x, y) > 0.0
  {
  }

  /** What the two sides of the comparison have in common. */
  ghost function Common(dExp: int, e: int): (c: real)
    ensures c > 0.0
  {
    Positives(Exp(10.0, S.Positive(-dExp)), Exp(2.0, S.Positive(1 - e)));
    Mul(Exp(10.0, S.Positive(-dExp)), Exp(2.0, S.Positive(1 - e)))
  }

  lemma DecimalSideIs(d: nat, dExp: int, e: int)
    ensures S.DecimalSide(d, dExp, e) as real == Mul(Mul(d as real, Exp(10.0, dExp)), Common(dExp, e))
  {
    hide Exp, Mul, Pow2, Pow10;
    var p, n, m := S.Positive(dExp), S.Positive(-dExp), S.Positive(1 - e);
    MulIs(d, Pow10(p));
    MulIs(d * Pow10(p), Pow2(m));
    ExpIsPow10(p);
    ExpIsPow2(m);
    ExpAdd(10.0, dExp, n);
    InnerProduct(d as real, Exp(10.0, dExp), Exp(10.0, n), Exp(2.0, m));
  }

  lemma BinarySideIs(b: nat, dExp: int, e: int)
    ensures S.BinarySide(b, dExp, e) as real == Mul(Mul(b as real, Exp(2.0, e)), Common(dExp, e))
  {
    hide Exp, Mul, Pow2, Pow10;
    var n, q, m := S.Positive(-dExp), S.Positive(e - 1), S.Positive(1 - e);
    MulIs(b, Pow10(n));
    MulIs(b * Pow10(n), Pow2(q + 1));
    ExpIsPow10(n);
    ExpIsPow2(q + 1);
    ExpAdd(2.0, e, m);
    CrossProduct(b as real, Exp(2.0, e), Exp(10.0, n), Exp(2.0, m));
  }

  lemma Order(x: real, y: real, c: real)
    requires c > 0.0
    ensures Mul(x, c) <= Mul(y, c) <==> x <= y
  {
    if x <= y {
      assert (y - x) * c >= 0.0;
    } else {
      assert (x - y) * c > 0.0;
    }
  }

  lemma Differences(x: real, lo: real, hi: real, c: real)
    ensures Mul(x, c) - Mul(lo, c) - (Mul(hi, c) - Mul(x, c)) == Mul(2.0 * x - lo - hi, c)
  {
  }

  lemma SignOf(x: real, c: real)
    requires c > 0.0
    ensures Mul(x, c) > 0.0 <==> x > 0.0
    ensures Mul(x, c) < 0.0 <==> x < 0.0
  {
  }

  /** `r` is the nearest of the two doubles around `x`, the even one of two that are as near. */
  ghost predicate ReadsAs(x: real, u: nat, r: nat) {
    && (r == u || r == u + 1)
    && (x - Number(u) < Number(u + 1) - x ==> r == u)
    && (x - Number(u) > Number(u + 1) - x ==> r == u + 1)
    && (x - Number(u) == Number(u + 1) - x ==> r % 2 == 0)
  }

  lemma NextIs(u: nat)
    requires 0 < u < S.INFINITY
    ensures Number(u) == Mul(S.IntegerSignificand(u) as real, Exp(2.0, S.IntegerExponent(u)))
    ensures Number(u + 1) == Mul((S.IntegerSignificand(u) + 1) as real, Exp(2.0, S.IntegerExponent(u)))
  {
    hide Exp, Mul, Number, S.IntegerSignificand, S.IntegerExponent;
    NumberIs(u);
    NextAbove(u);
    Quarters(S.IntegerSignificand(u) + 1, S.IntegerExponent(u));
  }

  /** The integers that the rounding compares are the real distances, all times one factor. */
  lemma NearestIsReal(d: nat, dExp: int, u: nat, r: nat)
    requires 0 < u < S.INFINITY
    ensures var b, e, x := S.IntegerSignificand(u), S.IntegerExponent(u), Mul(d as real, Exp(10.0, dExp));
            var left, mid, right := S.BinarySide(b, dExp, e), S.DecimalSide(d, dExp, e), S.BinarySide(b + 1, dExp, e);
            && (left <= mid <= right <==> Number(u) <= x <= Number(u + 1))
            && (S.NearestEven(mid - left, right - mid, u, r) <==> ReadsAs(x, u, r))
  {
    hide Exp, Mul, Common, Number, S.IntegerSignificand, S.IntegerExponent, S.DecimalSide, S.BinarySide;
    var b, e, x := S.IntegerSignificand(u), S.IntegerExponent(u), Mul(d as real, Exp(10.0, dExp));
    var c, lo, hi := Common(dExp, e), Number(u), Number(u + 1);
    NextIs(u);
    DecimalSideIs(d, dExp, e);
    BinarySideIs(b, dExp, e);
    BinarySideIs(b + 1, dExp, e);
    Order(lo, x, c);
    Order(x, hi, c);
    Differences(x, lo, hi, c);
    SignOf(2.0 * x - lo - hi, c);
  }

  /**
   * Reading a decimal between two doubles gives the nearest one, for every decimal of at most 768 digits, exactly unless
   * what the subtraction of the source loses changes the outcome; without a loss always.
   */
  lemma ReadsNearest(d: nat, dExp: int, u: nat)
    requires 0 < u < S.INFINITY && Number(u) <= Mul(d as real, Exp(10.0, dExp)) <= Number(u + 1)
    ensures var b, e, x := S.IntegerSignificand(u), S.IntegerExponent(u), Mul(d as real, Exp(10.0, dExp));
            var gap, lost, half := S.ScaledGap(d, dExp, b, e), S.ScaledLoss(d, dExp, b, e), S.ScaledH(dExp, e);
            ReadsAs(x, u, S.Rounded(u, S.TestSign(d, dExp, b, e))) <==>
            || lost == 0 || gap > half || gap + lost < half
            || (gap == half && u % 2 == 1) || (gap + lost == half && u % 2 == 0)
  {
    hide Exp, Mul, Number, ReadsAs, S.IntegerSignificand, S.IntegerExponent, S.DecimalSide, S.BinarySide, S.TestSign, S.Rounded, S.NearestEven;
    var b, e := S.IntegerSignificand(u), S.IntegerExponent(u);
    NearestIsReal(d, dExp, u, S.Rounded(u, S.TestSign(d, dExp, b, e)));
    S.RoundsToNearest(d, dExp, u);
  }

  /** The digits that are printed for a double are read as that double by whoever rounds to nearest. */
  lemma PrintedIsRead(u: nat, x: real, r: nat)
    requires 0 < u < S.INFINITY && NearestTo(u, x)
    ensures Number(u) <= x <= Number(u + 1) && ReadsAs(x, u, r) ==> r == u
    ensures Number(u - 1) <= x <= Number(u) && ReadsAs(x, u - 1, r) ==> r == u
  {
    hide Number;
  }
}
