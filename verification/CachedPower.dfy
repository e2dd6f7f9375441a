/** GetCachedPower of internal/diyfp.h: the power of ten that brings a product into the range of the digit loops. */
module CachedPowers {
  import opened Powers
  import opened RealPowers
  import opened DiyFloat
  import opened PowerTable

  /** `c` is a power of ten rounded to 64 bits; `power` is the exact one in units of the last place of `c`. */
  ghost predicate Cached(c: DiyFp, power: real) {
    TWO63 <= c.f < TWO64 && c.f as real - 0.5 <= power <= c.f as real + 0.5
  }

  /** The power of ten `10^-k0` in units of the last place of `c`. */
  ghost function PowerOf(c: DiyFp, k0: int): real {
    Mul(Exp(10.0, -k0), Exp(2.0, -c.e))
  }

  // ----- Every entry is its power, rounded -----

  ghost function Exact(i: nat): real {
    Mul(Exp(10.0, 8 * i - 348), Exp(2.0, -Exponent(i)))
  }

  lemma EightTens()
    ensures Exp(10.0, 8) == 100000000.0 && Exp(10.0, 4) == 10000.0
  {
    ExpIsPow10(4);
    ExpIsPow10(8);
  }

  function Ratio(n: int): nat {
    if n == 26 then 0x400_0000 else 0x800_0000
  }

  lemma RatioIsPower(n: int)
    requires 26 <= n <= 27
    ensures Exp(2.0, n) == Ratio(n) as real
  {
    PowersOfTwoTo16();
    Pow2Add(16, 8);
    ExpIsPow2(n);
    assert Pow2(26) == 4 * Pow2(24) && Pow2(27) == 8 * Pow2(24);
  }

  lemma Neighbours(i: nat)
    requires 26 <= Exponent(i + 1) - Exponent(i) <= 27
    ensures Mul(Exact(i), 100000000.0) == Mul(Exact(i + 1), Ratio(Exponent(i + 1) - Exponent(i)) as real)
  {
    hide Exp, Mul, Ratio, Exponent;
    var n := Exponent(i + 1) - Exponent(i);
    RatioIsPower(n);
    EightTens();
    ExpAdd(10.0, 8 * i - 348, 8);
    ExpAdd(2.0, -Exponent(i + 1), n);
    Reorder(Exp(10.0, 8 * i - 348), Exp(2.0, -Exponent(i + 1)), Exp(2.0, n), Exp(10.0, 8));
  }

  lemma Reorder(a: real, b: real, p: real, q: real)
    ensures Mul(Mul(a, Mul(b, p)), q) == Mul(Mul(Mul(a, q), b), p)
  {
  }

  lemma MiddleIsExact()
    ensures Exact(44) == Significand(44) as real && Tail(44) == 0
  {
    hide Exp, Pow2;
    EightTens();
    ExpIsPow2(50);
    PowersOfTwo();
    PowersOfTwoTo16();
    Pow2Add(32, 16);
    Pow2Of2();
    Pow2Add(48, 2);
    assert Exponent(44) == -50 && Significand(44) == 10000 * 0x4_0000_0000_0000;
  }

  lemma Pow2Of2()
    ensures Pow2(2) == 4
  {
  }

  /** Known to `w` units of the finer place. */
  ghost predicate Known(i: nat, w: nat) {
    Fine(i) as real <= Mul(Exact(i), TWO64 as real) <= (Fine(i) + w) as real
  }

  /** One step away from the middle at most doubles what is not known. */
  lemma StepBounds(x: real, y: real, f: int, g: int, w: nat, a: nat, b: nat)
    requires Mul(x, a as real) == Mul(y, b as real) && 2 * b <= 3 * a && w >= 2
    requires a in {100000000, 0x400_0000, 0x800_0000} && b in {100000000, 0x400_0000, 0x800_0000}
    requires f * a <= g * b < (f + 1) * a && g as real <= y <= (g + w) as real
    ensures f as real <= x <= (f + 2 * w) as real
  {
  }

  lemma Finer(x: real, y: real, a: real, b: real, t: real)
    requires Mul(x, a) == Mul(y, b)
    ensures Mul(Mul(x, t), a) == Mul(Mul(y, t), b)
  {
    assert x * t * a == x * a * t;
    assert y * t * b == y * b * t;
  }

  lemma KnownNext(i: nat, w: nat)
    requires i < 86 && w >= 2
    ensures i < 44 && Known(i + 1, w) ==> Known(i, 2 * w)
    ensures i >= 44 && Known(i, w) ==> Known(i + 1, 2 * w)
  {
    hide Exact, Mul, Fine, Exponent, Significand, Tail;
    AllSteps(i);
    Neighbours(i);
    var p := Ratio(Exponent(i + 1) - Exponent(i));
    var x, y, t := Exact(i), Exact(i + 1), TWO64 as real;
    Finer(x, y, 100000000.0, p as real, t);
    if i < 44 && Known(i + 1, w) {
      StepBounds(Mul(x, t), Mul(y, t), Fine(i), Fine(i + 1), w, 100000000, p);
    } else if i >= 44 && Known(i, w) {
      StepBounds(Mul(y, t), Mul(x, t), Fine(i + 1), Fine(i), w, p, 100000000);
    }
  }

  lemma {:induction false} KnownTo(i: nat, n: nat)
    requires i < 87 && (i == 44 + n || i == 44 - n)
    ensures Known(i, 2 * Pow2(n))
    decreases n
  {
    hide Known, Pow2;
    if n == 0 {
      MiddleIsKnown();
    } else if i < 44 {
      KnownTo(i + 1, n - 1);
      KnownNext(i, 2 * Pow2(n - 1));
      TwiceAsWide(n);
    } else {
      KnownTo(i - 1, n - 1);
      KnownNext(i - 1, 2 * Pow2(n - 1));
      TwiceAsWide(n);
    }
  }

  lemma TwiceAsWide(n: nat)
    requires n > 0
    ensures Pow2(n) == 2 * Pow2(n - 1)
  {
  }

  lemma MiddleIsKnown()
    ensures Known(44, 2 * Pow2(0))
  {
    hide Exact, Significand, Tail;
    MiddleIsExact();
    assert Pow2(0) == 1;
  }

  function Entry(i: nat): DiyFp {
    DiyFp(Significand(i), Exponent(i))
  }

  /** Every entry of the table is the power of ten it stands for, rounded to nearest. */
  lemma TableIsRounded(i: nat)
    requires i < 87
    ensures Cached(Entry(i), PowerOf(Entry(i), 348 - 8 * i))
  {
    hide Exp, Significand, Exponent, Tail, Pow2;
    var n := if i < 44 then 44 - i else i - 44;
    AllRows(i);
    KnownTo(i, n);
    Pow2Grows(n, 44);
    PowersOfTwo();
    PowersOfTwoTo16();
    Pow2Add(32, 8);
    Pow2Add(40, 4);
    assert -(348 - 8 * i) == 8 * i - 348;
  }

  // ----- The choice -----

  /** The exponents a row is chosen for are those it suits. */
  lemma Suits(e: int, i: nat)
    requires i < 87
    requires (8 * i - 356) * 100000000000000000 - 100000000000 < (-61 - e) * 30102999566398114 <= (8 * i - 348) * 100000000000000000 + 100000000000
    ensures -124 <= e + Exponent(i) <= -98
    ensures e + Exponent(i) == -98 ==> Significand(i) < 100000000 * 0x20_0000_0000
  {
    hide Exponent, Significand, Tail;
    AllRows(i);
  }

  /** The product and the sum in floating point, of which no more is used than that they err by less than a millionth. */
  method DecimalExponent(e: int) returns (dk: real)
    requires -1190 <= e <= 1091
    ensures -0.000001 <= dk - ((-61 - e) as real * 0.30102999566398114 + 347.0) <= 0.000001
  {
    dk := (-61 - e) as real * 0.30102999566398114 + 347.0;
  }

  /** The decimal exponent is chosen for a product whose binary exponent is between -60 and -34. */
  method GetCachedPower(e: int) returns (c: DiyFp, K: int)
    requires -1190 <= e <= 1091
    ensures Cached(c, PowerOf(c, K))
    ensures -60 <= e + c.e + 64 <= -34 && (e + c.e + 64 == -34 ==> c.f < 100000000 * 0x20_0000_0000)
  {
    hide Cached, PowerOf, Exponent, Significand;
    var dk := DecimalExponent(e);
    var k := dk.Floor;
    if dk - k as real > 0.0 {
      k := k + 1;
    }
    var index := k / 8 + 1;
    K := -(-348 + index * 8);
    Suits(e, index);
    TableIsRounded(index);
    c := Entry(index);
  }
}
