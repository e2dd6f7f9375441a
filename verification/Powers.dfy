/** Powers of two and ten, and the wrap of the source's unsigned integers. */
module Powers {
  const TWO32: nat := 0x1_0000_0000
  const TWO63: nat := 0x8000_0000_0000_0000
  const TWO64: nat := 0x1_0000_0000_0000_0000

  function Wrap64(x: nat): (r: nat)
    ensures r < TWO64
  {
    x % TWO64
  }

  lemma NoWrap64(x: nat)
    requires x < TWO64
    ensures Wrap64(x) == x
  {
  }

  /** A sum of two words overflows exactly when it comes out smaller than one of them. */
  lemma WrapSum(x: nat, y: nat)
    requires x < TWO64 && y < TWO64
    ensures Wrap64(x + y) < y <==> x + y >= TWO64
    ensures Wrap64(x + y) < x <==> x + y >= TWO64
    ensures Wrap64(x + y) == if x + y >= TWO64 then x + y - TWO64 else x + y
  {
  }

  function Pow2(n: nat): (p: nat)
    ensures p >= 1
  {
    if n == 0 then 1 else 2 * Pow2(n - 1)
  }

  function Pow5(n: nat): (p: nat)
    ensures p >= 1
  {
    if n == 0 then 1 else 5 * Pow5(n - 1)
  }

  function Pow10(n: nat): (p: nat)
    ensures p >= 1
  {
    if n == 0 then 1 else 10 * Pow10(n - 1)
  }

  lemma {:induction false} Pow2Add(a: nat, b: nat)
    ensures Pow2(a + b) == Pow2(a) * Pow2(b)
  {
    if a > 0 {
      Pow2Add(a - 1, b);
      assert Pow2(a) * Pow2(b) == 2 * (Pow2(a - 1) * Pow2(b));
    }
  }

  lemma {:induction false} Pow5Add(a: nat, b: nat)
    ensures Pow5(a + b) == Pow5(a) * Pow5(b)
  {
    if a > 0 {
      Pow5Add(a - 1, b);
      assert Pow5(a) * Pow5(b) == 5 * (Pow5(a - 1) * Pow5(b));
    }
  }

  lemma {:induction false} Pow10Add(a: nat, b: nat)
    ensures Pow10(a + b) == Pow10(a) * Pow10(b)
  {
    if a > 0 {
      Pow10Add(a - 1, b);
      assert Pow10(a) * Pow10(b) == 10 * (Pow10(a - 1) * Pow10(b));
    }
  }

  lemma {:induction false} Pow10Splits(n: nat)
    ensures Pow10(n) == Pow5(n) * Pow2(n)
  {
    if n > 0 {
      Pow10Splits(n - 1);
      assert Pow5(n) * Pow2(n) == 10 * (Pow5(n - 1) * Pow2(n - 1));
    }
  }

  lemma {:induction false} Pow2Grows(a: nat, b: nat)
    requires a <= b
    ensures Pow2(a) <= Pow2(b)
  {
    if a < b {
      Pow2Grows(a, b - 1);
    }
  }

  lemma {:induction false} Pow10Grows(a: nat, b: nat)
    requires a <= b
    ensures Pow10(a) <= Pow10(b)
  {
    if a < b {
      Pow10Grows(a, b - 1);
    }
  }

  lemma PowersOfTwo()
    ensures Pow2(8) == 256 && Pow2(32) == TWO32 && Pow2(60) == 0x1000_0000_0000_0000
    ensures Pow2(63) == TWO63 && Pow2(64) == TWO64
  {
    hide Pow2;
    PowersOfTwoTo16();
    Pow2Add(16, 16);
    Pow2Add(32, 16);
    Pow2Add(48, 8);
    Pow2Add(56, 4);
    Pow2Add(60, 3);
    Pow2Add(32, 32);
  }

  lemma PowersOfTwoTo16()
    ensures Pow2(3) == 8 && Pow2(4) == 16 && Pow2(8) == 256 && Pow2(16) == 65536
  {
    assert Pow2(8) == 256;
    Pow2Add(8, 8);
  }

  /** Four factors regrouped, and an equal product put in. */
  lemma Regroup(c: int, p: int, u: int, t: int, d: int, v: int, w: int)
    requires p * u * d == v * w
    ensures (c * p) * (u * t) * d == (c * (v * t)) * w
  {
    assert (c * p) * (u * t) * d == (c * t) * (p * u * d);
    assert (c * t) * (v * w) == (c * (v * t)) * w;
  }

  lemma Cancel(a: int, b: int, p: nat)
    requires p > 0
    ensures a * p < b * p <==> a < b
    ensures a * p <= b * p <==> a <= b
  {
  }

  lemma PartialProducts(f: nat, g: nat, a: nat, b: nat, c: nat, d: nat)
    requires f == a * TWO32 + b && g == c * TWO32 + d
    ensures f * g == a * c * TWO64 + (a * d + b * c) * TWO32 + b * d
  {
    assert f * g == a * TWO32 * (c * TWO32) + a * TWO32 * d + b * (c * TWO32) + b * d;
  }

  lemma ProductBelow(a: nat, b: nat, m: nat)
    requires a <= m && b <= m
    ensures a * b <= m * m
  {
  }

  function Gap(a: int, b: int): nat {
    if a < b then b - a else a - b
  }
}
