/** Products and powers of real numbers. */
module RealPowers {
  import opened Powers

  lemma {:induction false} RealProduct(a: nat, b: nat)
    ensures (a * b) as real == (a as real) * (b as real)
  {
    if a > 0 {
      RealProduct(a - 1, b);
      assert a * b == (a - 1) * b + b;
      assert (a as real) * (b as real) == ((a - 1) as real) * (b as real) + (b as real);
    }
  }

  function Mul(x: real, y: real): real {
    x * y
  }

  lemma MulIs(a: nat, b: nat)
    ensures (a * b) as real == Mul(a as real, b as real)
  {
    RealProduct(a, b);
  }

  /** A power with any integer exponent. */
  ghost function Exp(b: real, k: int): (r: real)
    requires b > 0.0
    ensures r > 0.0
    decreases if k < 0 then -k else k
  {
    if k == 0 then 1.0 else if k > 0 then b * Exp(b, k - 1) else Exp(b, k + 1) / b
  }

  lemma ExpNext(b: real, k: int)
    requires b > 0.0
    ensures Exp(b, k + 1) == b * Exp(b, k)
  {
  }

  lemma {:induction false} ExpAdd(b: real, j: int, k: int)
    requires b > 0.0
    ensures Exp(b, j + k) == Mul(Exp(b, j), Exp(b, k))
    decreases if k < 0 then -k else k
  {
    hide Exp;
    if k > 0 {
      ExpAdd(b, j, k - 1);
      ExpNext(b, j + k - 1);
      ExpNext(b, k - 1);
      Swap(b, Exp(b, j), Exp(b, k - 1));
    } else if k < 0 {
      ExpAdd(b, j, k + 1);
      ExpNext(b, j + k);
      ExpNext(b, k);
      Swap(b, Exp(b, j), Exp(b, k));
      SameFactor(b, Exp(b, j + k), Exp(b, j) * Exp(b, k));
    } else {
      ExpNone(b);
    }
  }

  lemma ExpNone(b: real)
    requires b > 0.0
    ensures Exp(b, 0) == 1.0
  {
  }

  lemma Swap(b: real, x: real, y: real)
    ensures b * (x * y) == x * (b * y)
  {
  }

  lemma SameFactor(b: real, x: real, y: real)
    requires b > 0.0 && b * x == b * y
    ensures x == y
  {
  }

  lemma {:induction false} ExpIsPow2(n: nat)
    ensures Exp(2.0, n) == Pow2(n) as real
  {
    if n > 0 {
      ExpIsPow2(n - 1);
    }
  }

  lemma {:induction false} ExpIsPow10(n: nat)
    ensures Exp(10.0, n) == Pow10(n) as real
  {
    if n > 0 {
      ExpIsPow10(n - 1);
    }
  }
}
