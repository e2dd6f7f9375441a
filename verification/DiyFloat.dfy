/** Significands with a binary exponent, internal/diyfp.h. */
module DiyFloat {
  import opened Powers

  /** The number `f * 2^e`; `f` is a 64-bit unsigned integer. */
  datatype DiyFp = DiyFp(f: nat, e: int)

  const HIDDEN_BIT: nat := 0x10_0000_0000_0000

  function Minus(x: DiyFp, y: DiyFp): DiyFp {
    DiyFp((x.f - y.f) % TWO64, x.e)
  }

  /** The product from four 32-bit partial products, every sum taken modulo 2^64. */
  function TimesPortable(x: DiyFp, y: DiyFp): DiyFp {
    var a, b, c, d := x.f / TWO32, x.f % TWO32, y.f / TWO32, y.f % TWO32;
    DiyFp(HighHalf(Wrap64(a * c), Wrap64(b * c), Wrap64(a * d), Wrap64(b * d)), x.e + y.e + 64)
  }

  /** The rounded high half of a product, from its partial products. */
  function HighHalf(ac: nat, bc: nat, ad: nat, bd: nat): nat {
    var tmp := Wrap64(Wrap64(bd / TWO32 + ad % TWO32 + bc % TWO32) + 0x8000_0000);
    Wrap64(ac + ad / TWO32 + bc / TWO32 + tmp / TWO32)
  }

  /** The product from the two halves of a 128-bit one. */
  function TimesWide(x: DiyFp, y: DiyFp): DiyFp {
    var p := x.f * y.f;
    var h, l := p / TWO64, p % TWO64;
    DiyFp(Wrap64(if l / TWO63 % 2 == 1 then h + 1 else h), x.e + y.e + 64)
  }

  /** The exact product, rounded to the nearest multiple of 2^64. */
  function Times(x: DiyFp, y: DiyFp): DiyFp {
    DiyFp((x.f * y.f + TWO63) / TWO64, x.e + y.e + 64)
  }

  lemma CarryOf(p: nat, q: nat, ac: nat, ad: nat, bc: nat, bd: nat)
    requires p == ac * TWO64 + (ad + bc) * TWO32 + bd
    requires q == bd / TWO32 + ad % TWO32 + bc % TWO32 + 0x8000_0000
    ensures (p + TWO63) / TWO64 == ac + ad / TWO32 + bc / TWO32 + q / TWO32
  {
    var r := q % TWO32 * TWO32 + bd % TWO32;
    assert p + TWO63 == (ac + ad / TWO32 + bc / TWO32 + q / TWO32) * TWO64 + r;
  }

  lemma ProductFits(f: nat, g: nat)
    requires f < TWO64 && g < TWO64
    ensures f * g <= (TWO64 - 1) * (TWO64 - 1)
    ensures (f * g + TWO63) / TWO64 < TWO64
  {
    ProductBelow(f, g, TWO64 - 1);
  }

  lemma SumsFit(ac: nat, ad: nat, bc: nat, bd: nat, q: nat)
    requires ac <= (TWO32 - 1) * (TWO32 - 1) && ad <= (TWO32 - 1) * (TWO32 - 1)
    requires bc <= (TWO32 - 1) * (TWO32 - 1) && bd <= (TWO32 - 1) * (TWO32 - 1)
    requires q == bd / TWO32 + ad % TWO32 + bc % TWO32 + 0x8000_0000
    ensures Wrap64(ac) == ac && Wrap64(bc) == bc && Wrap64(ad) == ad && Wrap64(bd) == bd
    ensures HighHalf(ac, bc, ad, bd) == ac + ad / TWO32 + bc / TWO32 + q / TWO32
  {
    hide Wrap64;
    NoWrap64(ac);
    NoWrap64(bc);
    NoWrap64(ad);
    NoWrap64(bd);
    NoWrap64(bd / TWO32 + ad % TWO32 + bc % TWO32);
    NoWrap64(q);
    NoWrap64(ac + ad / TWO32 + bc / TWO32 + q / TWO32);
  }

  /** No partial sum overflows, and the carries come out right. */
  lemma HighHalfRounds(p: nat, ac: nat, ad: nat, bc: nat, bd: nat)
    requires ac <= (TWO32 - 1) * (TWO32 - 1) && ad <= (TWO32 - 1) * (TWO32 - 1)
    requires bc <= (TWO32 - 1) * (TWO32 - 1) && bd <= (TWO32 - 1) * (TWO32 - 1)
    requires p == ac * TWO64 + (ad + bc) * TWO32 + bd
    ensures Wrap64(ac) == ac && Wrap64(bc) == bc && Wrap64(ad) == ad && Wrap64(bd) == bd
    ensures HighHalf(ac, bc, ad, bd) == (p + TWO63) / TWO64
  {
    hide HighHalf, Wrap64;
    var q := bd / TWO32 + ad % TWO32 + bc % TWO32 + 0x8000_0000;
    SumsFit(ac, ad, bc, bd, q);
    CarryOf(p, q, ac, ad, bc, bd);
  }

  lemma PortableRounds(x: DiyFp, y: DiyFp)
    requires x.f < TWO64 && y.f < TWO64
    ensures TimesPortable(x, y) == Times(x, y)
  {
    hide Wrap64, HighHalf;
    var a, b, c, d := x.f / TWO32, x.f % TWO32, y.f / TWO32, y.f % TWO32;
    ProductBelow(a, c, TWO32 - 1);
    ProductBelow(b, c, TWO32 - 1);
    ProductBelow(a, d, TWO32 - 1);
    ProductBelow(b, d, TWO32 - 1);
    PartialProducts(x.f, y.f, a, b, c, d);
    HighHalfRounds(x.f * y.f, a * c, a * d, b * c, b * d);
  }

  lemma RoundBit(p: nat)
    requires p <= (TWO64 - 1) * (TWO64 - 1)
    ensures Wrap64(if p % TWO64 / TWO63 % 2 == 1 then p / TWO64 + 1 else p / TWO64) == (p + TWO63) / TWO64
  {
    var h, l := p / TWO64, p % TWO64;
    assert l / TWO63 < 2;
    assert p + TWO63 == (if l / TWO63 % 2 == 1 then h + 1 else h) * TWO64 + (if l / TWO63 % 2 == 1 then l - TWO63 else l + TWO63);
  }

  /** Both ways to multiply give the exact product rounded to nearest, with no intermediate overflow. */
  lemma ProductsAgree(x: DiyFp, y: DiyFp)
    requires x.f < TWO64 && y.f < TWO64
    ensures TimesPortable(x, y) == Times(x, y) == TimesWide(x, y)
    ensures Times(x, y).f < TWO64
  {
    hide TimesPortable, Wrap64;
    PortableRounds(x, y);
    ProductFits(x.f, y.f);
    RoundBit(x.f * y.f);
  }

  /** Rounding errs by at most half a unit, downwards strictly less. */
  lemma RoundingError(p: nat)
    ensures var r := (p + TWO63) / TWO64 * TWO64; p - TWO63 < r <= p + TWO63
  {
  }

  /** `x` is the same number as `y`, shifted `n` bits. */
  predicate Shifted(y: DiyFp, x: DiyFp, n: nat) {
    y.f == x.f * Pow2(n) && y.e == x.e - n
  }

  /** Normalize: all leading zero bits are shifted out. */
  function LeadingZeros(f: nat): (n: nat)
    requires 0 < f < TWO64
    ensures TWO63 <= f * Pow2(n) < TWO64
    decreases TWO64 - f
  {
    if f >= TWO63 then 0
    else
      assert forall n: nat :: f * Pow2(n + 1) == (2 * f) * Pow2(n);
      1 + LeadingZeros(2 * f)
  }

  function Normalize(x: DiyFp): (y: DiyFp)
    requires 0 < x.f < TWO64
    ensures Shifted(y, x, LeadingZeros(x.f)) && TWO63 <= y.f < TWO64
  {
    var s := LeadingZeros(x.f);
    DiyFp(Wrap64(x.f * Pow2(s)), x.e - s)
  }

  /** A bit pattern has only one normalised form. */
  lemma {:induction false} OneNormalForm(f: nat, n: nat)
    requires 0 < f < TWO64 && TWO63 <= f * Pow2(n) < TWO64
    ensures n == LeadingZeros(f)
    decreases n
  {
    if n > 0 {
      assert f * Pow2(n) == (2 * f) * Pow2(n - 1);
      assert Pow2(n - 1) >= 1 && 2 * f <= (2 * f) * Pow2(n - 1);
      OneNormalForm(2 * f, n - 1);
    } else {
      assert f * Pow2(0) == f;
    }
  }

  lemma ShiftOnce(f: nat, n: nat)
    ensures f * Pow2(n + 1) == 2 * (f * Pow2(n))
  {
  }

  lemma ShiftedOnce(x: DiyFp, y: DiyFp, n: nat)
    requires Shifted(y, x, n)
    ensures Shifted(DiyFp(y.f * 2, y.e - 1), x, n + 1)
  {
    ShiftOnce(x.f, n);
  }

  lemma ShiftedTen(x: DiyFp, y: DiyFp, n: nat)
    requires Shifted(y, x, n)
    ensures Shifted(DiyFp(y.f * 1024, y.e - 10), x, n + 10)
  {
    ShiftTen(x.f, n);
  }

  lemma ShiftedZero(x: DiyFp)
    ensures Shifted(x, x, 0)
  {
  }

  predicate HasBit53(f: nat)
    ensures f < 4 * HIDDEN_BIT ==> (HasBit53(f) <==> f >= 2 * HIDDEN_BIT)
  {
    f / (2 * HIDDEN_BIT) % 2 == 1
  }

  /** Shifts bit 53 into place one bit at a time, then ten bits at once. */
  method NormalizeBoundary(x: DiyFp) returns (res: DiyFp, ghost n: nat)
    requires 0 < x.f < 4 * HIDDEN_BIT
    ensures Shifted(res, x, n) && TWO63 <= res.f < TWO64 && n >= 10
  {
    hide Shifted, HasBit53;
    res, n := x, 0;
    ShiftedZero(x);
    while !HasBit53(res.f)
      invariant 0 < res.f < 4 * HIDDEN_BIT && Shifted(res, x, n)
      decreases 4 * HIDDEN_BIT - res.f
    {
      ShiftedOnce(x, res, n);
      res := DiyFp(Wrap64(res.f * 2), res.e - 1);
      n := n + 1;
    }
    ShiftedTen(x, res, n);
    res := DiyFp(Wrap64(res.f * 1024), res.e - 10);
    n := n + 10;
  }

  lemma ShiftTen(f: nat, n: nat)
    ensures f * Pow2(n + 10) == f * Pow2(n) * 1024
  {
    Pow2Add(n, 10);
    assert Pow2(10) == 1024;
    assert f * (Pow2(n) * 1024) == f * Pow2(n) * 1024;
  }

  /**
   * The halfway points to the neighbours of `v`, in units of a quarter of its last place:
   * below a power of two the lower neighbour is twice as close.
   */
  function QuartersBelow(v: DiyFp): nat
    requires v.f > 0
  {
    if v.f == HIDDEN_BIT then 4 * v.f - 1 else 4 * v.f - 2
  }

  function QuartersAbove(v: DiyFp): nat {
    4 * v.f + 2
  }

  /** Both halfway points, exactly, with the exponent of the upper one when normalised. */
  method NormalizedBoundaries(v: DiyFp) returns (minus: DiyFp, plus: DiyFp, ghost n: nat)
    requires 0 < v.f < 2 * HIDDEN_BIT
    ensures n >= 9 && plus.e == minus.e == v.e - 2 - n
    ensures plus.f == QuartersAbove(v) * Pow2(n) && TWO63 <= plus.f < TWO64
    ensures minus.f == QuartersBelow(v) * Pow2(n)
  {
    hide Pow2, Shifted;
    var pl, mi := DiyFp(v.f * 2 + 1, v.e - 1), if v.f == HIDDEN_BIT then DiyFp(v.f * 4 - 1, v.e - 2) else DiyFp(v.f * 2 - 1, v.e - 1);
    ghost var m;
    plus, m := NormalizeBoundary(pl);
    n := m - 1;
    PlusIs(pl, plus, m);
    MinusFits(v, m);
    var shift: nat := mi.e - plus.e;
    minus := DiyFp(Wrap64(mi.f * Pow2(shift)), plus.e);
  }

  lemma PlusIs(x: DiyFp, y: DiyFp, n: nat)
    requires Shifted(y, x, n)
    ensures y.e == x.e - n && y.f == x.f * Pow2(n)
  {
  }

  /** Shifted to the exponent of the upper boundary, the lower one still fits; `n - 1` is the shift in quarters. */
  lemma MinusFits(v: DiyFp, n: nat)
    requires 0 < v.f && 1 <= n && (2 * v.f + 1) * Pow2(n) < TWO64
    ensures (2 * v.f + 1) * Pow2(n) == QuartersAbove(v) * Pow2(n - 1)
    ensures v.f != HIDDEN_BIT ==> (2 * v.f - 1) * Pow2(n) == QuartersBelow(v) * Pow2(n - 1)
    ensures QuartersBelow(v) * Pow2(n - 1) < TWO64
  {
    hide Pow2;
    ShiftOnce(2 * v.f + 1, n - 1);
    ShiftOnce(2 * v.f - 1, n - 1);
    var p := Pow2(n - 1);
    Doubled(2 * v.f + 1, p);
    Doubled(2 * v.f - 1, p);
    Cancel(QuartersBelow(v), QuartersAbove(v), p);
  }

  lemma Doubled(x: nat, p: nat)
    ensures 2 * (x * p) == (2 * x) * p
  {
  }
}
