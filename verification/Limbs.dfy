/** Numbers as sequences of 64-bit words, least significant first. */
module Limbs {
  import opened Powers

  function Base(n: nat): (p: nat)
    ensures p >= 1
  {
    if n == 0 then 1 else TWO64 * Base(n - 1)
  }

  predicate Words(s: seq<nat>) {
    forall i :: 0 <= i < |s| ==> s[i] < TWO64
  }

  function ValueOf(s: seq<nat>): nat {
    if s == [] then 0 else ValueOf(s[..|s| - 1]) + s[|s| - 1] * Base(|s| - 1)
  }

  /** No leading zero word, except in the number zero itself. */
  predicate Normal(s: seq<nat>) {
    |s| >= 1 && Words(s) && (|s| > 1 ==> s[|s| - 1] != 0)
  }

  lemma {:induction false} BaseAdd(a: nat, b: nat)
    ensures Base(a + b) == Base(a) * Base(b)
  {
    if a > 0 {
      BaseAdd(a - 1, b);
      Associate(TWO64, Base(a - 1), Base(b));
    }
  }

  lemma Associate(a: int, b: int, c: int)
    ensures a * b * c == a * (b * c)
  {
  }

  lemma {:induction false} BaseIsPower(n: nat)
    ensures Base(n) == Pow2(64 * n)
  {
    if n > 0 {
      BaseIsPower(n - 1);
      Pow2Add(64, 64 * (n - 1));
      PowersOfTwo();
    }
  }

  lemma {:induction false} BaseGrows(a: nat, b: nat)
    requires a <= b
    ensures Base(a) <= Base(b)
  {
    if a < b {
      BaseGrows(a, b - 1);
    }
  }

  lemma ValueOfPrefix(s: seq<nat>, i: nat)
    requires i < |s|
    ensures ValueOf(s[..i + 1]) == ValueOf(s[..i]) + s[i] * Base(i)
  {
    assert s[..i + 1][..i] == s[..i];
  }

  lemma WordBelow(low: nat, w: nat, p: nat)
    requires low < p && w < TWO64
    ensures low + w * p < TWO64 * p
  {
    Cancel(w + 1, TWO64, p);
    assert (w + 1) * p == w * p + p;
  }

  lemma {:induction false} ValueBelow(s: seq<nat>)
    requires Words(s)
    ensures ValueOf(s) < Base(|s|)
    decreases |s|
  {
    if s != [] {
      ValueBelow(s[..|s| - 1]);
      WordBelow(ValueOf(s[..|s| - 1]), s[|s| - 1], Base(|s| - 1));
    }
  }

  lemma TopWord(low: nat, w: nat, p: nat)
    requires w >= 1
    ensures p <= low + w * p
  {
    if p > 0 {
      Cancel(1, w, p);
    }
  }

  lemma NormalAtLeast(s: seq<nat>)
    requires Normal(s) && |s| > 1
    ensures ValueOf(s) >= Base(|s| - 1)
  {
    TopWord(ValueOf(s[..|s| - 1]), s[|s| - 1], Base(|s| - 1));
  }

  /** A normalised number uses no more words than it needs. */
  lemma FewWords(s: seq<nat>, n: nat)
    requires Normal(s) && ValueOf(s) < Base(n) && n >= 1
    ensures |s| <= n
  {
    if |s| > n {
      NormalAtLeast(s);
      BaseGrows(n, |s| - 1);
    }
  }

  lemma {:induction false} ValueOfConcat(s: seq<nat>, t: seq<nat>)
    ensures ValueOf(s + t) == ValueOf(s) + Base(|s|) * ValueOf(t)
    decreases |t|
  {
    if t == [] {
      assert s + t == s;
    } else {
      var u := t[..|t| - 1];
      ValueOfConcat(s, u);
      assert (s + t)[..|s + t| - 1] == s + u;
      BaseAdd(|s|, |u|);
      AddWord(Base(|s|), ValueOf(u), t[|t| - 1], Base(|u|));
    }
  }

  lemma AddWord(p: nat, v: nat, w: nat, q: nat)
    ensures p * (v + w * q) == p * v + w * (p * q)
  {
  }

  lemma {:induction false} Zeros(n: nat)
    ensures ValueOf(seq(n, _ => 0)) == 0
  {
    if n > 0 {
      var s: seq<nat> := seq(n, _ => 0);
      assert s[..n - 1] == seq(n - 1, _ => 0);
      Zeros(n - 1);
    }
  }

  /** Zero words on top do not count. */
  lemma {:induction false} TopZeros(s: seq<nat>, n: nat)
    requires n <= |s| && forall i :: n <= i < |s| ==> s[i] == 0
    ensures ValueOf(s) == ValueOf(s[..n])
    decreases |s|
  {
    if n == |s| {
      assert s[..n] == s;
    } else {
      TopZeros(s[..|s| - 1], n);
      assert s[..|s| - 1][..n] == s[..n];
    }
  }

  // ----- The words of a number -----

  function Low(x: nat, i: nat): nat {
    x % Base(i)
  }

  function Word(x: nat, i: nat): nat {
    x / Base(i) % TWO64
  }

  /** What is left of `x` above its lowest `i` words. */
  function Above(x: nat, i: nat): nat {
    x / Base(i)
  }

  lemma DivideUnique(x: nat, q: nat, r: nat, p: nat)
    requires p > 0 && x == q * p + r && r < p
    ensures x / p == q && x % p == r
  {
    var d := x / p - q;
    assert x == (x / p) * p + x % p;
    assert d * p == (x / p) * p - q * p;
    assert d * p == r - x % p;
    Cancel(d, 1, p);
    Cancel(-1, d, p);
  }

  lemma WordFirst(w: nat, t: seq<nat>)
    ensures ValueOf([w] + t) == w + TWO64 * ValueOf(t)
  {
    hide Base, ValueOf;
    ValueOfConcat([w], t);
    OneWord(w);
  }

  lemma SplitAt(s: seq<nat>, i: nat)
    requires i < |s|
    ensures ValueOf(s) == ValueOf(s[..i]) + Base(i) * ValueOf(s[i..])
    ensures ValueOf(s[i..]) == s[i] + TWO64 * ValueOf(s[i + 1..])
  {
    hide Base, ValueOf;
    ValueOfConcat(s[..i], s[i..]);
    assert s == s[..i] + s[i..];
    WordFirst(s[i], s[i + 1..]);
    assert s[i..] == [s[i]] + s[i + 1..];
  }

  lemma OneWord(w: nat)
    ensures ValueOf([w]) == w && Base(1) == TWO64
  {
    assert [w][..0] == [];
  }

  lemma WordsOf(s: seq<nat>, i: nat)
    requires Words(s) && i < |s|
    ensures ValueOf(s[..i]) == Low(ValueOf(s), i) && s[i] == Word(ValueOf(s), i)
  {
    hide Base, ValueOf;
    SplitAt(s, i);
    ValueBelow(s[..i]);
    var q := ValueOf(s[i..]);
    Commute(Base(i), q);
    DivideUnique(ValueOf(s), q, ValueOf(s[..i]), Base(i));
    DivideUnique(q, ValueOf(s[i + 1..]), s[i], TWO64);
  }

  lemma Commute(p: int, q: int)
    ensures p * q == q * p
  {
  }

  lemma MoreOfIt(x: nat, y: nat, p: nat)
    requires x < y && p > 0
    ensures x * p + p <= y * p
  {
    Cancel(x + 1, y, p);
    assert (x + 1) * p == x * p + p;
  }

  /** Where the two numbers differ at the top, the larger word decides. */
  lemma {:induction false} TopDecides(s: seq<nat>, t: seq<nat>, n: nat)
    requires Words(s) && Words(t) && |s| == |t| && n < |s|
    requires s[n] < t[n] && forall i :: n < i < |s| ==> s[i] == t[i]
    ensures ValueOf(s) < ValueOf(t)
    decreases |s|
  {
    hide ValueOf, Base;
    var m := |s| - 1;
    ValueOfPrefix(s, m);
    ValueOfPrefix(t, m);
    assert s[..m + 1] == s && t[..m + 1] == t;
    if n == m {
      ValueBelow(s[..m]);
      MoreOfIt(s[m], t[m], Base(m));
    } else {
      TopDecides(s[..m], t[..m], n);
    }
  }

  lemma {:induction false} SameTop(s: seq<nat>, t: seq<nat>, i: nat)
    requires i <= |s| == |t| && forall j :: i <= j < |s| ==> s[j] == t[j]
    ensures ValueOf(s) - ValueOf(s[..i]) == ValueOf(t) - ValueOf(t[..i])
    decreases |s|
  {
    if i == |s| {
      assert s[..i] == s && t[..i] == t;
    } else {
      SameTop(s[..|s| - 1], t[..|t| - 1], i);
      assert s[..|s| - 1][..i] == s[..i] && t[..|t| - 1][..i] == t[..i];
    }
  }

  /** A number that needs all its words has no leading zero word. */
  lemma NormalByValue(s: seq<nat>)
    requires |s| >= 1 && Words(s) && (|s| > 1 ==> ValueOf(s) >= Base(|s| - 1))
    ensures Normal(s)
  {
    if |s| > 1 && s[|s| - 1] == 0 {
      ValueBelow(s[..|s| - 1]);
    }
  }

  lemma NormalWords(s: seq<nat>)
    requires Normal(s)
    ensures |s| >= 1 && Words(s)
  {
  }

  lemma NormalAfter(s: seq<nat>, t: seq<nat>)
    requires Normal(s) && |t| == |s| && Words(t) && ValueOf(t) >= ValueOf(s)
    ensures Normal(t)
  {
    if |s| > 1 {
      NormalAtLeast(s);
    }
    NormalByValue(t);
  }

  lemma Pushed(s: seq<nat>, w: nat)
    ensures ValueOf(s + [w]) == ValueOf(s) + w * Base(|s|)
  {
    assert (s + [w])[..|s|] == s;
  }

  // ----- Words -----

  /** The low and the high word of `a * b + k`. */
  function MulAdd64(a: nat, b: nat, k: nat): (nat, nat) {
    var a0, a1, b0, b1 := a % TWO32, a / TWO32, b % TWO32, b / TWO32;
    FromHalves(Product64(a0, b0), Product64(a0, b1), Product64(a1, b0), Product64(a1, b1), k)
  }

  function Product64(a: nat, b: nat): nat {
    Wrap64(a * b)
  }

  /** The portable sum of the four products of half words, with its two carries. */
  function FromHalves(x0: nat, y: nat, x2: nat, y3: nat, k: nat): (nat, nat) {
    var y1 := Wrap64(y + x0 / TWO32);
    var x1 := Wrap64(y1 + x2);
    var x3 := if x1 < x2 then Wrap64(y3 + TWO32) else y3;
    var lo := Wrap64(Wrap64(x1 * TWO32) + x0 % TWO32);
    var hi := Wrap64(x3 + x1 / TWO32);
    var l := Wrap64(lo + k);
    (l, if l < k then Wrap64(hi + 1) else hi)
  }

  lemma LowHalfShifted(x: nat)
    ensures Wrap64(x * TWO32) == x % TWO32 * TWO32
  {
    HighPart(x);
    DivideUnique(x * TWO32, x / TWO32, x % TWO32 * TWO32, TWO64);
  }

  lemma HighPart(x: nat)
    ensures x * TWO32 == x / TWO32 * TWO64 + x % TWO32 * TWO32 && x % TWO32 * TWO32 < TWO64
  {
  }

  /** The sum of the products of the half words, without `k`. */
  lemma HalvesExact(x0: nat, y: nat, x2: nat, y3: nat, p: nat)
    requires x0 <= (TWO32 - 1) * (TWO32 - 1) && y <= (TWO32 - 1) * (TWO32 - 1)
    requires x2 <= (TWO32 - 1) * (TWO32 - 1) && y3 <= (TWO32 - 1) * (TWO32 - 1)
    requires p == y3 * TWO64 + (y + x2) * TWO32 + x0 <= (TWO64 - 1) * (TWO64 - 1)
    ensures var y1 := Wrap64(y + x0 / TWO32);
            var x1 := Wrap64(y1 + x2);
            var x3 := if x1 < x2 then Wrap64(y3 + TWO32) else y3;
            Wrap64(Wrap64(x1 * TWO32) + x0 % TWO32) + Wrap64(x3 + x1 / TWO32) * TWO64 == p
  {
    hide Wrap64;
    var y1 := y + x0 / TWO32;
    NoWrap64(y1);
    WrapSum(y1, x2);
    var x1 := Wrap64(y1 + x2);
    NoWrap64(y3 + TWO32);
    var x3 := if x1 < x2 then Wrap64(y3 + TWO32) else y3;
    LowHalfShifted(x1);
    NoWrap64(x1 % TWO32 * TWO32 + x0 % TWO32);
    assert x1 % TWO32 * TWO32 + x0 % TWO32 + (x3 + x1 / TWO32) * TWO64 == p;
    NoWrap64(x3 + x1 / TWO32);
  }

  lemma FromHalvesExact(x0: nat, y: nat, x2: nat, y3: nat, k: nat, p: nat)
    requires x0 <= (TWO32 - 1) * (TWO32 - 1) && y <= (TWO32 - 1) * (TWO32 - 1)
    requires x2 <= (TWO32 - 1) * (TWO32 - 1) && y3 <= (TWO32 - 1) * (TWO32 - 1) && k < TWO64
    requires p == y3 * TWO64 + (y + x2) * TWO32 + x0 <= (TWO64 - 1) * (TWO64 - 1)
    ensures var (l, h) := FromHalves(x0, y, x2, y3, k);
            l < TWO64 && h < TWO64 && l + h * TWO64 == p + k
  {
    hide Wrap64;
    HalvesExact(x0, y, x2, y3, p);
    var y1 := Wrap64(y + x0 / TWO32);
    var x1 := Wrap64(y1 + x2);
    var x3 := if x1 < x2 then Wrap64(y3 + TWO32) else y3;
    var lo, hi := Wrap64(Wrap64(x1 * TWO32) + x0 % TWO32), Wrap64(x3 + x1 / TWO32);
    WrapSum(lo, k);
    assert hi < TWO64 - 1;
    NoWrap64(hi + 1);
  }

  lemma MulAdd64Exact(a: nat, b: nat, k: nat)
    requires a < TWO64 && b < TWO64 && k < TWO64
    ensures var (l, h) := MulAdd64(a, b, k);
            l < TWO64 && h < TWO64 && l + h * TWO64 == a * b + k
  {
    hide Wrap64, FromHalves;
    var a0, a1, b0, b1 := a % TWO32, a / TWO32, b % TWO32, b / TWO32;
    ProductBelow(a0, b0, TWO32 - 1);
    ProductBelow(a0, b1, TWO32 - 1);
    ProductBelow(a1, b0, TWO32 - 1);
    ProductBelow(a1, b1, TWO32 - 1);
    ProductBelow(a, b, TWO64 - 1);
    PartialProducts(a, b, a1, a0, b1, b0);
    NoWrap64(a0 * b0);
    NoWrap64(a0 * b1);
    NoWrap64(a1 * b0);
    NoWrap64(a1 * b1);
    FromHalvesExact(a0 * b0, a0 * b1, a1 * b0, a1 * b1, k, a * b);
  }

  /** The low and the high word of `a * u + k` for a factor and a carry of 32 bits. */
  function MulAdd32(a: nat, u: nat, k: nat): (nat, nat) {
    From32(Wrap64(u * (a / TWO32)), Wrap64(u * (a % TWO32)), k)
  }

  function From32(uc: nat, ud: nat, k: nat): (nat, nat) {
    var p0 := Wrap64(ud + k);
    var p1 := Wrap64(uc + p0 / TWO32);
    (p0 % TWO32 + Wrap64(p1 * TWO32), p1 / TWO32)
  }

  lemma From32Exact(uc: nat, ud: nat, k: nat)
    requires uc <= (TWO32 - 1) * (TWO32 - 1) && ud <= (TWO32 - 1) * (TWO32 - 1) && k < TWO32
    ensures var (l, h) := From32(uc, ud, k);
            l < TWO64 && h < TWO32 && l + h * TWO64 == uc * TWO32 + ud + k
  {
    hide Wrap64;
    NoWrap64(ud + k);
    var p0 := ud + k;
    NoWrap64(uc + p0 / TWO32);
    LowHalfShifted(uc + p0 / TWO32);
  }

  lemma MulAdd32Exact(a: nat, u: nat, k: nat)
    requires a < TWO64 && u < TWO32 && k < TWO32
    ensures var (l, h) := MulAdd32(a, u, k);
            l < TWO64 && h < TWO32 && l + h * TWO64 == a * u + k
  {
    hide Wrap64, From32;
    var c, d := a / TWO32, a % TWO32;
    ProductBelow(u, c, TWO32 - 1);
    ProductBelow(u, d, TWO32 - 1);
    NoWrap64(u * c);
    NoWrap64(u * d);
    From32Exact(u * c, u * d, k);
    SplitProduct(a, u, c, d);
  }

  lemma SplitProduct(a: nat, u: nat, c: nat, d: nat)
    requires a == c * TWO32 + d
    ensures a * u == u * c * TWO32 + u * d
  {
  }

  /** One more word of a product. */
  lemma ProductStep(low: nat, v: nat, d: nat, u: nat, k: nat, l: nat, h: nat, p: nat)
    requires low + k * p == v * u && l + h * TWO64 == d * u + k
    ensures (low + l * p) + h * (TWO64 * p) == (v + d * p) * u
  {
    assert (low + l * p) + h * (TWO64 * p) == low + (l + h * TWO64) * p;
    assert (d * u + k) * p == d * p * u + k * p;
    assert (v + d * p) * u == v * u + d * p * u;
  }

  // ----- Steps of the loops over words -----

  lemma FirstWord(s: seq<nat>, t: seq<nat>, u: nat)
    requires |s| == |t| >= 1 && s[0] < TWO64 && u < TWO64 && t[0] == Wrap64(s[0] + u)
    ensures ValueOf(t[..1]) + (if t[0] < s[0] then Base(1) else 0) == ValueOf(s[..1]) + u
  {
    OneWord(s[0]);
    OneWord(t[0]);
    assert s[..1] == [s[0]] && t[..1] == [t[0]];
    WrapSum(s[0], u);
  }

  /** The words from `i` on are the old ones, and no carry is left: the sum is complete. */
  lemma Carried(s: seq<nat>, t: seq<nat>, i: nat, u: nat)
    requires Normal(s) && |t| == |s| && Words(t) && i <= |s| && forall j :: i <= j < |s| ==> t[j] == s[j]
    requires ValueOf(t[..i]) == ValueOf(s[..i]) + u
    ensures Normal(t) && ValueOf(t) == ValueOf(s) + u
  {
    SameTop(s, t, i);
    NormalAfter(s, t);
  }

  /** One more word takes the carry. */
  lemma CarryOn(s: seq<nat>, before: seq<nat>, t: seq<nat>, i: nat, u: nat)
    requires |s| == |t| == |before| && 0 < i < |s| && s[i] < TWO64
    requires t[..i] == before[..i] && t[i] == Wrap64(s[i] + 1)
    requires ValueOf(before[..i]) + Base(i) == ValueOf(s[..i]) + u
    ensures ValueOf(t[..i + 1]) + (if t[i] < s[i] then Base(i + 1) else 0) == ValueOf(s[..i + 1]) + u
  {
    ValueOfPrefix(s, i);
    ValueOfPrefix(t, i);
    WrapSum(s[i], 1);
    assert (s[i] + 1) * Base(i) == s[i] * Base(i) + Base(i);
    assert Base(i + 1) == TWO64 * Base(i);
    if t[i] < s[i] {
      assert t[i] == 0;
    }
  }

  lemma CarryFits(t: seq<nat>, s: seq<nat>, u: nat)
    requires Normal(s) && Words(t) && |t| == |s| && ValueOf(t) + Base(|s|) == ValueOf(s) + u
    ensures Normal(t + [1]) && ValueOf(t + [1]) == ValueOf(s) + u
    ensures forall n: nat {:trigger Base(n)} :: ValueOf(s) + u < Base(n) ==> |s| < n
  {
    hide Base, ValueOf;
    Pushed(t, 1);
    forall n: nat {:trigger Base(n)} | ValueOf(s) + u < Base(n) ensures |s| < n {
      if n <= |s| {
        BaseGrows(n, |s|);
      }
    }
  }

  lemma NoWords(s: seq<nat>)
    ensures ValueOf(s[..0]) == 0 && Base(0) == 1
  {
  }

  lemma ProductWord(s: seq<nat>, before: seq<nat>, t: seq<nat>, i: nat, u: nat, k: nat, h: nat)
    requires |s| == |t| == |before| && i < |s| && t[..i] == before[..i]
    requires ValueOf(before[..i]) + k * Base(i) == ValueOf(s[..i]) * u
    requires t[i] + h * TWO64 == s[i] * u + k
    ensures ValueOf(t[..i + 1]) + h * Base(i + 1) == ValueOf(s[..i + 1]) * u
  {
    hide ValueOf;
    ValueOfPrefix(s, i);
    ValueOfPrefix(t, i);
    ProductStep(ValueOf(before[..i]), ValueOf(s[..i]), s[i], u, k, t[i], h, Base(i));
  }

  lemma LastCarry(s: seq<nat>, t: seq<nat>, u: nat, k: nat, n: nat)
    requires Normal(s) && Words(t) && |t| == |s| && u > 1 && k < TWO64
    requires ValueOf(t) + k * Base(|s|) == ValueOf(s) * u < Base(n)
    ensures k == 0 ==> Normal(t)
    ensures k > 0 ==> |s| < n && Normal(t + [k]) && ValueOf(t + [k]) == ValueOf(s) * u
  {
    if k == 0 {
      Grows(ValueOf(s), u);
      NormalAfter(s, t);
    } else {
      Pushed(t, k);
      TopWord(ValueOf(t), k, Base(|s|));
      if n <= |s| {
        BaseGrows(n, |s|);
      }
    }
  }

  lemma Grows(v: nat, u: nat)
    requires u >= 1
    ensures v <= v * u
  {
  }

  // ----- Shifting -----

  function Carry(s: seq<nat>, i: nat, l: nat): nat
    requires i <= |s| && l > 0
  {
    if i == 0 then 0 else s[i - 1] / l
  }

  /** Word `i` of `s` shifted left by the bits of `h`, where `l` takes the bits that leave a word. */
  function ShiftedWord(s: seq<nat>, i: nat, h: nat, l: nat): nat
    requires i <= |s| && l > 0
  {
    Wrap64((if i < |s| then s[i] else 0) * h) + Carry(s, i, l)
  }

  lemma BitsThatLeave(w: nat, h: nat, l: nat)
    requires w < TWO64 && h * l == TWO64 && l > 0 && h > 0
    ensures Wrap64(w * h) + w / l * TWO64 == w * h
    ensures Wrap64(w * h) <= TWO64 - h && w / l < h
  {
    var q, r := w / l, w % l;
    assert w == q * l + r;
    assert w * h == q * (h * l) + r * h;
    Cancel(r + 1, l, h);
    assert (r + 1) * h == r * h + h;
    assert l * h == h * l;
    DivideUnique(w * h, q, r * h, TWO64);
    if q >= h {
      Cancel(h, q, l);
    }
  }

  lemma {:induction false} ShiftedPrefix(s: seq<nat>, w: seq<nat>, i: nat, h: nat, l: nat)
    requires Words(s) && |w| == |s| + 1 && i <= |s| && h * l == TWO64 && l > 0 && h > 0
    requires forall j :: 0 <= j < |w| ==> w[j] == ShiftedWord(s, j, h, l)
    ensures ValueOf(w[..i]) + Carry(s, i, l) * Base(i) == ValueOf(s[..i]) * h
  {
    hide ValueOf, Base;
    if i == 0 {
      NoWords(s);
      NoWords(w);
    } else {
      ShiftedPrefix(s, w, i - 1, h, l);
      ValueOfPrefix(s, i - 1);
      ValueOfPrefix(w, i - 1);
      BitsThatLeave(s[i - 1], h, l);
      BaseNext(i - 1);
      ProductStep(ValueOf(w[..i - 1]), ValueOf(s[..i - 1]), s[i - 1], h, Carry(s, i - 1, l), w[i - 1], s[i - 1] / l, Base(i - 1));
    }
  }

  lemma BaseNext(i: nat)
    ensures Base(i + 1) == TWO64 * Base(i)
  {
  }

  lemma ShiftedWords(s: seq<nat>, w: seq<nat>, h: nat, l: nat)
    requires Words(s) && |w| == |s| + 1 && h * l == TWO64 && l > 0 && h > 0
    requires forall j :: 0 <= j < |w| ==> w[j] == ShiftedWord(s, j, h, l)
    ensures Words(w) && ValueOf(w) == ValueOf(s) * h
  {
    hide ValueOf, Base;
    ShiftedPrefix(s, w, |s|, h, l);
    ValueOfPrefix(w, |s|);
    assert w[..|s| + 1] == w && s[..|s|] == s;
    forall j | 0 <= j < |w| ensures w[j] < TWO64 {
      ShiftedWordFits(s, j, h, l);
    }
    LastShiftedWord(s, h, l);
  }

  lemma ShiftedWordFits(s: seq<nat>, j: nat, h: nat, l: nat)
    requires Words(s) && j <= |s| && h * l == TWO64 && l > 0 && h > 0
    ensures ShiftedWord(s, j, h, l) < TWO64
  {
    if j < |s| {
      BitsThatLeave(s[j], h, l);
    }
    if j > 0 {
      BitsThatLeave(s[j - 1], h, l);
    }
    Cancel(1, l, h);
  }

  lemma LastShiftedWord(s: seq<nat>, h: nat, l: nat)
    requires l > 0
    ensures ShiftedWord(s, |s|, h, l) == Carry(s, |s|, l)
  {
  }

  lemma WithLowZeros(t: seq<nat>, o: nat, w: seq<nat>)
    requires |t| == o + |w| && t[o..] == w && forall i :: 0 <= i < o ==> t[i] == 0
    ensures ValueOf(t) == Base(o) * ValueOf(w)
  {
    var z: seq<nat> := seq(o, _ => 0);
    assert t == z + w;
    Zeros(o);
    ValueOfConcat(z, w);
  }

  /** What a shift by `o` words and the bits of `h` leaves, with or without the word shifted out at the top. */
  lemma ShiftNormal(s: seq<nat>, t: seq<nat>, o: nat, h: nat)
    requires Normal(s) && ValueOf(s) > 0 && h > 0 && Words(t) && |t| == |s| + o && ValueOf(t) == Base(o) * (ValueOf(s) * h)
    ensures Normal(t)
  {
    Grows(ValueOf(s), h);
    if |s| > 1 {
      NormalAtLeast(s);
    }
    BaseAdd(o, |s| - 1);
    Cancel(Base(|s| - 1), ValueOf(s) * h, Base(o));
    Commute(Base(o), ValueOf(s) * h);
    Commute(Base(o), Base(|s| - 1));
    NormalByValue(t);
  }

  lemma ZeroShift()
    ensures Pow2(0) == 1
  {
  }

  /** A normalised number that is not the word 0 is positive. */
  lemma NotZero(s: seq<nat>)
    requires Normal(s)
    ensures ValueOf(s) == 0 <==> s == [0]
  {
    if |s| > 1 {
      NormalAtLeast(s);
    } else {
      OneWord(s[0]);
      assert s == [s[0]];
    }
  }

  lemma ShiftParts(v: nat, o: nat, b: nat)
    requires b < 64
    ensures v * Pow2(64 * o + b) == Base(o) * (v * Pow2(b))
    ensures Pow2(b) * Pow2(64 - b) == TWO64
  {
    BaseIsPower(o);
    Pow2Add(64 * o, b);
    AddWord(Base(o), 0, v, Pow2(b));
    PowersOfTwo();
    Pow2Add(b, 64 - b);
  }

  lemma ShiftedWordIs(s: seq<nat>, i: nat, h: nat, l: nat)
    requires i <= |s| && l > 0
    ensures ShiftedWord(s, i, h, l) ==
            Wrap64((if i < |s| then s[i] else 0) * h) + if i > 0 then s[i - 1] / l else 0
  {
  }

  lemma MovedUp(s: seq<nat>, t: seq<nat>, o: nat)
    requires Normal(s) && ValueOf(s) > 0 && |t| == |s| + o && t[o..] == s && forall i :: 0 <= i < o ==> t[i] == 0
    ensures Normal(t) && ValueOf(t) == Base(o) * (ValueOf(s) * 1)
  {
    WithLowZeros(t, o, s);
    ShiftNormal(s, t, o, 1);
  }

  /** `t` holds the shifted words; the top one counts only when it is not zero. */
  lemma ShiftedUp(s: seq<nat>, w: seq<nat>, t: seq<nat>, o: nat, h: nat)
    requires Normal(s) && ValueOf(s) > 0 && h > 0 && |w| == |s| + 1 && Words(w) && ValueOf(w) == ValueOf(s) * h
    requires |t| == o + |w| && t[o..] == w && forall i :: 0 <= i < o ==> t[i] == 0
    ensures ValueOf(t) == Base(o) * (ValueOf(s) * h)
    ensures t[|s| + o] != 0 ==> Normal(t)
    ensures t[|s| + o] == 0 ==> Normal(t[..|s| + o]) && ValueOf(t[..|s| + o]) == ValueOf(t)
  {
    hide ValueOf, Base;
    WithLowZeros(t, o, w);
    forall i | 0 <= i < |t| ensures t[i] < TWO64 {
      if i >= o {
        assert t[i] == w[i - o];
      }
    }
    if t[|s| + o] == 0 {
      TopZeros(t, |s| + o);
      ShiftNormal(s, t[..|s| + o], o, h);
    }
  }

  // ----- Subtraction -----

  /** The word of `b` at `i`, 0 beyond its end. */
  function WordOr0(b: seq<nat>, i: nat): nat {
    if i < |b| then b[i] else 0
  }

  /** The lowest `i` words of `b`, or all of them. */
  function Lowest(b: seq<nat>, i: nat): seq<nat> {
    if i < |b| then b[..i] else b
  }

  /** A word of the difference, modulo 2^64. */
  function DifferenceWord(a: nat, b: nat, borrow: nat): (d: nat)
    ensures d < TWO64
  {
    ((a - borrow) % TWO64 - b) % TWO64
  }

  /** The borrow test of the loop looks only at the result: an all-ones word hides a borrow that came in. */
  predicate HidesBorrow(b: nat, borrow: nat) {
    b == TWO64 - 1 && borrow == 1
  }

  lemma BorrowTest(a: nat, b: nat, borrow: nat)
    requires a < TWO64 && b < TWO64 && borrow <= 1
    ensures var d := DifferenceWord(a, b, borrow);
            d + b + borrow == a + (if d > a || HidesBorrow(b, borrow) then TWO64 else 0)
    ensures HidesBorrow(b, borrow) ==> DifferenceWord(a, b, borrow) == a
  {
  }

  /** With `i` words done: what is written plus the words of `b` is the words of `a`, plus the borrow, plus what was lost. */
  ghost predicate Subtracted(a: seq<nat>, b: seq<nat>, t: seq<nat>, i: nat, borrow: nat, lost: nat) {
    && i <= |a| && i <= |t| && borrow <= 1
    && ValueOf(t[..i]) + ValueOf(Lowest(b, i)) == ValueOf(a[..i]) + borrow * Base(i) + lost
  }

  lemma NothingSubtracted(a: seq<nat>, b: seq<nat>, t: seq<nat>)
    ensures Subtracted(a, b, t, 0, 0, 0)
  {
    assert Lowest(b, 0) == [];
  }

  lemma LowestNext(b: seq<nat>, i: nat)
    ensures ValueOf(Lowest(b, i + 1)) == ValueOf(Lowest(b, i)) + WordOr0(b, i) * Base(i)
  {
    if i < |b| {
      ValueOfPrefix(b, i);
      assert b[..|b|] == b;
    }
  }

  lemma SubtractNext(a: seq<nat>, b: seq<nat>, t: seq<nat>, t': seq<nat>, i: nat, borrow: nat, lost: nat)
    requires Words(a) && Words(b) && Subtracted(a, b, t, i, borrow, lost) && i < |a| && i < |t'|
    requires t'[..i] == t[..i] && t'[i] == DifferenceWord(a[i], WordOr0(b, i), borrow)
    ensures var hides := HidesBorrow(WordOr0(b, i), borrow);
            Subtracted(a, b, t', i + 1, if t'[i] > a[i] then 1 else 0, lost + if hides then Base(i + 1) else 0)
  {
    var bi, d, p := WordOr0(b, i), t'[i], Base(i);
    var next := if d > a[i] then 1 else 0;
    BorrowTest(a[i], bi, borrow);
    ValueOfPrefix(a, i);
    ValueOfPrefix(t', i);
    LowestNext(b, i);
    BorrowSum(ValueOf(t[..i]), ValueOf(Lowest(b, i)), ValueOf(a[..i]), lost, d, bi, a[i], borrow, next, HidesBorrow(bi, borrow), p);
  }

  lemma BorrowSum(t: nat, b: nat, a: nat, lost: nat, d: nat, bi: nat, ai: nat, borrow: nat, next: nat, hides: bool, p: nat)
    requires t + b == a + borrow * p + lost && borrow <= 1 && next <= 1 && (hides ==> next == 0)
    requires d + bi + borrow == ai + (if next == 1 || hides then TWO64 else 0)
    ensures (t + d * p) + (b + bi * p) == (a + ai * p) + next * (TWO64 * p) + lost + if hides then TWO64 * p else 0
  {
    var x := if next == 1 || hides then TWO64 else 0;
    assert (d + bi + borrow) * p == d * p + bi * p + borrow * p;
    assert (ai + x) * p == ai * p + x * p;
  }

  lemma OneOrNone(borrow: nat, p: nat)
    requires borrow <= 1
    ensures borrow * p == if borrow == 1 then p else 0
  {
  }

  /** The whole subtraction, once the last borrow is gone. */
  lemma SubtractEnd(a: seq<nat>, b: seq<nat>, t: seq<nat>, borrow: nat, lost: nat)
    requires Words(t) && |t| >= |a| >= |b| && Subtracted(a, b, t, |a|, borrow, lost) && ValueOf(a) > ValueOf(b)
    ensures borrow == 0 && ValueOf(t[..|a|]) == ValueOf(a) - ValueOf(b) + lost
  {
    hide ValueOf, Base;
    assert a[..|a|] == a && Lowest(b, |a|) == b;
    ValueBelow(t[..|a|]);
    OneOrNone(borrow, Base(|a|));
  }

  // ----- The borrows that are lost -----

  /** In `x - y` a borrow comes in at word `i`, and that word of `y` is all ones. */
  ghost predicate HiddenAt(x: nat, y: nat, i: nat) {
    Word(y, i) == TWO64 - 1 && Low(x, i) < Low(y, i)
  }

  ghost predicate FirstHidden(x: nat, y: nat, i: nat) {
    HiddenAt(x, y, i) && forall j: nat :: j < i ==> !HiddenAt(x, y, j)
  }

  /** Two numbers for which the subtraction loses a borrow. */
  ghost predicate LosesBorrow(x: nat, y: nat) {
    exists i: nat :: HiddenAt(x, y, i)
  }

  lemma {:induction false} FirstExists(x: nat, y: nat, n: nat)
    requires HiddenAt(x, y, n)
    ensures exists i: nat :: FirstHidden(x, y, i)
  {
    hide HiddenAt;
    if j: nat :| j < n && HiddenAt(x, y, j) {
      FirstExists(x, y, j);
    } else {
      assert FirstHidden(x, y, n);
    }
  }

  ghost function FirstLoss(x: nat, y: nat): (i: nat)
    requires LosesBorrow(x, y)
    ensures FirstHidden(x, y, i)
  {
    var n: nat :| HiddenAt(x, y, n);
    FirstExists(x, y, n);
    var i: nat :| FirstHidden(x, y, i);
    i
  }

  /** At the first all-ones word that meets a borrow, one unit of the next word is lost; what is above it starts afresh. */
  ghost function Lost(x: nat, y: nat): nat
    decreases y
  {
    if LosesBorrow(x, y) then
      var i := FirstLoss(x, y);
      RestIsLess(y, i);
      Base(i + 1) * (1 + Lost(Above(x, i + 1), Above(y, i + 1)))
    else
      0
  }

  lemma RestIsLess(y: nat, i: nat)
    requires Word(y, i) > 0
    ensures Above(y, i + 1) < y
  {
    hide Base;
    BaseGrows(1, i + 1);
    assert Base(1) == TWO64 by {
      OneWord(0);
    }
    LessQuotient(y, Base(i + 1));
  }

  lemma LessQuotient(y: nat, p: nat)
    requires p > 1
    ensures y > 0 ==> y / p < y
  {
    var q, r := y / p, y % p;
    assert y == p * q + r;
    if q > 0 {
      Cancel(1, p, q);
    }
  }

  lemma LostAt(x: nat, y: nat, i: nat)
    requires FirstHidden(x, y, i)
    ensures LosesBorrow(x, y) && Lost(x, y) == Base(i + 1) * (1 + Lost(Above(x, i + 1), Above(y, i + 1)))
  {
    hide HiddenAt, Base;
    assert FirstLoss(x, y) == i;
  }

  /** Nothing is lost without a hidden borrow; with one, at least two words of it. */
  lemma LostBorrow(x: nat, y: nat)
    ensures Lost(x, y) == 0 <==> !LosesBorrow(x, y)
    ensures LosesBorrow(x, y) ==> Lost(x, y) >= TWO64 * TWO64
  {
    hide Base, Word, Low;
    if LosesBorrow(x, y) {
      var i := FirstLoss(x, y);
      LostAt(x, y, i);
      LowOfNone(x);
      LowOfNone(y);
      BaseGrows(2, i + 1);
      Grows(Base(i + 1), 1 + Lost(Above(x, i + 1), Above(y, i + 1)));
      TwoWords();
    }
  }

  lemma TwoWords()
    ensures Base(2) == TWO64 * TWO64
  {
  }

  lemma DivideTwice(x: nat, p: nat, q: nat)
    requires p > 0 && q > 0
    ensures p * q > 0 && x / p / q == x / (p * q)
  {
    var a := x / p;
    assert x == a * p + x % p;
    assert a == a / q * q + a % q;
    ByBoth(x, a, x % p, a / q, a % q, p, q);
  }

  lemma ByBoth(x: nat, a: nat, r: nat, b: nat, s: nat, p: nat, q: nat)
    requires x == a * p + r && r < p && a == b * q + s && s < q
    ensures p * q > 0 && x / (p * q) == b
  {
    TwoRemainders(b, s, r, p, q);
    DivideUnique(x, b, s * p + r, p * q);
  }

  lemma TwoRemainders(b: nat, s: nat, r: nat, p: nat, q: nat)
    requires s < q && r < p
    ensures (b * q + s) * p + r == b * (p * q) + (s * p + r) && s * p + r < p * q
  {
    Associate(b, q, p);
    Cancel(s + 1, q, p);
    assert (s + 1) * p == s * p + p;
  }

  lemma WordAbove(x: nat, s: nat, k: nat)
    ensures Above(Above(x, s), k) == Above(x, s + k) && Word(Above(x, s), k) == Word(x, s + k)
  {
    BaseAdd(s, k);
    DivideTwice(x, Base(s), Base(k));
  }

  lemma LowNext(x: nat, k: nat)
    ensures Low(x, k + 1) == Low(x, k) + Word(x, k) * Base(k)
  {
    hide Base;
    BaseNext(k);
    var q := x / Base(k);
    var h, w, l := q / TWO64, q % TWO64, x % Base(k);
    assert q == h * TWO64 + w;
    assert x == q * Base(k) + l;
    assert x == h * (TWO64 * Base(k)) + (w * Base(k) + l) by {
      assert (h * TWO64 + w) * Base(k) == h * (TWO64 * Base(k)) + w * Base(k);
    }
    WordBelow(l, w, Base(k));
    DivideUnique(x, h, w * Base(k) + l, TWO64 * Base(k));
  }

  lemma LowCompares(lx: nat, ly: nat, w: nat, v: nat, p: nat)
    requires lx < p && ly < p
    ensures lx + w * p < ly + v * p <==> w < v + if lx < ly then 1 else 0
  {
    if w < v {
      Cancel(w + 1, v, p);
      assert (w + 1) * p == w * p + p;
    } else if w > v {
      Cancel(v + 1, w, p);
      assert (v + 1) * p == v * p + p;
    }
  }

  /**
   * With `i` words done, the last loss below word `s`: from there on the borrow compares the words,
   * and `lost` is all that is lost but for what the words from `s` on will lose.
   */
  ghost predicate Losing(x: nat, y: nat, s: nat, i: nat, borrow: nat, lost: nat) {
    var xs, ys := Above(x, s), Above(y, s);
    && s <= i && borrow == (if Low(xs, i - s) < Low(ys, i - s) then 1 else 0)
    && (forall j: nat :: j < i - s ==> !HiddenAt(xs, ys, j))
    && Lost(x, y) == lost + Base(s) * Lost(xs, ys)
  }

  lemma NothingLost(x: nat, y: nat)
    ensures Losing(x, y, 0, 0, 0, 0)
  {
    assert Base(0) == 1;
  }

  /** One word of the subtraction: the borrow is lost exactly where an all-ones word hides it. */
  lemma LosingNext(x: nat, y: nat, s: nat, i: nat, borrow: nat, lost: nat)
    requires Losing(x, y, s, i, borrow, lost)
    ensures var hides := HidesBorrow(Word(y, i), borrow);
            var next := if DifferenceWord(Word(x, i), Word(y, i), borrow) > Word(x, i) then 1 else 0;
            Losing(x, y, if hides then i + 1 else s, i + 1, next, lost + if hides then Base(i + 1) else 0)
  {
    hide Base, Low, Word, Above, DifferenceWord, Lost;
    var xs, ys, k := Above(x, s), Above(y, s), i - s;
    WordAbove(x, s, k);
    WordAbove(y, s, k);
    WordFits(x, i);
    WordFits(y, i);
    BorrowTest(Word(x, i), Word(y, i), borrow);
    if HidesBorrow(Word(y, i), borrow) {
      WordAbove(x, s, k + 1);
      WordAbove(y, s, k + 1);
      LostAt(xs, ys, k);
      BaseAdd(s, k + 1);
      AllLost(Base(s), Base(k + 1), Lost(Above(x, i + 1), Above(y, i + 1)));
      LowOfNone(Above(x, i + 1));
      LowOfNone(Above(y, i + 1));
    } else {
      LowNext(xs, k);
      LowNext(ys, k);
      LowFits(xs, k);
      LowFits(ys, k);
      LowCompares(Low(xs, k), Low(ys, k), Word(x, i), Word(y, i), Base(k));
    }
  }

  lemma AllLost(p: nat, q: nat, rest: nat)
    ensures p * (q * (1 + rest)) == p * q + p * q * rest
  {
  }

  lemma WordFits(x: nat, i: nat)
    ensures Word(x, i) < TWO64
  {
  }

  lemma LowFits(x: nat, i: nat)
    ensures Low(x, i) < Base(i)
  {
  }

  lemma LowOfNone(x: nat)
    ensures Low(x, 0) == 0
  {
    assert Base(0) == 1;
  }

  /** Beyond the words of `y` nothing more is lost. */
  lemma LosingEnd(x: nat, b: seq<nat>, s: nat, i: nat, borrow: nat, lost: nat)
    requires Words(b) && i >= |b| && Losing(x, ValueOf(b), s, i, borrow, lost)
    ensures lost == Lost(x, ValueOf(b))
  {
    hide Base, ValueOf, Word, Low;
    var xs, ys := Above(x, s), Above(ValueOf(b), s);
    forall j: nat ensures !HiddenAt(xs, ys, j) {
      if j >= i - s {
        WordAbove(ValueOf(b), s, j);
        NoWordBeyond(b, s + j);
      }
    }
  }

  lemma NoWordBeyond(b: seq<nat>, j: nat)
    requires Words(b) && j >= |b|
    ensures Word(ValueOf(b), j) == 0
  {
    ValueBelow(b);
    BaseGrows(|b|, j);
    DivideUnique(ValueOf(b), 0, ValueOf(b), Base(j));
  }

  lemma WordOf(b: seq<nat>, i: nat)
    requires Words(b)
    ensures WordOr0(b, i) == Word(ValueOf(b), i)
  {
    if i < |b| {
      WordsOf(b, i);
    } else {
      NoWordBeyond(b, i);
    }
  }
}
