/** Digit generation of internal/dtoa.h: the digits of a number in an interval, shortest and nearest. */
module DigitGeneration {
  import opened Powers
  import opened Decimals
  import opened DiyFloat

  const POWERS_OF_TEN: seq<nat> :=
    [1, 10, 100, 1000, 10000, 100000, 1000000, 10000000, 100000000, 1000000000]

  lemma Table(k: nat)
    requires k <= 9
    ensures POWERS_OF_TEN[k] == Pow10(k)
  {
    assert Pow10(4) == 10000;
    assert Pow10(8) == 100000000;
    assert Pow10(9) == 1000000000;
  }

  // ----- Numbers d * 10^k against multiples of 2^-s -----

  function Up(k: int): (p: nat)
    ensures p >= 1
  {
    Pow10(if k > 0 then k else 0)
  }

  function Down(k: int): (p: nat)
    ensures p >= 1
  {
    Pow10(if k < 0 then -k else 0)
  }

  /** `c * 10^k * 2^s`, with the powers of ten below the point moved to the other side of a comparison. */
  function At(c: nat, k: int, s: nat): nat {
    c * (Up(k) * Pow2(s))
  }

  predicate Covered(lo: nat, hi: nat, s: nat, c: nat, k: int) {
    lo * Down(k) <= At(c, k, s) <= hi * Down(k)
  }

  predicate CoveredInside(lo: nat, hi: nat, s: nat, c: nat, k: int) {
    lo * Down(k) < At(c, k, s) <= hi * Down(k)
  }

  /** No number with a larger exponent lies in `(lo, hi]`, nor in `[lo, hi]` when that exponent is not negative. */
  ghost predicate Shortest(lo: nat, hi: nat, s: nat, k: int) {
    && (forall j: int, c: nat :: j > k ==> !CoveredInside(lo, hi, s, c, j))
    && (forall j: int, c: nat :: j > k && j >= 0 ==> !Covered(lo, hi, s, c, j))
  }

  /** `d` is nearest to the target among the numbers with its exponent in the interval. */
  ghost predicate Nearest(lo: nat, hi: nat, s: nat, target: nat, d: nat, k: int) {
    forall c: nat :: Covered(lo, hi, s, c, k) ==>
      Gap(At(d, k, s), target * Down(k)) <= Gap(At(c, k, s), target * Down(k))
  }

  lemma {:induction false} Rescale(c: nat, j: int, k: int, s: nat)
    requires k <= j
    ensures At(c * Pow10(j - k), k, s) * Down(j) == At(c, j, s) * Down(k)
  {
    var p := Pow10(j - k);
    assert p * Up(k) * Down(j) == Up(j) * Down(k) by {
      if k >= 0 {
        Pow10Add(j - k, k);
      } else if j <= 0 {
        Pow10Add(j - k, -j);
      } else {
        Pow10Add(j, -k);
      }
    }
    Regroup(c, p, Up(k), Pow2(s), Down(j), Up(j), Down(k));
  }

  // ----- What the loops know -----

  function Unit(k: int, s: nat): (u: nat)
    ensures u >= 1
  {
    Up(k) * Pow2(s)
  }

  /** `d` is what has been written of `hi`, `rest` what has not. */
  predicate Written(hi: nat, s: nat, d: nat, k: int, rest: nat) {
    d * Unit(k, s) + rest == hi * Down(k) && rest < Unit(k, s)
  }

  ghost predicate NoneAt(lo: nat, hi: nat, s: nat, k: int) {
    && (forall c: nat :: !CoveredInside(lo, hi, s, c, k))
    && (k >= 0 ==> forall c: nat :: !Covered(lo, hi, s, c, k))
  }

  /** A comparison at exponent `j` is the same comparison at a smaller exponent `k`. */
  lemma SameComparison(x: nat, c: nat, j: int, k: int, s: nat)
    requires k <= j
    ensures x * Down(k) < At(c * Pow10(j - k), k, s) <==> x * Down(j) < At(c, j, s)
    ensures x * Down(k) <= At(c * Pow10(j - k), k, s) <==> x * Down(j) <= At(c, j, s)
  {
    hide At, Down, Pow10;
    var l, r := At(c * Pow10(j - k), k, s), At(c, j, s);
    Rescale(c, j, k, s);
    Cancel(x * Down(k), l, Down(j));
    Cancel(x * Down(j), r, Down(k));
    assert x * Down(k) * Down(j) == x * Down(j) * Down(k);
  }

  lemma CoarserNone(lo: nat, hi: nat, s: nat, k: int)
    requires NoneAt(lo, hi, s, k + 1) && (k + 1 < 0 ==> NoneAt(lo, hi, s, 0))
    ensures Shortest(lo, hi, s, k)
  {
    hide At, Down, Pow10;
    forall j: int, c: nat | j > k
      ensures !CoveredInside(lo, hi, s, c, j)
    {
      SameComparison(lo, c, j, k + 1, s);
      SameComparison(hi, c, j, k + 1, s);
      assert !CoveredInside(lo, hi, s, c * Pow10(j - (k + 1)), k + 1);
    }
    forall j: int, c: nat | j > k && j >= 0
      ensures !Covered(lo, hi, s, c, j)
    {
      var k0 := if k + 1 < 0 then 0 else k + 1;
      SameComparison(lo, c, j, k0, s);
      SameComparison(hi, c, j, k0, s);
      assert !Covered(lo, hi, s, c * Pow10(j - k0), k0);
    }
  }

  lemma Below(c: nat, d: nat, u: nat, rest: nat)
    requires c * u <= d * u + rest && rest < u
    ensures c <= d && c * u <= d * u
  {
    assert (d + 1) * u == d * u + u;
    Cancel(c, d + 1, u);
    Cancel(c, d, u);
  }

  /** What is still to be written is too large: no number with this exponent is in the interval. */
  lemma NoneHere(lo: nat, hi: nat, s: nat, d: nat, k: int, rest: nat)
    requires lo <= hi && Written(hi, s, d, k, rest)
    requires if k >= 0 then rest > (hi - lo) * Down(k) else rest >= (hi - lo) * Down(k)
    ensures NoneAt(lo, hi, s, k)
  {
    var u := Unit(k, s);
    assert (hi - lo) * Down(k) == hi * Down(k) - lo * Down(k);
    forall c: nat ensures !CoveredInside(lo, hi, s, c, k) && (k >= 0 ==> !Covered(lo, hi, s, c, k)) {
      if c * u <= hi * Down(k) {
        Below(c, d, u, rest);
      }
    }
  }

  lemma NextUnit(k: int, s: nat)
    ensures k >= 0 ==> Unit(k + 1, s) == 10 * Unit(k, s) && Down(k + 1) == Down(k) == 1
    ensures k < 0 ==> Unit(k + 1, s) == Unit(k, s) == Pow2(s) && Down(k) == 10 * Down(k + 1)
  {
  }

  /** The last digit cannot be lowered below 0, and not even to 0 when the exponent is not negative. */
  lemma LastDigitLimits(lo: nat, hi: nat, s: nat, e: nat, l: nat, k: int, rest: nat)
    requires lo <= hi && NoneAt(lo, hi, s, k + 1) && Written(hi, s, 10 * e + l, k, rest)
    ensures rest + (l + 1) * Unit(k, s) > (hi - lo) * Down(k)
    ensures k >= 0 ==> rest + l * Unit(k, s) > (hi - lo) * Down(k)
  {
    hide Unit, Down, At;
    var u, v := Unit(k, s), Unit(k + 1, s);
    NextUnit(k, s);
    AtUnit(e, k + 1, s);
    Spread(hi, lo, Down(k));
    LowerDigits(e, l, u);
    assert !CoveredInside(lo, hi, s, e, k + 1);
    if k >= 0 {
      Shift(e, u);
      assert !Covered(lo, hi, s, e, k + 1);
    } else {
      Shift(lo, Down(k + 1));
      Shift(hi, Down(k + 1));
    }
  }

  lemma Spread(hi: nat, lo: nat, p: nat)
    ensures (hi - lo) * p == hi * p - lo * p
  {
  }

  lemma Shift(x: nat, u: nat)
    ensures x * (10 * u) == 10 * (x * u)
  {
  }

  lemma LowerDigits(e: nat, l: nat, u: nat)
    ensures (10 * e + l) * u == 10 * (e * u) + l * u
    ensures (l + 1) * u == l * u + u
  {
  }

  lemma AtUnit(c: nat, k: int, s: nat)
    ensures At(c, k, s) == c * Unit(k, s)
  {
  }

  // ----- Rounding -----

  function Stepped(rest: nat, unit: nat, j: nat): nat {
    rest + j * unit
  }

  /** After `j` steps down by `unit` the rest is nearest to the target among all steps that stay within `delta`. */
  ghost predicate Closest(rest: nat, delta: nat, unit: nat, target: nat, j: nat) {
    && Stepped(rest, unit, j) <= delta
    && forall i: nat :: Stepped(rest, unit, i) <= delta ==>
         Gap(Stepped(rest, unit, j), target) <= Gap(Stepped(rest, unit, i), target)
  }

  lemma RoundedIsNearest(lo: nat, hi: nat, s: nat, target: nat, d: nat, k: int, rest: nat, j: nat)
    requires lo <= target <= hi && Written(hi, s, d, k, rest) && j <= d
    requires Closest(rest, (hi - lo) * Down(k), Unit(k, s), (hi - target) * Down(k), j)
    ensures Covered(lo, hi, s, d - j, k) && Nearest(lo, hi, s, target, d - j, k)
  {
    hide Unit, Down, At;
    var u, w := Unit(k, s), (hi - target) * Down(k);
    assert (hi - lo) * Down(k) == hi * Down(k) - lo * Down(k);
    assert w == hi * Down(k) - target * Down(k);
    AtUnit(d - j, k, s);
    assert (d - j) * u == d * u - j * u;
    forall c: nat | Covered(lo, hi, s, c, k)
      ensures Gap(At(d - j, k, s), target * Down(k)) <= Gap(At(c, k, s), target * Down(k))
    {
      AtUnit(c, k, s);
      Below(c, d, u, rest);
      var i := d - c;
      assert c * u == d * u - i * u;
      assert Gap(Stepped(rest, u, j), w) <= Gap(Stepped(rest, u, i), w);
    }
  }

  lemma NextStep(rest: nat, unit: nat, j: nat)
    ensures Stepped(rest, unit, j + 1) == Stepped(rest, unit, j) + unit
  {
  }

  /** Steps further down are never better once one step is not. */
  lemma NoLaterStep(rest: nat, unit: nat, target: nat, j: nat, i: nat)
    requires j < i
    requires Stepped(rest, unit, j) >= target
          || Gap(Stepped(rest, unit, j), target) <= Gap(Stepped(rest, unit, j) + unit, target)
    ensures Gap(Stepped(rest, unit, j), target) <= Gap(Stepped(rest, unit, i), target)
  {
    LaterStep(rest, unit, j, i);
    hide Stepped;
  }

  lemma LaterStep(rest: nat, unit: nat, j: nat, i: nat)
    requires j < i
    ensures Stepped(rest, unit, j) + unit <= Stepped(rest, unit, i)
  {
    if unit > 0 {
      Cancel(j + 1, i, unit);
    }
    NextStep(rest, unit, j);
  }

  method GrisuRound(buffer: array<char>, len: nat, delta: nat, rest: nat, tenKappa: nat, wpW: nat)
    requires 0 < len <= buffer.Length && IsDigit(buffer[len - 1])
    requires rest <= delta < TWO64 && 1 <= tenKappa
    requires Stepped(rest, tenKappa, DigitValue(buffer[len - 1]) + 1) > delta
    modifies buffer
    ensures forall i :: 0 <= i < buffer.Length && i != len - 1 ==> buffer[i] == old(buffer[i])
    ensures IsDigit(buffer[len - 1]) && DigitValue(buffer[len - 1]) <= DigitValue(old(buffer[len - 1]))
    ensures Closest(rest, delta, tenKappa, wpW, DigitValue(old(buffer[len - 1])) - DigitValue(buffer[len - 1]))
  {
    hide Stepped;
    var r := rest;
    ghost var j: nat := 0;
    ghost var last := DigitValue(buffer[len - 1]);
    NoSteps(rest, tenKappa);
    while r < wpW && delta - r >= tenKappa && (Wrap64(r + tenKappa) < wpW || wpW - r > Wrap64(r + tenKappa) - wpW)
      invariant r == Stepped(rest, tenKappa, j) <= delta
      invariant forall i: nat :: i < j ==> Gap(r, wpW) <= Gap(Stepped(rest, tenKappa, i), wpW)
      invariant j <= last && IsDigit(buffer[len - 1]) && DigitValue(buffer[len - 1]) == last - j
      invariant forall i :: 0 <= i < buffer.Length && i != len - 1 ==> buffer[i] == old(buffer[i])
      decreases delta - r
    {
      NextStep(rest, tenKappa, j);
      buffer[len - 1] := (buffer[len - 1] as int - 1) as char;
      r := Wrap64(r + tenKappa);
      j := j + 1;
    }
    forall i: nat | Stepped(rest, tenKappa, i) <= delta
      ensures Gap(r, wpW) <= Gap(Stepped(rest, tenKappa, i), wpW)
    {
      if i > j {
        LaterStep(rest, tenKappa, j, i);
        NoLaterStep(rest, tenKappa, wpW, j, i);
      }
    }
  }

  lemma NoSteps(rest: nat, unit: nat)
    ensures Stepped(rest, unit, 0) == rest
  {
  }

  /** The chain of comparisons finds the number of decimal digits. */
  function CountDecimalDigit32(n: nat): (r: nat)
    ensures n < 1000000000 ==> 1 <= r <= 9 && n < Pow10(r) && (n > 0 ==> Pow10(r - 1) <= n)
  {
    Table(1); Table(2); Table(3); Table(4); Table(5); Table(6); Table(7); Table(8); Table(9);
    if n < 10 then 1
    else if n < 100 then 2
    else if n < 1000 then 3
    else if n < 10000 then 4
    else if n < 100000 then 5
    else if n < 1000000 then 6
    else if n < 10000000 then 7
    else if n < 100000000 then 8
    else 9
  }

  // ----- Digit generation -----

  /** A non-empty string of digits without a leading zero. */
  predicate Numeral(digits: string) {
    digits != [] && AllDigits(digits) && digits[0] != '0'
  }

  /** What DigitGen promises about the number `d * 10^k` for the interval `[lo, hi]` and the target. */
  ghost predicate Generated(lo: nat, hi: nat, s: nat, target: nat, d: nat, k: int) {
    && Covered(lo, hi, s, d, k)
    && Shortest(lo, hi, s, k)
    && (-k < 9 ==> Nearest(lo, hi, s, target, d, k))
    && (-k >= 9 ==> forall c: nat :: Covered(lo, hi, s, c, k) ==> c <= d)
  }

  /** What is left of `hi` above `d * 10^k`, in the unit of the comparison. */
  function Rest(hi: nat, s: nat, d: nat, k: int): int {
    hi * Down(k) - At(d, k, s)
  }

  /**
   * The largest number of its exponent in the interval is nearest to the target exactly when the target is not more
   * than half a unit below it, or the next smaller one is outside.
   */
  lemma LargestIsNearest(lo: nat, hi: nat, s: nat, target: nat, d: nat, k: int)
    requires lo <= target <= hi && Covered(lo, hi, s, d, k) && forall c: nat :: Covered(lo, hi, s, c, k) ==> c <= d
    ensures Nearest(lo, hi, s, target, d, k) <==>
            || 2 * ((hi - target) * Down(k)) <= 2 * Rest(hi, s, d, k) + Unit(k, s)
            || Rest(hi, s, d, k) + Unit(k, s) > (hi - lo) * Down(k)
  {
    hide Unit, Down, At;
    var u, w := Unit(k, s), (hi - target) * Down(k);
    Spread(hi, lo, Down(k));
    Spread(hi, target, Down(k));
    AtUnit(d, k, s);
    if d > 0 {
      AtUnit(d - 1, k, s);
      assert (d - 1) * u == d * u - u;
      if Covered(lo, hi, s, d - 1, k) && 2 * w > 2 * Rest(hi, s, d, k) + u {
        assert Gap(At(d - 1, k, s), target * Down(k)) < Gap(At(d, k, s), target * Down(k));
      }
    }
    if 2 * w <= 2 * Rest(hi, s, d, k) + u || Rest(hi, s, d, k) + u > (hi - lo) * Down(k) {
      forall c: nat | Covered(lo, hi, s, c, k)
        ensures Gap(At(d, k, s), target * Down(k)) <= Gap(At(c, k, s), target * Down(k))
      {
        AtUnit(c, k, s);
        if c < d {
          OneLess(c, d, u);
        }
      }
    }
  }

  lemma OneLess(c: nat, d: nat, u: nat)
    requires c < d
    ensures c * u + u <= d * u
  {
    if u > 0 {
      Cancel(c + 1, d, u);
    }
    assert (c + 1) * u == c * u + u;
  }

  /** When what DigitGen gives is nearest to the target. */
  lemma GeneratedIsNearest(lo: nat, hi: nat, s: nat, target: nat, d: nat, k: int)
    requires lo <= target <= hi && Generated(lo, hi, s, target, d, k)
    ensures Nearest(lo, hi, s, target, d, k) <==>
            || -k < 9
            || 2 * ((hi - target) * Down(k)) <= 2 * Rest(hi, s, d, k) + Unit(k, s)
            || Rest(hi, s, d, k) + Unit(k, s) > (hi - lo) * Down(k)
  {
    hide Unit, Down, Rest, Nearest, Shortest, Covered;
    if -k >= 9 {
      LargestIsNearest(lo, hi, s, target, d, k);
    }
  }

  /** The double 0.1 + 0.2 and its interval, times a cached power, in units of 2^-51. */
  const SUM: nat := 6755399441055745000
  const SUM_LOW: nat := 6755399441055744376
  const SUM_HIGH: nat := 6755399441055745624

  /**
   * The interval around the double 0.1 + 0.2: its largest number with 17 digits is what DigitGen gives,
   * 30000000000000007, although 30000000000000004 is nearer.
   */
  lemma NotNearestExample(d: nat, k: int)
    requires Generated(SUM_LOW, SUM_HIGH, 51, SUM, d, k)
    ensures d == 30000000000000007 && k == -13
    ensures !Nearest(SUM_LOW, SUM_HIGH, 51, SUM, d, k)
  {
    hide Pow10, Pow2;
    ExamplePowers();
    if k > -13 {
      SameComparison(SUM_LOW, d, k, -12, 51);
      SameComparison(SUM_HIGH, d, k, -12, 51);
      assert false by {
        NoneWithTwelve(d * Pow10(k + 12));
      }
    }
    assert CoveredInside(SUM_LOW, SUM_HIGH, 51, 30000000000000007, -13);
    assert Covered(SUM_LOW, SUM_HIGH, 51, 30000000000000007, -13);
    assert Covered(SUM_LOW, SUM_HIGH, 51, 30000000000000004, -13);
  }

  lemma ExamplePowers()
    ensures Pow10(0) == 1 && Pow10(12) == 1000000000000 && Pow10(13) == 10000000000000 && Pow2(51) == 0x8_0000_0000_0000
  {
    PowersOfTwo();
    PowersOfTwoTo16();
    assert Pow10(6) == 1000000;
    Pow10Add(6, 6);
    Pow2Add(32, 16);
    Pow2Add(48, 3);
  }

  lemma NoneWithTwelve(c: nat)
    ensures !Covered(SUM_LOW, SUM_HIGH, 51, c, -12)
  {
    hide Pow10, Pow2;
    ExamplePowers();
  }

  /** Where the loops stop: `d * 10^k` is the largest number of its exponent in the interval, and none is shorter. */
  ghost predicate Found(lo: nat, hi: nat, s: nat, d: nat, k: int, rest: nat) {
    && lo <= hi && Written(hi, s, d, k, rest) && rest <= (hi - lo) * Down(k)
    && NoneAt(lo, hi, s, k + 1) && (k + 1 < 0 ==> NoneAt(lo, hi, s, 0))
  }

  lemma Largest(lo: nat, hi: nat, s: nat, d: nat, k: int, rest: nat)
    requires lo <= hi && Written(hi, s, d, k, rest)
    ensures forall c: nat :: Covered(lo, hi, s, c, k) ==> c <= d
  {
    hide Unit, Down, At;
    forall c: nat | Covered(lo, hi, s, c, k) ensures c <= d {
      AtUnit(c, k, s);
      Below(c, d, Unit(k, s), rest);
    }
  }

  lemma NoStepWithoutTarget(rest: nat, delta: nat, unit: nat, j: nat)
    requires Closest(rest, delta, unit, 0, j) && unit >= 1
    ensures j == 0
  {
    NoSteps(rest, unit);
    if j > 0 {
      LaterStep(rest, unit, 0, j);
    }
  }

  lemma LastDigitStays(rest: nat, delta: nat, unit: nat, l: nat, j: nat)
    requires Stepped(rest, unit, j) <= delta < Stepped(rest, unit, l)
    ensures j < l
  {
    Cancel(j, l, unit);
  }

  /** Rounding the last digit of the largest number gives the number promised. */
  lemma RoundedIsGenerated(lo: nat, hi: nat, s: nat, target: nat, d: nat, k: int, rest: nat, w: nat, j: nat)
    requires lo <= target <= hi && Found(lo, hi, s, d, k, rest) && j <= d
    requires w == if -k < 9 then (hi - target) * Down(k) else 0
    requires Closest(rest, (hi - lo) * Down(k), Unit(k, s), w, j)
    ensures Generated(lo, hi, s, target, d - j, k)
  {
    hide Unit, Down, NoneAt, Shortest, Nearest, Covered, Closest, Written;
    CoarserNone(lo, hi, s, k);
    if -k < 9 {
      RoundedIsNearest(lo, hi, s, target, d, k, rest, j);
    } else {
      NoStepWithoutTarget(rest, (hi - lo) * Down(k), Unit(k, s), j);
      LargestIsCovered(lo, hi, s, d, k, rest);
      Largest(lo, hi, s, d, k, rest);
    }
  }

  lemma LargestIsCovered(lo: nat, hi: nat, s: nat, d: nat, k: int, rest: nat)
    requires lo <= hi && Written(hi, s, d, k, rest) && rest <= (hi - lo) * Down(k)
    ensures Covered(lo, hi, s, d, k)
  {
    hide Unit, Down, At;
    AtUnit(d, k, s);
    Spread(hi, lo, Down(k));
  }

  lemma Lowered(digits: string, digits': string, j: nat)
    requires Numeral(digits) && |digits'| == |digits|
    requires forall i :: 0 <= i < |digits| - 1 ==> digits'[i] == digits[i]
    requires IsDigit(digits'[|digits| - 1]) && DigitValue(digits[|digits| - 1]) == DigitValue(digits'[|digits| - 1]) + j
    requires |digits| == 1 ==> j < DigitValue(digits[0])
    ensures Numeral(digits') && j <= DecimalValue(digits) && DecimalValue(digits') == DecimalValue(digits) - j
  {
    assert digits'[..|digits| - 1] == digits[..|digits| - 1];
  }

  /** The last step of both loops: rounding. */
  method Finish(buffer: array<char>, len: nat, delta: nat, rest: nat, tenKappa: nat, wpW: nat,
                ghost lo: nat, ghost hi: nat, ghost s: nat, ghost target: nat, ghost k: int)
    requires 0 < len <= buffer.Length && Numeral(buffer[..len]) && (k < 0 ==> len > 1)
    requires 0 < lo <= target <= hi && Found(lo, hi, s, DecimalValue(buffer[..len]), k, rest)
    requires delta == (hi - lo) * Down(k) < TWO64 && tenKappa == Unit(k, s)
    requires wpW == if -k < 9 then (hi - target) * Down(k) else 0
    modifies buffer
    ensures forall i :: len <= i < buffer.Length ==> buffer[i] == old(buffer[i])
    ensures Numeral(buffer[..len]) && Generated(lo, hi, s, target, DecimalValue(buffer[..len]), k)
  {
    hide Unit, Down, NoneAt, Generated, Written, Closest, Numeral, Stepped;
    ghost var digits := buffer[..len];
    LastDigitOf(digits);
    ghost var l, e := DigitValue(digits[len - 1]), DecimalValue(digits[..len - 1]);
    LastDigitLimits(lo, hi, s, e, l, k, rest);
    Limits(rest, tenKappa, l);
    GrisuRound(buffer, len, delta, rest, tenKappa, wpW);
    ghost var j := l - DigitValue(buffer[len - 1]);
    ClosestStays(rest, delta, tenKappa, wpW, j);
    if len == 1 {
      LastDigitStays(rest, delta, tenKappa, l, j);
    }
    Lowered(digits, buffer[..len], j);
    RoundedIsGenerated(lo, hi, s, target, DecimalValue(digits), k, rest, wpW, j);
  }

  lemma LastDigitOf(digits: string)
    requires Numeral(digits)
    ensures AllDigits(digits[..|digits| - 1]) && IsDigit(digits[|digits| - 1])
    ensures DecimalValue(digits) == 10 * DecimalValue(digits[..|digits| - 1]) + DigitValue(digits[|digits| - 1])
  {
  }

  lemma Limits(rest: nat, unit: nat, l: nat)
    ensures Stepped(rest, unit, l) == rest + l * unit && Stepped(rest, unit, l + 1) == rest + (l + 1) * unit
  {
  }

  lemma ClosestStays(rest: nat, delta: nat, unit: nat, target: nat, j: nat)
    requires Closest(rest, delta, unit, target, j)
    ensures Stepped(rest, unit, j) <= delta
  {
  }

  // ----- The two loops -----

  /** Writing one more digit: `d` grows by a digit and the exponent falls by one. */
  lemma NextDigit(hi: nat, s: nat, d: nat, k: int, digit: nat, rest: nat, rest': nat)
    requires Written(hi, s, d, k, rest) && rest' < Unit(k - 1, s)
    requires if k > 0 then rest == digit * Unit(k - 1, s) + rest' else 10 * rest == digit * Unit(k - 1, s) + rest'
    ensures Written(hi, s, 10 * d + digit, k - 1, rest')
  {
    hide Unit, Down;
    NextUnit(k - 1, s);
    Shift(d, Unit(k - 1, s));
    Shift(hi, Down(k));
    LowerDigits(d, digit, Unit(k - 1, s));
  }

  lemma Appended(digits: string, c: char)
    requires (digits == [] || Numeral(digits)) && IsDigit(c) && (digits == [] ==> c != '0')
    ensures Numeral(digits + [c]) && DecimalValue(digits + [c]) == 10 * DecimalValue(digits) + DigitValue(c)
  {
    assert (digits + [c])[..|digits|] == digits;
  }

  /** Appends a digit, unless it would be a leading zero. */
  method PutDigit(buffer: array<char>, len: nat, digit: nat) returns (len': nat)
    requires len < buffer.Length && digit <= 9 && (len == 0 ==> digit > 0)
    requires len == 0 || Numeral(buffer[..len])
    modifies buffer
    ensures len' == len + 1 && forall i :: len' <= i < buffer.Length ==> buffer[i] == old(buffer[i])
    ensures Numeral(buffer[..len'])
    ensures AllDigits(old(buffer[..len])) && DecimalValue(buffer[..len']) == 10 * DecimalValue(old(buffer[..len])) + digit
  {
    hide DecimalValue;
    var c := ('0' as int + digit) as char;
    ghost var before := buffer[..len];
    Appended(before, c);
    len' := len;
    if digit != 0 || len' != 0 {
      buffer[len'] := c;
      len' := len' + 1;
    }
    assert buffer[..len'] == before + [c];
  }

  /** The integer part `p1` still to be written has at most `kappa` digits. */
  ghost predicate IntegerPart(lo: nat, hi: nat, s: nat, d: nat, kappa: nat, p1: nat, p2: nat) {
    && p1 < Pow10(kappa) && p2 < Pow2(s)
    && Written(hi, s, d, kappa, p1 * Pow2(s) + p2)
    && NoneAt(lo, hi, s, kappa)
  }

  /** Dividing by the power of ten of the switch gives the next digit. */
  lemma IntegerDigit(lo: nat, hi: nat, s: nat, d: nat, kappa: nat, p1: nat, p2: nat, digit: nat, r: nat)
    requires IntegerPart(lo, hi, s, d, kappa, p1, p2) && 0 < kappa
    requires p1 == digit * Pow10(kappa - 1) + r && r < Pow10(kappa - 1)
    ensures Written(hi, s, 10 * d + digit, kappa - 1, r * Pow2(s) + p2)
  {
    hide NoneAt, Written, Pow2;
    var t, one := Pow10(kappa - 1), Pow2(s);
    RestBound(r, t, one, p2);
    Distribute(digit, t, r, one);
    NextDigit(hi, s, d, kappa, digit, p1 * one + p2, r * one + p2);
  }

  lemma Divided(p1: nat, kappa: nat)
    requires 0 < kappa <= 9 && p1 < Pow10(kappa)
    ensures var t := POWERS_OF_TEN[kappa - 1];
            t == Pow10(kappa - 1) && p1 / t <= 9 && p1 % t < t && p1 == (p1 / t) * t + p1 % t
  {
    Table(kappa - 1);
    DigitBound(p1, Pow10(kappa - 1));
  }

  lemma DigitBound(p: nat, t: nat)
    requires 0 < t && p < 10 * t
    ensures p / t <= 9
  {
    if p / t >= 10 {
      Cancel(10, p / t, t);
    }
  }

  lemma RestBound(r: nat, t: nat, one: nat, p2: nat)
    requires r < t && p2 < one
    ensures r * one + p2 < t * one
  {
    Cancel(r + 1, t, one);
    assert (r + 1) * one == r * one + one;
  }

  lemma Distribute(digit: nat, t: nat, r: nat, one: nat)
    ensures (digit * t + r) * one == digit * (t * one) + r * one
  {
  }

  /** `delta` tested at exponent `kappa >= 0`: either the digits are enough, or no number of that exponent is. */
  lemma IntegerTest(lo: nat, hi: nat, s: nat, d: nat, kappa: nat, rest: nat)
    requires lo <= hi && Written(hi, s, d, kappa, rest) && NoneAt(lo, hi, s, kappa + 1)
    ensures Down(kappa) == 1 && (hi - lo) * Down(kappa) == hi - lo
    ensures rest <= hi - lo ==> Found(lo, hi, s, d, kappa, rest)
    ensures rest > hi - lo ==> NoneAt(lo, hi, s, kappa)
  {
    if rest > hi - lo {
      NoneHere(lo, hi, s, d, kappa, rest);
    }
  }

  lemma UnitFits(s: nat, hi: nat, count: nat, kappa: nat)
    requires kappa < count && Pow10(count - 1) * Pow2(s) <= hi < TWO64
    ensures Unit(kappa, s) == Pow10(kappa) * Pow2(s) < TWO64
  {
    Pow10Grows(kappa, count - 1);
    Cancel(Pow10(kappa), Pow10(count - 1), Pow2(s));
  }

  /** The digits written so far of the integer part, and what is left of it. */
  ghost predicate Integer(digits: string, lo: nat, hi: nat, s: nat, count: nat, kappa: nat, p1: nat, p2: nat) {
    && |digits| == count - kappa
    && (digits == [] || Numeral(digits))
    && (digits == [] ==> kappa > 0 && Pow10(kappa - 1) <= p1)
    && IntegerPart(lo, hi, s, if digits == [] then 0 else DecimalValue(digits), kappa, p1, p2)
  }

  /** One digit of the integer part. */
  method PutIntegerDigit(buffer: array<char>, len: nat, p: nat, kappa: nat,
                         ghost lo: nat, ghost hi: nat, ghost s: nat, ghost count: nat, ghost p2: nat)
    returns (len': nat, p1: nat)
    requires len < buffer.Length && 0 < kappa <= count <= 9
    requires Integer(buffer[..len], lo, hi, s, count, kappa, p, p2)
    modifies buffer
    ensures len' == len + 1 && forall i :: len' <= i < buffer.Length ==> buffer[i] == old(buffer[i])
    ensures Numeral(buffer[..len']) && p1 < Pow10(kappa - 1)
    ensures Written(hi, s, DecimalValue(buffer[..len']), kappa - 1, p1 * Pow2(s) + p2)
  {
    hide Written, NoneAt, Unit, Down, Pow2, Pow10;
    Divided(p, kappa);
    var digit := p / POWERS_OF_TEN[kappa - 1];
    p1 := p % POWERS_OF_TEN[kappa - 1];
    ghost var d := if len == 0 then 0 else DecimalValue(buffer[..len]);
    IntegerDigit(lo, hi, s, d, kappa, p, p2, digit, p1);
    FirstDigit(p, digit, p1, kappa);
    len' := PutDigit(buffer, len, digit);
  }

  /** One digit of the integer part, and the test whether the digits are enough. */
  method IntegerStep(buffer: array<char>, len: nat, one: nat, p: nat, p2: nat, kappa: nat,
                     ghost lo: nat, ghost hi: nat, ghost s: nat, ghost count: nat)
    returns (len': nat, p1: nat, tmp: nat)
    requires len < buffer.Length && 0 < kappa <= count <= 9 && one == Pow2(s) && p2 < one && lo <= hi < TWO64
    requires Integer(buffer[..len], lo, hi, s, count, kappa, p, p2)
    modifies buffer
    ensures len' == len + 1 && forall i :: len' <= i < buffer.Length ==> buffer[i] == old(buffer[i])
    ensures Numeral(buffer[..len']) && (kappa == 1 ==> tmp == p2)
    ensures tmp <= hi - lo ==> Found(lo, hi, s, DecimalValue(buffer[..len']), kappa - 1, tmp)
    ensures tmp > hi - lo ==> Integer(buffer[..len'], lo, hi, s, count, kappa - 1, p1, p2)
    ensures kappa == 1 && tmp > hi - lo ==>
              Written(hi, s, DecimalValue(buffer[..len']), 0, p2) && NoneAt(lo, hi, s, 0)
  {
    hide DecimalValue, Written, NoneAt, Found, Unit, Down, Pow2, Pow10, Numeral, Wrap64;
    len', p1 := PutIntegerDigit(buffer, len, p, kappa, lo, hi, s, count, p2);
    NumeralIsDigits(buffer[..len']);
    ghost var d := DecimalValue(buffer[..len']);
    RestFits(hi, s, d, kappa - 1, p1, p2, one);
    NoWrap64(p1 * one);
    NoWrap64(p1 * one + p2);
    tmp := Wrap64(Wrap64(p1 * one) + p2);
    IntegerTest(lo, hi, s, d, kappa - 1, tmp);
  }

  lemma NumeralIsDigits(digits: string)
    requires Numeral(digits)
    ensures AllDigits(digits) && digits != []
  {
  }

  /** The loop over the integer part. It leaves when the digits are enough or none are left. */
  method IntegerDigits(buffer: array<char>, s: nat, one: nat, p1: nat, p2: nat, delta: nat, wpW: nat, count: nat,
                       ghost lo: nat, ghost hi: nat, ghost target: nat)
    returns (done: bool, len: nat, kappa: nat)
    requires 0 < lo <= target <= hi < TWO64 && delta == hi - lo && wpW == hi - target
    requires one == Pow2(s) && p2 < one && hi == p1 * one + p2
    requires 1 <= count <= 9 && Pow10(count - 1) <= p1 < Pow10(count) && count < buffer.Length
    modifies buffer
    ensures len <= count && forall i :: len <= i < buffer.Length ==> buffer[i] == old(buffer[i])
    ensures len > 0 && Numeral(buffer[..len])
    ensures done ==> Generated(lo, hi, s, target, DecimalValue(buffer[..len]), kappa)
    ensures !done ==>
              && kappa == 0 && len == count && p2 > delta
              && Written(hi, s, DecimalValue(buffer[..len]), 0, p2) && NoneAt(lo, hi, s, 0)
  {
    hide DecimalValue, IntegerPart, Written, NoneAt, Found, Generated, Unit, Down, Pow2, Pow10;
    len, kappa, done := 0, count, false;
    var p: nat := p1;
    StartsInteger(lo, hi, s, count, p1, p2);
    LeadingPower(hi, s, count, p1, p2);
    while kappa > 0
      invariant kappa <= count && len == count - kappa
      invariant Integer(buffer[..len], lo, hi, s, count, kappa, p, p2)
      invariant kappa == 0 ==>
          p2 > delta && Written(hi, s, DecimalValue(buffer[..len]), 0, p2) && NoneAt(lo, hi, s, 0)
      invariant forall i :: len <= i < buffer.Length ==> buffer[i] == old(buffer[i])
    {
      var tmp;
      len, p, tmp := IntegerStep(buffer, len, one, p, p2, kappa, lo, hi, s, count);
      kappa := kappa - 1;
      if tmp <= delta {
        UnitFits(s, hi, count, kappa);
        Table(kappa);
        NextUnit(kappa, s);
        Finish(buffer, len, delta, tmp, Wrap64(POWERS_OF_TEN[kappa] * one), wpW, lo, hi, s, target, kappa);
        done := true;
        return;
      }
    }
  }

  lemma RestFits(hi: nat, s: nat, d: nat, kappa: nat, p: nat, p2: nat, one: nat)
    requires one > 0 && Written(hi, s, d, kappa, p * one + p2) && p < Pow10(kappa)
    ensures 0 <= p * one <= p * one + p2 <= hi
    ensures kappa == 0 ==> p == 0 && p * one == 0
  {
    hide Unit, Pow2;
    NextUnit(kappa, s);
    Cancel(0, d, Unit(kappa, s));
    Cancel(0, p, one);
  }

  lemma LeadingPower(hi: nat, s: nat, count: nat, p1: nat, p2: nat)
    requires 1 <= count && Pow10(count - 1) <= p1 && hi == p1 * Pow2(s) + p2
    ensures Pow10(count - 1) * Pow2(s) <= hi
  {
    Cancel(Pow10(count - 1), p1, Pow2(s));
  }

  lemma StartsInteger(lo: nat, hi: nat, s: nat, count: nat, p1: nat, p2: nat)
    requires 0 < lo <= hi && 1 <= count && p1 < Pow10(count) && p2 < Pow2(s) && hi == p1 * Pow2(s) + p2
    ensures IntegerPart(lo, hi, s, 0, count, p1, p2)
  {
    RestBound(p1, Pow10(count), Pow2(s), p2);
    NoneHere(lo, hi, s, 0, count, hi);
  }

  lemma FirstDigit(p: nat, digit: nat, r: nat, kappa: nat)
    requires 0 < kappa && p == digit * Pow10(kappa - 1) + r && r < Pow10(kappa - 1)
    ensures p >= Pow10(kappa - 1) ==> digit > 0
  {
  }

  // Below the point the number and the interval are multiplied by ten at every step.

  lemma FractionDigit(lo: nat, hi: nat, s: nat, d: nat, m: int, p2: nat, digit: nat, r: nat)
    requires m >= 0 && lo <= hi && Written(hi, s, d, -m, p2) && 10 * p2 == digit * Pow2(s) + r && r < Pow2(s)
    ensures Written(hi, s, 10 * d + digit, -m - 1, r)
    ensures (hi - lo) * Down(-m - 1) == 10 * ((hi - lo) * Down(-m))
    ensures Unit(-m - 1, s) == Pow2(s)
  {
    hide Written;
    NextUnit(-m - 1, s);
    Shift(hi - lo, Down(-m));
    NextDigit(hi, s, d, -m, digit, p2, r);
  }

  lemma FractionTest(lo: nat, hi: nat, s: nat, d: nat, m: int, r: nat)
    requires m > 0 && lo <= hi && Written(hi, s, d, -m, r) && NoneAt(lo, hi, s, -m + 1) && NoneAt(lo, hi, s, 0)
    ensures r < (hi - lo) * Down(-m) ==> Found(lo, hi, s, d, -m, r)
    ensures r >= (hi - lo) * Down(-m) ==> NoneAt(lo, hi, s, -m)
  {
    hide NoneAt, Written, Down;
    if r >= (hi - lo) * Down(-m) {
      NoneHere(lo, hi, s, d, -m, r);
    }
  }

  /** An interval of at least one unit is met before the digits outgrow 20 places. */
  lemma FewDigits(hi: nat, delta: nat, s: nat, count: nat, m: int, p2: nat)
    requires m >= 0 && 1 <= count && 1 <= delta && Pow10(count - 1) * Pow2(s) <= hi < TWO64
    requires delta * Down(-m) <= p2 < Pow2(s)
    ensures count + m <= 20
  {
    assert Down(-m) == Pow10(m);
    Pow10Add(count - 1, m);
    var a, b := Pow10(count - 1), Pow10(m);
    Cancel(1, delta, b);
    assert b <= Pow2(s);
    Cancel(b, Pow2(s), a);
    assert a * b <= hi;
    if count + m > 20 {
      Pow10Grows(20, count - 1 + m);
      TenToTwenty();
    }
  }

  lemma TenToTwenty()
    ensures Pow10(20) > TWO64
  {
    Table(8);
    Pow10Add(8, 8);
    Pow10Add(16, 4);
    assert Pow10(4) == 10000;
  }

  lemma TargetFits(hi: nat, lo: nat, target: nat, m: int)
    requires m >= 0 && lo <= target <= hi && (hi - lo) * Down(-m) < TWO64
    ensures (hi - target) * Down(-m) < TWO64
    ensures m <= 9 ==> Down(-m) == POWERS_OF_TEN[m]
  {
    Cancel(hi - target, hi - lo, Down(-m));
    if m <= 9 {
      Table(m);
    }
  }

  lemma TenTimes(p2: nat, one: nat)
    requires p2 < one
    ensures 10 * p2 / one <= 9
    ensures 10 * p2 == (10 * p2 / one) * one + 10 * p2 % one && 10 * p2 % one < one
  {
    DigitBound(10 * p2, one);
  }

  /** The digits written so far, what is left below the point, and the interval, all times a power of ten. */
  ghost predicate Fraction(digits: string, lo: nat, hi: nat, s: nat, kappa: int, p2: nat, delta: nat) {
    && kappa <= 0 && lo <= hi && Numeral(digits) && p2 < Pow2(s)
    && delta == (hi - lo) * Down(kappa)
    && Written(hi, s, DecimalValue(digits), kappa, p2)
  }

  /** One digit below the point. */
  method FractionStep(buffer: array<char>, len: nat, s: nat, one: nat, p: nat, delta: nat,
                      ghost lo: nat, ghost hi: nat, ghost kappa: int)
    returns (len': nat, p2: nat, delta': nat)
    requires s <= 60 && one == Pow2(s) && delta <= p && 0 < len < buffer.Length
    requires Fraction(buffer[..len], lo, hi, s, kappa, p, delta)
    modifies buffer
    ensures len' == len + 1 && forall i :: len' <= i < buffer.Length ==> buffer[i] == old(buffer[i])
    ensures Fraction(buffer[..len'], lo, hi, s, kappa - 1, p2, delta') && delta' == 10 * delta < TWO64
  {
    hide DecimalValue, Written, Unit, Pow2, Down, Numeral;
    NumeralIsDigits(buffer[..len]);
    ghost var d := DecimalValue(buffer[..len]);
    TenTimes(p, one);
    TenTimesFits(p, s);
    TenTimesFits(delta, s);
    p2, delta' := Wrap64(p * 10), Wrap64(delta * 10);
    var digit, rest := p2 / one, p2 % one;
    FractionDigit(lo, hi, s, d, -kappa, p, digit, rest);
    len' := PutDigit(buffer, len, digit);
    p2 := rest;
  }

  /** The distance of the target, scaled by the table of ten powers, which counts as 0 beyond its end. */
  method Weight(wpW: nat, index: int, ghost lo: nat, ghost hi: nat, ghost target: nat) returns (weight: nat)
    requires index >= 0 && lo <= target <= hi && wpW == hi - target && (hi - lo) * Down(-index) < TWO64
    ensures weight == if index < 9 then (hi - target) * Down(-index) else 0
  {
    hide Down;
    TargetFits(hi, lo, target, index);
    weight := Wrap64(wpW * (if index < 9 then POWERS_OF_TEN[index] else 0));
  }

  /** The loop over the fraction. */
  method FractionDigits(buffer: array<char>, len0: nat, s: nat, one: nat, p: nat, delta0: nat, wpW: nat,
                        ghost lo: nat, ghost hi: nat, ghost target: nat)
    returns (len: nat, kappa: int)
    requires 0 < lo <= target <= hi < TWO64 && delta0 == hi - lo >= 1 && wpW == hi - target
    requires s <= 60 && one == Pow2(s) && delta0 < p < one
    requires 1 <= len0 && Pow10(len0 - 1) * Pow2(s) <= hi && buffer.Length >= 21
    requires len0 <= buffer.Length && Numeral(buffer[..len0])
    requires Written(hi, s, DecimalValue(buffer[..len0]), 0, p) && NoneAt(lo, hi, s, 0)
    modifies buffer
    ensures len0 <= len <= buffer.Length && Numeral(buffer[..len])
    ensures forall i :: len <= i < buffer.Length ==> buffer[i] == old(buffer[i])
    ensures Generated(lo, hi, s, target, DecimalValue(buffer[..len]), kappa)
  {
    hide DecimalValue, Written, NoneAt, Found, Generated, Unit, Pow2, Pow10, Down;
    len, kappa := len0, 0;
    var p2, delta := p, delta0;
    NextUnit(0, s);
    while true
      invariant kappa <= 0 && len <= buffer.Length && len == len0 - kappa
      invariant Fraction(buffer[..len], lo, hi, s, kappa, p2, delta) && delta0 <= delta <= p2
      invariant NoneAt(lo, hi, s, kappa)
      invariant forall i :: len <= i < buffer.Length ==> buffer[i] == old(buffer[i])
      decreases one - delta
    {
      FewDigits(hi, delta0, s, len0, -kappa, p2);
      len, p2, delta := FractionStep(buffer, len, s, one, p2, delta, lo, hi, kappa);
      kappa := kappa - 1;
      FractionTest(lo, hi, s, DecimalValue(buffer[..len]), -kappa, p2);
      if p2 < delta {
        var weight := Weight(wpW, -kappa, lo, hi, target);
        NextUnit(kappa, s);
        Finish(buffer, len, delta, p2, one, weight, lo, hi, s, target, kappa);
        return;
      }
    }
  }

  lemma TenTimesFits(x: nat, s: nat)
    requires x < Pow2(s) && s <= 60
    ensures 10 * x < TWO64
  {
    PowersOfTwo();
    Pow2Grows(s, 60);
  }

  /**
   * The digits of `Mp` that are enough to stay above `Mp - delta`: never outside the interval, as few as possible,
   * and nearest to `W` as long as the exponent is above -9.
   */
  method DigitGen(W: DiyFp, Mp: DiyFp, delta: nat, buffer: array<char>, K: int) returns (len: nat, K': int)
    requires -60 <= Mp.e <= -32 && W.e == Mp.e && W.f <= Mp.f < TWO64
    requires 1 <= Mp.f / Pow2(-Mp.e) < 1000000000
    requires 1 <= delta < Mp.f && Mp.f - W.f <= delta
    requires buffer.Length >= 21
    modifies buffer
    ensures len <= buffer.Length && Numeral(buffer[..len])
    ensures forall i :: len <= i < buffer.Length ==> buffer[i] == old(buffer[i])
    ensures Generated(Mp.f - delta, Mp.f, -Mp.e, W.f, DecimalValue(buffer[..len]), K' - K)
  {
    hide Numeral, Written, NoneAt, Generated, Pow10, DecimalValue;
    var one, wpW := Pow2(-Mp.e), Minus(Mp, W).f;
    var p1, p2 := Mp.f / one, Mp.f % one;
    var kappa: int := CountDecimalDigit32(p1);
    LeadingPower(Mp.f, -Mp.e, kappa, p1, p2);
    var done;
    var count := kappa;
    done, len, kappa := IntegerDigits(buffer, -Mp.e, one, p1, p2, delta, wpW, count, Mp.f - delta, Mp.f, W.f);
    if !done {
      len, kappa := FractionDigits(buffer, len, -Mp.e, one, p2, delta, wpW, Mp.f - delta, Mp.f, W.f);
    }
    K' := K + kappa;
  }
}
