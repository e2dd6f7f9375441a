/** The ring of packets of one lidar: src/comm/ldq.h and src/comm/ldq.cpp, as one thread sees it. */
module LidarQueues {
  import opened Powers

  /** A decoded point; its coordinates are opaque. */
  datatype Point = Point(offsetTime: nat, data: int)

  datatype StoragePacket = StoragePacket(baseTime: nat, pointsNum: nat, points: seq<Point>)

  // ----- Sizes -----

  /** Bitwise and. */
  function And(a: nat, b: nat): nat {
    if a == 0 || b == 0 then 0 else a % 2 * (b % 2) + 2 * And(a / 2, b / 2)
  }

  predicate IsPowerOf2(size: nat) {
    size != 0 && And(size, size - 1) == 0
  }

  lemma {:induction false} AndSelf(a: nat)
    ensures And(a, a) == a
  {
    if a > 0 {
      AndSelf(a / 2);
    }
  }

  ghost predicate SomePower(n: nat) {
    exists k: nat :: n == Pow2(k)
  }

  lemma PowerHalves(n: nat)
    requires n > 0
    ensures SomePower(2 * n) <==> SomePower(n)
    ensures !SomePower(2 * n + 1)
    ensures SomePower(1)
  {
    assert 1 == Pow2(0);
    if SomePower(n) {
      var k: nat :| n == Pow2(k);
      assert 2 * n == Pow2(k + 1);
    }
    if SomePower(2 * n) {
      var k: nat :| 2 * n == Pow2(k);
      assert n == Pow2(k - 1);
    }
    forall k: nat ensures 2 * n + 1 != Pow2(k) {
      if k > 0 {
        assert Pow2(k) == 2 * Pow2(k - 1);
      }
    }
  }

  /** The lowest bit of a number and of its predecessor differ. */
  lemma AndPredecessor(n: nat)
    requires n > 0
    ensures And(2 * n, 2 * n - 1) == 2 * And(n, n - 1)
    ensures And(2 * n + 1, 2 * n) == 2 * n
  {
    AndSelf(n);
    assert (2 * n - 1) / 2 == n - 1;
    if n == 1 {
      AndZero(1, 0);
    }
  }

  /** The bit trick finds exactly the powers of two. */
  lemma {:induction false} PowersPassTheTest(size: nat)
    requires size > 0
    ensures IsPowerOf2(size) <==> SomePower(size)
  {
    hide And, SomePower;
    if size == 1 {
      AndZero(1, 0);
      PowerHalves(1);
    } else {
      var n := size / 2;
      PowersPassTheTest(n);
      AndPredecessor(n);
      PowerHalves(n);
      assert size == 2 * n || size == 2 * n + 1;
    }
  }

  /** Masking with a power of two less one is the remainder. */
  lemma {:induction false} MaskIsRemainder(x: nat, k: nat)
    ensures And(x, Pow2(k) - 1) == x % Pow2(k)
  {
    if x == 0 || k == 0 {
      AndZero(x, Pow2(k) - 1);
    } else {
      MaskIsRemainder(x / 2, k - 1);
      MaskStep(x, Pow2(k - 1));
    }
  }

  lemma MaskStep(x: nat, p: nat)
    requires p >= 1 && And(x / 2, p - 1) == x / 2 % p
    ensures And(x, 2 * p - 1) == x % (2 * p)
  {
    AndOdd(x, p);
    hide And;
    HalfRemainder(x, p);
  }

  lemma AndZero(x: nat, y: nat)
    requires x == 0 || y == 0
    ensures And(x, y) == 0
  {
  }

  lemma AndOdd(x: nat, p: nat)
    requires p >= 1
    ensures And(x, 2 * p - 1) == x % 2 + 2 * And(x / 2, p - 1)
  {
    assert (2 * p - 1) % 2 == 1 && (2 * p - 1) / 2 == p - 1;
    if x == 0 {
      AndZero(x / 2, p - 1);
    }
  }

  lemma HalfRemainder(x: nat, p: nat)
    requires p > 0
    ensures x % (2 * p) == x % 2 + 2 * (x / 2 % p)
  {
    var h := x / 2;
    assert x == h / p * (2 * p) + (x % 2 + 2 * (h % p));
    RemainderOf(x, h / p, x % 2 + 2 * (h % p), 2 * p);
  }

  lemma RemainderOf(x: nat, q: nat, r: nat, p: nat)
    requires x == q * p + r && r < p
    ensures x % p == r
  {
    var d := x / p - q;
    assert d * p == (x / p) * p - q * p;
    Cancel(d, 1, p);
    Cancel(-1, d, p);
  }

  /** The first of 2^0 .. 2^31 that is not below `size`, or 2^31. */
  method RoundupPowerOf2(size: nat) returns (power2Val: nat)
    requires size < TWO32
    ensures SomePower(power2Val) && power2Val <= 0x8000_0000
    ensures size <= 0x8000_0000 ==>
              size <= power2Val && forall k: nat :: size <= Pow2(k) ==> power2Val <= Pow2(k)
    ensures size > 0x8000_0000 ==> power2Val == 0x8000_0000
  {
    power2Val := 0;
    PowersOfTwo();
    assert Pow2(32) == 2 * Pow2(31);
    for i := 0 to 32
      invariant forall k: nat :: k < i ==> Pow2(k) < size
      invariant i > 0 ==> power2Val == Pow2(i - 1)
    {
      power2Val := Pow2(i);
      if size <= power2Val {
        forall k: nat | size <= Pow2(k) ensures power2Val <= Pow2(k) {
          if k >= i {
            Pow2Grows(i, k);
          }
        }
        if size > 0x8000_0000 {
          Pow2Grows(i, 31);
        }
        return;
      }
    }
    assert Pow2(31) < size;
  }

  // ----- 32-bit indices -----

  /** Indices that ran `w` and `r` steps differ by `w - r`, whatever wrapped. */
  lemma WrappedDifference(w: nat, r: nat)
    requires r <= w < r + TWO32
    ensures (w % TWO32 - r % TWO32) % TWO32 == w - r
    ensures w % TWO32 == r % TWO32 <==> w == r
  {
  }

  /** A size that divides 2^32 sees the slots of the unwrapped index. */
  lemma WrappedSlot(w: nat, k: nat)
    requires k <= 32
    ensures w % TWO32 % Pow2(k) == w % Pow2(k)
  {
    hide Pow2;
    PowersOfTwo();
    Pow2Add(k, 32 - k);
    RemainderOfMultiple(w, Pow2(k), Pow2(32 - k), TWO32);
  }

  lemma RemainderOfMultiple(w: nat, p: nat, q: nat, m: nat)
    requires p > 0 && m == p * q && m > 0
    ensures w % m % p == w % p
  {
    var a, b := w / m, w % m;
    Collect(a, b / p, b % p, p, q);
    assert b == b / p * p + b % p;
    RemainderOf(w, a * q + b / p, b % p, p);
  }

  lemma Collect(a: nat, c: nat, r: nat, p: nat, q: nat)
    ensures a * (p * q) + (c * p + r) == (a * q + c) * p + r
  {
  }

  lemma NextIndex(w: nat)
    ensures (w % TWO32 + 1) % TWO32 == (w + 1) % TWO32
  {
  }

  /** Two steps less than a ring apart never meet in one slot. */
  lemma DifferentSlots(i: nat, j: nat, size: nat)
    requires i < j < i + size
    ensures i % size != j % size
  {
    if i % size == j % size {
      var d := j / size - i / size;
      assert d * size == j / size * size - i / size * size;
      assert d * size == j - i;
      Cancel(0, d, size);
      Cancel(d, 1, size);
    }
  }

  // ----- The slots in use -----

  function At(slots: seq<StoragePacket>, i: nat): StoragePacket
    requires slots != []
  {
    slots[i % |slots|]
  }

  /** What the slots hold between two unwrapped indices. */
  function Window(slots: seq<StoragePacket>, start: nat, end: nat): (w: seq<StoragePacket>)
    requires start <= end && slots != []
    ensures |w| == end - start
    decreases end
  {
    if start == end then [] else Window(slots, start, end - 1) + [At(slots, end - 1)]
  }

  lemma {:induction false} WindowHead(slots: seq<StoragePacket>, start: nat, end: nat)
    requires start < end && slots != []
    ensures Window(slots, start, end) == [At(slots, start)] + Window(slots, start + 1, end)
    decreases end
  {
    if start + 1 < end {
      WindowHead(slots, start, end - 1);
    }
  }

  /** Filling the next slot leaves a window shorter than the ring alone. */
  lemma {:induction false} WindowKept(slots: seq<StoragePacket>, start: nat, end: nat, next: nat, p: StoragePacket)
    requires start <= end <= next < start + |slots|
    ensures Window(slots[next % |slots| := p], start, end) == Window(slots, start, end)
    decreases end
  {
    if start < end {
      WindowKept(slots, start, end - 1, next, p);
      DifferentSlots(end - 1, next, |slots|);
    }
  }

  // ----- The queue -----

  lemma NoPowerIsZero()
    ensures !SomePower(0)
  {
  }

  /** The logarithm of a 32-bit power of two. */
  ghost function SmallPower(size: nat): (k: nat)
    requires SomePower(size) && size < TWO32
    ensures k < 32 && size == Pow2(k)
  {
    var k: nat :| size == Pow2(k);
    PowersOfTwo();
    if k >= 32 then
      Pow2Grows(32, k);
      assert false;
      0
    else k
  }

  class LidarDataQueue {
    var storagePacket: array<StoragePacket>
    var rdIdx: nat
    var wrIdx: nat
    var mask: nat
    var size: nat
    /** The indices as they would be without the wrap, and the binary logarithm of the size. */
    ghost var popped: nat
    ghost var pushed: nat
    ghost var bits: nat

    ghost predicate Valid()
      reads this
    {
      && bits < 32 && size == Pow2(bits) == storagePacket.Length && mask == size - 1
      && popped <= pushed <= popped + size
      && rdIdx == popped % TWO32 && wrIdx == pushed % TWO32
    }

    /** The packets still to be read, oldest first. */
    ghost function Contents(): seq<StoragePacket>
      requires Valid()
      reads this, storagePacket
    {
      Window(storagePacket[..], popped, pushed)
    }

    constructor (queueSize: nat)
      requires queueSize < TWO32
      ensures Valid() && fresh(storagePacket) && Contents() == []
      ensures SomePower(queueSize) ==> size == queueSize
      ensures queueSize <= 0x8000_0000 ==> queueSize <= size && forall k: nat :: queueSize <= Pow2(k) ==> size <= Pow2(k)
    {
      var realSize := queueSize;
      if queueSize > 0 {
        PowersPassTheTest(queueSize);
      } else {
        NoPowerIsZero();
      }
      if !IsPowerOf2(queueSize) {
        realSize := RoundupPowerOf2(queueSize);
      }
      ghost var k := SmallPower(realSize);
      storagePacket := new StoragePacket[realSize](_ => StoragePacket(0, 0, []));
      rdIdx, wrIdx := 0, 0;
      size, mask := realSize, realSize - 1;
      popped, pushed, bits := 0, 0, k;
    }

    method QueueUsedSize() returns (used: nat)
      requires Valid()
      ensures used == |Contents()|
    {
      Smaller();
      WrappedDifference(pushed, popped);
      used := (wrIdx - rdIdx) % TWO32;
    }

    method QueueIsFull() returns (full: bool)
      requires Valid()
      ensures full <==> |Contents()| == size
    {
      var used := QueueUsedSize();
      full := used > mask;
    }

    method QueueIsEmpty() returns (empty: bool)
      requires Valid()
      ensures empty <==> Contents() == []
    {
      Smaller();
      WrappedDifference(pushed, popped);
      empty := rdIdx == wrIdx;
    }

    lemma Smaller()
      requires Valid()
      ensures size < TWO32
    {
      Pow2Grows(bits, 31);
      PowersOfTwo();
      assert Pow2(32) == 2 * Pow2(31);
    }

    /** The slot of an index, as the mask finds it. */
    lemma Slot(i: nat)
      requires Valid()
      ensures And(i % TWO32, mask) == i % size < size
    {
      MaskIsRemainder(i % TWO32, bits);
      WrappedSlot(i, bits);
    }

    method QueuePushAny(points: seq<Point>, baseTime: nat)
      requires Valid() && |Contents()| < size
      modifies this`wrIdx, this`pushed, storagePacket
      ensures Valid() && Contents() == old(Contents()) + [StoragePacket(baseTime, |points|, points)]
    {
      hide And, Pow2;
      Slot(pushed);
      NextIndex(pushed);
      var packet := StoragePacket(baseTime, |points|, points);
      var slot := And(wrIdx, mask);
      WindowKept(storagePacket[..], popped, pushed, pushed, packet);
      storagePacket[slot] := packet;
      assert storagePacket[..] == old(storagePacket[..])[pushed % size := packet];
      wrIdx := (wrIdx + 1) % TWO32;
      pushed := pushed + 1;
    }

    method QueuePrePop() returns (ok: bool, packet: StoragePacket)
      requires Valid()
      ensures ok <==> Contents() != []
      ensures ok ==> packet == Contents()[0]
    {
      var empty := QueueIsEmpty();
      if empty {
        return false, StoragePacket(0, 0, []);
      }
      Slot(popped);
      WindowHead(storagePacket[..], popped, pushed);
      return true, storagePacket[And(rdIdx, mask)];
    }

    method QueuePop() returns (ok: bool, packet: StoragePacket)
      requires Valid()
      modifies this`rdIdx, this`popped
      ensures Valid() && (ok <==> old(Contents()) != [])
      ensures ok ==> [packet] + Contents() == old(Contents())
      ensures !ok ==> Contents() == old(Contents())
    {
      ok, packet := QueuePrePop();
      if ok {
        NextIndex(popped);
        WindowHead(storagePacket[..], popped, pushed);
        rdIdx := (rdIdx + 1) % TWO32;
        popped := popped + 1;
      }
    }
  }
}
