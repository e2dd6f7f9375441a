/** The pool allocator of allocators.h: blocks are cut from chunks, and only the newest block of the newest chunk can grow. */
module PoolAllocators {
  import opened Options
  import opened Powers

  /** ALIGN(sizeof(ChunkHeader)) on a 64-bit machine. */
  const HEADER: nat := 24

  /** A chunk at address `base`: its header, then `capacity` bytes, of which `size` are handed out. */
  datatype Chunk = Chunk(base: nat, capacity: nat, size: nat)

  /** The list of chunks, the newest first. */
  datatype Pool = Pool(chunks: seq<Chunk>, chunkCapacity: nat)

  datatype Block = Block(at: nat, size: nat)

  // ----- Arithmetic of size_t -----

  /** ALIGN: (x + 7) & ~7 in 64 bits. */
  function Align(n: nat): nat {
    Wrap64(n + 7) / 8 * 8
  }

  /** The same without the width. */
  function RoundUp(n: nat): (r: nat)
    ensures r >= n && r % 8 == 0 && r < n + 8
  {
    (n + 7) / 8 * 8
  }

  lemma AlignIsRoundUp(n: nat)
    requires n < TWO64
    ensures Align(n) == if RoundUp(n) < TWO64 then RoundUp(n) else 0
    ensures Align(n) % 8 == 0 && Align(n) < TWO64
  {
  }

  // ----- The operations -----

  function Data(c: Chunk): nat {
    c.base + HEADER
  }

  /** How much a chunk made for `size` bytes holds. */
  function NewCapacity(p: Pool, size: nat): nat {
    if p.chunkCapacity > size then p.chunkCapacity else size
  }

  /** What AddChunk asks the base allocator for. */
  function Request(capacity: nat): nat {
    Wrap64(HEADER + capacity)
  }

  predicate NeedsChunk(p: Pool, size: nat) {
    p.chunks == [] || Wrap64(p.chunks[0].size + size) > p.chunks[0].capacity
  }

  function AddChunk(p: Pool, capacity: nat, base: nat): Pool {
    p.(chunks := [Chunk(base, capacity, 0)] + p.chunks)
  }

  datatype Allocated = Allocated(pool: Pool, at: Option<nat>)

  function Cut(p: Pool, size: nat): Allocated
    requires p.chunks != []
  {
    var c := p.chunks[0];
    Allocated(p.(chunks := p.chunks[0 := c.(size := Wrap64(c.size + size))]), Some(Data(c) + c.size))
  }

  /** `granted` is what the base allocator answers if it is asked. */
  function MallocStep(p: Pool, n: nat, granted: Option<nat>): Allocated {
    if n == 0 then Allocated(p, None)
    else
      var size := Align(n);
      if !NeedsChunk(p, size) then Cut(p, size)
      else if granted.None? then Allocated(p, None)
      else Cut(AddChunk(p, NewCapacity(p, size), granted.value), size)
  }

  /** The block is the newest one, as far as its address and stated size tell. */
  predicate IsLast(p: Pool, at: nat, originalSize: nat) {
    p.chunks != [] && at + originalSize == Data(p.chunks[0]) + p.chunks[0].size
  }

  predicate GrowsInPlace(p: Pool, at: nat, originalSize: nat, size: nat)
    requires originalSize <= size
  {
    IsLast(p, at, originalSize) && Wrap64(p.chunks[0].size + (size - originalSize)) <= p.chunks[0].capacity
  }

  function ReallocStep(p: Pool, at: Option<nat>, originalSize: nat, newSize: nat, granted: Option<nat>): Allocated {
    if at.None? then MallocStep(p, newSize, granted)
    else if newSize == 0 then Allocated(p, None)
    else
      var o, n := Align(originalSize), Align(newSize);
      if o >= n then Allocated(p, at)
      else if GrowsInPlace(p, at.value, o, n) then
        var c := p.chunks[0];
        Allocated(p.(chunks := p.chunks[0 := c.(size := Wrap64(c.size + (n - o)))]), at)
      else MallocStep(p, n, granted)
  }

  // ----- What the pool keeps -----

  predicate ChunkOk(c: Chunk) {
    0 < c.base && c.size <= c.capacity && c.size % 8 == 0 && Data(c) + c.capacity <= TWO64
  }

  /** The regions of two chunks, headers included, do not meet. */
  predicate Apart(c: Chunk, d: Chunk) {
    Data(c) + c.capacity <= d.base || Data(d) + d.capacity <= c.base
  }

  ghost predicate PoolOk(p: Pool) {
    && p.chunkCapacity < TWO64
    && (forall i :: 0 <= i < |p.chunks| ==> ChunkOk(p.chunks[i]))
    && (forall i, j :: 0 <= i < j < |p.chunks| ==> Apart(p.chunks[i], p.chunks[j]))
  }

  /** A block inside the used part of a chunk, at a multiple of 8 from its data. */
  predicate InChunk(c: Chunk, b: Block) {
    Data(c) <= b.at && b.at + b.size <= Data(c) + c.size && (b.at - Data(c)) % 8 == 0
  }

  ghost predicate Inside(p: Pool, b: Block) {
    exists i :: 0 <= i < |p.chunks| && InChunk(p.chunks[i], b)
  }

  predicate Disjoint(a: Block, b: Block) {
    a.at + a.size <= b.at || b.at + b.size <= a.at
  }

  function UsedBytes(cs: seq<Chunk>): nat {
    if cs == [] then 0 else cs[0].size + UsedBytes(cs[1..])
  }

  function BlockBytes(bs: seq<Block>): nat {
    if bs == [] then 0 else BlockBytes(bs[..|bs| - 1]) + bs[|bs| - 1].size
  }

  /** All blocks ever handed out lie inside their chunks and apart from each other, and they are all that is used. */
  ghost predicate Good(p: Pool, bs: seq<Block>) {
    && PoolOk(p)
    && (forall k :: 0 <= k < |bs| ==> bs[k].size > 0 && bs[k].size % 8 == 0 && Inside(p, bs[k]))
    && (forall k, l :: 0 <= k < l < |bs| ==> Disjoint(bs[k], bs[l]))
    && UsedBytes(p.chunks) == BlockBytes(bs)
  }

  /** The base allocator keeps to what it promises: enough room, away from the other chunks. */
  ghost predicate Grants(p: Pool, capacity: nat, granted: Option<nat>) {
    granted.Some? ==>
      && 0 < granted.value && granted.value + Request(capacity) <= TWO64
      && forall i :: 0 <= i < |p.chunks| ==>
           granted.value + Request(capacity) <= p.chunks[i].base || Data(p.chunks[i]) + p.chunks[i].capacity <= granted.value
  }

  /** The sizes Malloc's 64-bit sums do not survive. */
  predicate MallocOverflows(p: Pool, n: nat) {
    || RoundUp(n) >= TWO64
    || (p.chunks != [] && p.chunks[0].size + RoundUp(n) >= TWO64)
    || ((p.chunks == [] || p.chunks[0].size + RoundUp(n) > p.chunks[0].capacity) && HEADER + NewCapacity(p, RoundUp(n)) >= TWO64)
  }

  /** Malloc cuts a block of at least the size asked for, inside its chunk, exactly when none of its sums overflows. */
  lemma MallocIsSound(p: Pool, n: nat, granted: Option<nat>)
    requires PoolOk(p) && 0 < n < TWO64 && Grants(p, NewCapacity(p, Align(n)), granted)
    requires MallocStep(p, n, granted).at.Some?
    ensures var r := MallocStep(p, n, granted);
            PoolOk(r.pool) && Inside(r.pool, Block(r.at.value, n)) <==> !MallocOverflows(p, n)
  {
    hide Align;
    AlignIsRoundUp(n);
    if MallocOverflows(p, n) {
      MallocBreaks(p, n, n, granted);
    } else {
      CutIsSound(p, n, granted);
    }
  }

  /** A request for 2^64 - 1 bytes is rounded up to none, and answered with the address of the next free byte. */
  lemma WrappedMallocExample()
    ensures var p, n := Pool([Chunk(4096, 65536, 0)], 65536), TWO64 - 1;
            && PoolOk(p) && MallocOverflows(p, n)
            && MallocStep(p, n, None) == Allocated(p, Some(4120)) && !Inside(p, Block(4120, n))
  {
    var p, n := Pool([Chunk(4096, 65536, 0)], 65536), TWO64 - 1;
    AlignIsRoundUp(n);
    assert Align(n) == 0 && !NeedsChunk(p, 0);
  }

  /** The head with `more` bytes more of it used. */
  function Grown(p: Pool, more: nat): Pool
    requires p.chunks != []
  {
    p.(chunks := p.chunks[0 := p.chunks[0].(size := p.chunks[0].size + more)])
  }

  lemma GrownIsOk(p: Pool, more: nat)
    requires PoolOk(p) && p.chunks != [] && more % 8 == 0 && p.chunks[0].size + more <= p.chunks[0].capacity
    ensures PoolOk(Grown(p, more))
  {
    var c, d := p.chunks[0], Grown(p, more).chunks[0];
    assert ChunkOk(c);
    forall j | 0 < j < |p.chunks| ensures Apart(d, p.chunks[j]) {
      assert Apart(c, p.chunks[j]);
    }
  }

  lemma AddedIsOk(p: Pool, capacity: nat, base: nat)
    requires PoolOk(p) && HEADER + capacity < TWO64 && Grants(p, capacity, Some(base))
    ensures PoolOk(AddChunk(p, capacity, base))
  {
    var q := AddChunk(p, capacity, base);
    forall i, j | 0 <= i < j < |q.chunks| ensures Apart(q.chunks[i], q.chunks[j]) {
      if i == 0 {
        assert q.chunks[j] == p.chunks[j - 1];
      } else {
        assert Apart(p.chunks[i - 1], p.chunks[j - 1]);
      }
    }
    forall i | 0 <= i < |q.chunks| ensures ChunkOk(q.chunks[i]) {
      if i > 0 {
        assert ChunkOk(p.chunks[i - 1]);
      }
    }
  }

  /** The pool Malloc cuts from: with a new chunk in front where the head is too small. */
  function Prepared(p: Pool, size: nat, base: nat): Pool {
    if NeedsChunk(p, size) then AddChunk(p, NewCapacity(p, size), base) else p
  }

  lemma PreparedHasRoom(p: Pool, size: nat, base: nat)
    requires PoolOk(p) && (NeedsChunk(p, size) ==> HEADER + NewCapacity(p, size) < TWO64 && Grants(p, NewCapacity(p, size), Some(base)))
    requires p.chunks != [] ==> p.chunks[0].size + size < TWO64
    ensures var q := Prepared(p, size, base); PoolOk(q) && q.chunks != [] && q.chunks[0].size + size <= q.chunks[0].capacity
  {
    hide PoolOk, Grants;
    if p.chunks != [] {
      SizeIsAligned(p);
    }
    if NeedsChunk(p, size) {
      AddedIsOk(p, NewCapacity(p, size), base);
    }
  }

  lemma CutIsGrown(p: Pool, size: nat)
    requires PoolOk(p) && p.chunks != [] && p.chunks[0].size + size <= p.chunks[0].capacity
    ensures Cut(p, size) == Allocated(Grown(p, size), Some(Data(p.chunks[0]) + p.chunks[0].size))
  {
    SizeIsAligned(p);
  }

  /** Without overflow, Malloc is a cut from a pool with room for it. */
  lemma MallocIsCut(p: Pool, n: nat, granted: Option<nat>)
    requires PoolOk(p) && 0 < n < TWO64 && !MallocOverflows(p, n)
    requires Grants(p, NewCapacity(p, RoundUp(n)), granted) && MallocStep(p, n, granted).at.Some?
    ensures var r := MallocStep(p, n, granted);
            var size := RoundUp(n);
            var q := Prepared(p, size, if granted.Some? then granted.value else 1);
            && Align(n) == size && PoolOk(q) && q.chunks != [] && q.chunks[0].size + size <= q.chunks[0].capacity
            && r.pool == Grown(q, size) && r.at == Some(Data(q.chunks[0]) + q.chunks[0].size)
  {
    hide Align, RoundUp, PoolOk, Grants, Grown, Cut, AddChunk, NewCapacity, Data;
    AlignIsRoundUp(n);
    var size, base := RoundUp(n), if granted.Some? then granted.value else 1;
    if p.chunks != [] {
      SizeIsAligned(p);
    }
    PreparedHasRoom(p, size, base);
    CutIsGrown(Prepared(p, size, base), size);
  }

  lemma CutIsSound(p: Pool, n: nat, granted: Option<nat>)
    requires PoolOk(p) && 0 < n < TWO64 && !MallocOverflows(p, n)
    requires Grants(p, NewCapacity(p, RoundUp(n)), granted) && MallocStep(p, n, granted).at.Some?
    ensures var r := MallocStep(p, n, granted);
            && PoolOk(r.pool) && Inside(r.pool, Block(r.at.value, RoundUp(n))) && Inside(r.pool, Block(r.at.value, n))
  {
    hide Align, MallocStep, MallocOverflows, PoolOk;
    MallocIsCut(p, n, granted);
    var r := MallocStep(p, n, granted);
    var q := Prepared(p, RoundUp(n), if granted.Some? then granted.value else 1);
    GrownIsOk(q, RoundUp(n));
    SizeIsAligned(q);
    assert InChunk(r.pool.chunks[0], Block(r.at.value, RoundUp(n)));
    assert InChunk(r.pool.chunks[0], Block(r.at.value, n));
  }

  lemma SizeIsAligned(p: Pool)
    requires PoolOk(p) && p.chunks != []
    ensures ChunkOk(p.chunks[0])
  {
  }

  lemma InsideEnds(p: Pool, b: Block)
    requires PoolOk(p) && Inside(p, b)
    ensures b.at + b.size <= TWO64
  {
    var i :| 0 <= i < |p.chunks| && InChunk(p.chunks[i], b);
    assert ChunkOk(p.chunks[i]);
  }

  lemma MallocBreaks(p: Pool, n: nat, asked: nat, granted: Option<nat>)
    requires PoolOk(p) && 0 < n < TWO64 && MallocOverflows(p, n) && RoundUp(asked) == RoundUp(n)
    requires Grants(p, NewCapacity(p, Align(n)), granted) && MallocStep(p, n, granted).at.Some?
    ensures var r := MallocStep(p, n, granted); !(PoolOk(r.pool) && Inside(r.pool, Block(r.at.value, asked)))
  {
    hide Align, Inside;
    AlignIsRoundUp(n);
    var r := MallocStep(p, n, granted);
    if PoolOk(r.pool) && Inside(r.pool, Block(r.at.value, asked)) {
      InsideEnds(r.pool, Block(r.at.value, asked));
      SizeIsAligned(r.pool);
      if p.chunks != [] {
        SizeIsAligned(p);
      }
    }
  }

  // ----- Blocks over a run -----

  lemma {:induction false} UsedMore(cs: seq<Chunk>, size: nat)
    requires cs != [] && cs[0].size <= size
    ensures UsedBytes(cs[0 := cs[0].(size := size)]) == UsedBytes(cs) + (size - cs[0].size)
  {
    assert cs[0 := cs[0].(size := size)][1..] == cs[1..];
  }

  lemma BytesMore(bs: seq<Block>, b: Block)
    ensures BlockBytes(bs + [b]) == BlockBytes(bs) + b.size
  {
    assert (bs + [b])[..|bs|] == bs;
  }

  lemma {:induction false} BytesGrown(bs: seq<Block>, k: nat, b: Block)
    requires k < |bs|
    ensures BlockBytes(bs[k := b]) == BlockBytes(bs) - bs[k].size + b.size
    decreases |bs|
  {
    var n := |bs| - 1;
    if k == n {
      assert bs[k := b][..n] == bs[..n];
    } else {
      BytesGrown(bs[..n], k, b);
      assert bs[k := b][..n] == bs[..n][k := b];
    }
  }

  lemma InsideAdded(p: Pool, capacity: nat, base: nat, b: Block)
    requires Inside(p, b)
    ensures Inside(AddChunk(p, capacity, base), b)
  {
    var i :| 0 <= i < |p.chunks| && InChunk(p.chunks[i], b);
    assert InChunk(AddChunk(p, capacity, base).chunks[i + 1], b);
  }

  lemma InsideGrown(p: Pool, more: nat, b: Block)
    requires p.chunks != [] && Inside(p, b)
    ensures Inside(Grown(p, more), b)
  {
    var i :| 0 <= i < |p.chunks| && InChunk(p.chunks[i], b);
    assert InChunk(Grown(p, more).chunks[i], b);
  }

  /** What lies inside the pool lies apart from the unused rest of the head. */
  lemma InsideIsBelow(p: Pool, b: Block, more: nat)
    requires PoolOk(p) && p.chunks != [] && Inside(p, b) && p.chunks[0].size + more <= p.chunks[0].capacity
    ensures Disjoint(b, Block(Data(p.chunks[0]) + p.chunks[0].size, more))
  {
    var i :| 0 <= i < |p.chunks| && InChunk(p.chunks[i], b);
    assert ChunkOk(p.chunks[i]) && ChunkOk(p.chunks[0]);
    if i > 0 {
      assert Apart(p.chunks[0], p.chunks[i]);
    }
  }

  lemma GoodAdded(p: Pool, bs: seq<Block>, capacity: nat, base: nat)
    requires Good(p, bs) && HEADER + capacity < TWO64 && Grants(p, capacity, Some(base))
    ensures Good(AddChunk(p, capacity, base), bs)
  {
    AddedIsOk(p, capacity, base);
    forall k | 0 <= k < |bs| ensures Inside(AddChunk(p, capacity, base), bs[k]) {
      InsideAdded(p, capacity, base, bs[k]);
    }
    assert AddChunk(p, capacity, base).chunks[1..] == p.chunks;
  }

  /** A cut from the head is a block of its own. */
  lemma GoodCut(p: Pool, bs: seq<Block>, size: nat)
    requires Good(p, bs) && p.chunks != [] && 0 < size && size % 8 == 0 && p.chunks[0].size + size <= p.chunks[0].capacity
    ensures Good(Grown(p, size), bs + [Block(Data(p.chunks[0]) + p.chunks[0].size, size)])
  {
    hide PoolOk, Inside, UsedBytes, BlockBytes, Grown;
    var b := Block(Data(p.chunks[0]) + p.chunks[0].size, size);
    var bs' := bs + [b];
    GrownIsOk(p, size);
    SizeIsAligned(p);
    HeadGrown(p, size, b);
    forall k | 0 <= k < |bs'| ensures bs'[k].size > 0 && bs'[k].size % 8 == 0 && Inside(Grown(p, size), bs'[k]) {
      if k < |bs| {
        InsideGrown(p, size, bs[k]);
      }
    }
    forall k, l | 0 <= k < l < |bs'| ensures Disjoint(bs'[k], bs'[l]) {
      if l == |bs| {
        InsideIsBelow(p, bs[k], size);
      }
    }
    UsedMore(p.chunks, p.chunks[0].size + size);
    BytesMore(bs, b);
  }

  /** After Malloc the new block has joined the others, which are where they were. */
  lemma MallocKeeps(p: Pool, bs: seq<Block>, n: nat, granted: Option<nat>)
    requires Good(p, bs) && n < TWO64 && Grants(p, NewCapacity(p, Align(n)), granted) && (n > 0 ==> !MallocOverflows(p, n))
    ensures var r := MallocStep(p, n, granted);
            && (n == 0 ==> r.at.None?)
            && Good(r.pool, if r.at.None? then bs else bs + [Block(r.at.value, RoundUp(n))])
            && (r.at.None? ==> r.pool == p)
  {
    hide Align, RoundUp, Good, PoolOk, MallocOverflows, Grown, Grants, MallocStep;
    NoBlock(p, n, granted);
    GoodIsOk(p, bs);
    if n > 0 && MallocStep(p, n, granted).at.Some? {
      AlignIsRoundUp(n);
      RoundsInRange(p, n);
      MallocIsCut(p, n, granted);
      var size := RoundUp(n);
      GoodPrepared(p, bs, n, granted);
      GoodCut(Prepared(p, size, if granted.Some? then granted.value else 1), bs, size);
    }
  }

  lemma GoodIsOk(p: Pool, bs: seq<Block>)
    requires Good(p, bs)
    ensures PoolOk(p)
  {
  }

  lemma RoundsInRange(p: Pool, n: nat)
    requires 0 < n < TWO64 && !MallocOverflows(p, n)
    ensures Align(n) == RoundUp(n) && 0 < RoundUp(n)
  {
    AlignIsRoundUp(n);
  }

  lemma NoBlock(p: Pool, n: nat, granted: Option<nat>)
    ensures MallocStep(p, n, granted).at.None? ==> MallocStep(p, n, granted).pool == p
    ensures n == 0 ==> MallocStep(p, n, granted).at.None?
  {
    hide Align;
  }

  lemma GoodPrepared(p: Pool, bs: seq<Block>, n: nat, granted: Option<nat>)
    requires Good(p, bs) && 0 < n < TWO64 && !MallocOverflows(p, n) && Align(n) == RoundUp(n)
    requires Grants(p, NewCapacity(p, RoundUp(n)), granted) && MallocStep(p, n, granted).at.Some?
    ensures Good(Prepared(p, RoundUp(n), if granted.Some? then granted.value else 1), bs)
  {
    hide Good, Align, RoundUp, Grants;
    GoodIsOk(p, bs);
    if p.chunks != [] {
      SizeIsAligned(p);
    }
    if NeedsChunk(p, RoundUp(n)) {
      GoodAdded(p, bs, NewCapacity(p, RoundUp(n)), granted.value);
    }
  }

  /** The newest block, and only the newest, ends where the head's used part ends. */
  lemma LastIsWhole(p: Pool, b: Block, originalSize: nat)
    requires PoolOk(p) && Inside(p, b) && 0 < b.size && originalSize <= b.size && IsLast(p, b.at, originalSize)
    ensures originalSize == b.size && InChunk(p.chunks[0], b)
  {
    var i :| 0 <= i < |p.chunks| && InChunk(p.chunks[i], b);
    assert ChunkOk(p.chunks[i]) && ChunkOk(p.chunks[0]);
    assert i == 0 || Apart(p.chunks[0], p.chunks[i]);
  }

  lemma HeadGrown(p: Pool, more: nat, b: Block)
    requires p.chunks != [] && InChunk(p.chunks[0].(size := p.chunks[0].size + more), b)
    ensures Inside(Grown(p, more), b)
    ensures Grown(p, more).chunks == p.chunks[0 := p.chunks[0].(size := p.chunks[0].size + more)]
  {
    assert InChunk(Grown(p, more).chunks[0], b);
  }

  lemma GrownApart(p: Pool, bs: seq<Block>, k: nat, size: nat, l: nat)
    requires Good(p, bs) && k < |bs| && l < |bs| && l != k && IsLast(p, bs[k].at, bs[k].size)
    requires bs[k].size < size && p.chunks[0].size + (size - bs[k].size) <= p.chunks[0].capacity
    ensures Disjoint(bs[l], Block(bs[k].at, size)) && Disjoint(Block(bs[k].at, size), bs[l])
  {
    hide UsedBytes, BlockBytes, PoolOk, Inside;
    InsideIsBelow(p, bs[l], size - bs[k].size);
    if l < k {
      assert Disjoint(bs[l], bs[k]);
    } else {
      assert Disjoint(bs[k], bs[l]);
    }
  }

  /** Growing the newest block in place keeps it apart from all the others. */
  lemma GoodGrown(p: Pool, bs: seq<Block>, k: nat, size: nat)
    requires Good(p, bs) && k < |bs| && IsLast(p, bs[k].at, bs[k].size) && InChunk(p.chunks[0], bs[k])
    requires bs[k].size < size && (size - bs[k].size) % 8 == 0 && p.chunks[0].size + (size - bs[k].size) <= p.chunks[0].capacity
    ensures Good(Grown(p, size - bs[k].size), bs[k := Block(bs[k].at, size)])
  {
    hide PoolOk, Inside, UsedBytes, BlockBytes, Grown;
    var more := size - bs[k].size;
    var b := Block(bs[k].at, size);
    var bs' := bs[k := b];
    HeadGrown(p, more, b);
    GrownIsOk(p, more);
    forall l | 0 <= l < |bs'| ensures bs'[l].size > 0 && bs'[l].size % 8 == 0 && Inside(Grown(p, more), bs'[l]) {
      if l != k {
        InsideGrown(p, more, bs[l]);
      }
    }
    forall l | 0 <= l < |bs| && l != k ensures Disjoint(bs[l], b) && Disjoint(b, bs[l]) {
      GrownApart(p, bs, k, size, l);
    }
    forall l, m | 0 <= l < m < |bs'| ensures Disjoint(bs'[l], bs'[m]) {
      assert l != k && m != k ==> Disjoint(bs[l], bs[m]);
    }
    UsedMore(p.chunks, p.chunks[0].size + more);
    BytesGrown(bs, k, b);
  }

  // ----- Realloc -----

  /** The sizes Realloc's 64-bit sums do not survive. */
  predicate ReallocOverflows(p: Pool, at: nat, originalSize: nat, newSize: nat) {
    var o, n := RoundUp(originalSize), RoundUp(newSize);
    || n >= TWO64
    || (o < n && IsLast(p, at, o) && p.chunks[0].size + (n - o) >= TWO64)
    || (o < n && !GrowsInPlace(p, at, o, n) && MallocOverflows(p, n))
  }

  /** The caller's block, with no more said about its size than is true, and what the base allocator would give. */
  ghost predicate MayRealloc(p: Pool, bs: seq<Block>, k: nat, originalSize: nat, newSize: nat, granted: Option<nat>) {
    k < |bs| && originalSize <= bs[k].size && newSize < TWO64 && Grants(p, NewCapacity(p, Align(newSize)), granted)
  }

  lemma StatedSize(p: Pool, bs: seq<Block>, k: nat, originalSize: nat)
    requires Good(p, bs) && k < |bs| && originalSize <= bs[k].size
    ensures Align(originalSize) == RoundUp(originalSize) <= bs[k].size < TWO64
    ensures IsLast(p, bs[k].at, RoundUp(originalSize)) ==> RoundUp(originalSize) == bs[k].size && InChunk(p.chunks[0], bs[k])
    ensures bs[k].at >= HEADER && Inside(p, bs[k])
  {
    hide Good, PoolOk, Align, RoundUp, IsLast;
    SizesOk(p, bs);
    InsideEnds(p, bs[k]);
    InsideStarts(p, bs[k]);
    RoundUnder(originalSize, bs[k].size);
    AlignIsRoundUp(originalSize);
    if IsLast(p, bs[k].at, RoundUp(originalSize)) {
      LastIsWhole(p, bs[k], RoundUp(originalSize));
    }
  }

  lemma InsideStarts(p: Pool, b: Block)
    requires PoolOk(p) && Inside(p, b) && 0 < b.size
    ensures HEADER <= b.at && b.size < TWO64
  {
    var i :| 0 <= i < |p.chunks| && InChunk(p.chunks[i], b);
    assert ChunkOk(p.chunks[i]);
  }

  lemma RoundUnder(n: nat, m: nat)
    requires n <= m && m % 8 == 0
    ensures RoundUp(n) <= m
  {
  }

  /** The blocks after Realloc: the old one as it was, or grown where it is, or joined by its successor. */
  function BlocksAfter(bs: seq<Block>, k: nat, newSize: nat, at: Option<nat>): seq<Block>
    requires k < |bs|
  {
    if at.None? then bs
    else if at.value != bs[k].at then bs + [Block(at.value, RoundUp(newSize))]
    else if RoundUp(newSize) > bs[k].size then bs[k := Block(at.value, RoundUp(newSize))]
    else bs
  }

  lemma InsideSmaller(p: Pool, b: Block, n: nat)
    requires Inside(p, b) && n <= b.size
    ensures Inside(p, Block(b.at, n))
  {
    var i :| 0 <= i < |p.chunks| && InChunk(p.chunks[i], b);
    assert InChunk(p.chunks[i], Block(b.at, n));
  }

  /** Realloc keeps all blocks apart and inside their chunks, and gives at least the size asked for. */
  lemma ReallocKeeps(p: Pool, bs: seq<Block>, k: nat, originalSize: nat, newSize: nat, granted: Option<nat>)
    requires Good(p, bs) && MayRealloc(p, bs, k, originalSize, newSize, granted)
    requires newSize > 0 ==> !ReallocOverflows(p, bs[k].at, originalSize, newSize)
    ensures var r := ReallocStep(p, Some(bs[k].at), originalSize, newSize, granted);
            && Good(r.pool, BlocksAfter(bs, k, newSize, r.at))
            && (r.at.Some? ==> newSize > 0 && Inside(r.pool, Block(r.at.value, newSize)))
            && (r.at.Some? && r.at.value != bs[k].at ==> Disjoint(bs[k], Block(r.at.value, RoundUp(newSize))))
  {
    hide Align, RoundUp, Good, MallocStep, MallocOverflows, Grants, PoolOk, Inside;
    var r := ReallocStep(p, Some(bs[k].at), originalSize, newSize, granted);
    if newSize > 0 {
      StatedSize(p, bs, k, originalSize);
      AlignIsRoundUp(newSize);
      var o, n := RoundUp(originalSize), RoundUp(newSize);
      if o >= n {
        InsideSmaller(p, bs[k], newSize);
      } else if GrowsInPlace(p, bs[k].at, o, n) {
        InPlaceKeeps(p, bs, k, newSize);
      } else {
        MovedKeeps(p, bs, k, newSize, granted);
      }
    }
  }

  lemma InPlaceKeeps(p: Pool, bs: seq<Block>, k: nat, newSize: nat)
    requires Good(p, bs) && k < |bs| && IsLast(p, bs[k].at, bs[k].size) && InChunk(p.chunks[0], bs[k])
    requires bs[k].size < RoundUp(newSize) && GrowsInPlace(p, bs[k].at, bs[k].size, RoundUp(newSize))
    requires p.chunks[0].size + (RoundUp(newSize) - bs[k].size) < TWO64
    ensures Good(Grown(p, RoundUp(newSize) - bs[k].size), bs[k := Block(bs[k].at, RoundUp(newSize))])
    ensures Inside(Grown(p, RoundUp(newSize) - bs[k].size), Block(bs[k].at, newSize))
  {
    hide Good;
    SizesOk(p, bs);
    GoodGrown(p, bs, k, RoundUp(newSize));
    assert InChunk(Grown(p, RoundUp(newSize) - bs[k].size).chunks[0], Block(bs[k].at, newSize));
  }

  lemma SizesOk(p: Pool, bs: seq<Block>)
    requires Good(p, bs)
    ensures PoolOk(p)
    ensures forall k :: 0 <= k < |bs| ==> 0 < bs[k].size && bs[k].size % 8 == 0 && Inside(p, bs[k])
  {
  }

  lemma MovedKeeps(p: Pool, bs: seq<Block>, k: nat, newSize: nat, granted: Option<nat>)
    requires Good(p, bs) && k < |bs| && 0 < newSize < TWO64 && RoundUp(newSize) < TWO64
    requires Grants(p, NewCapacity(p, Align(newSize)), granted) && !MallocOverflows(p, RoundUp(newSize))
    ensures var r := MallocStep(p, RoundUp(newSize), granted);
            && Good(r.pool, BlocksAfter(bs, k, newSize, r.at))
            && (r.at.Some? ==> r.at.value != bs[k].at && Inside(r.pool, Block(r.at.value, newSize)))
            && (r.at.Some? ==> Disjoint(bs[k], Block(r.at.value, RoundUp(newSize))))
  {
    hide Align, MallocStep, MallocOverflows, PoolOk, Inside, RoundUp;
    var n := RoundUp(newSize);
    RoundTwice(newSize);
    AlignIsRoundUp(n);
    AlignIsRoundUp(newSize);
    SizesOk(p, bs);
    MallocKeeps(p, bs, n, granted);
    var r := MallocStep(p, n, granted);
    if r.at.Some? {
      var b := Block(r.at.value, n);
      assert (bs + [b])[|bs|] == b && (bs + [b])[k] == bs[k];
      InsideSmaller(r.pool, b, newSize);
    }
  }

  lemma RoundTwice(n: nat)
    ensures RoundUp(RoundUp(n)) == RoundUp(n) && RoundUp(n) < n + 8 && n <= RoundUp(n) && (0 < n ==> 0 < RoundUp(n))
  {
  }

  /** Realloc gives at least the size asked for, inside a chunk, exactly when none of its sums overflows. */
  lemma ReallocIsSound(p: Pool, bs: seq<Block>, k: nat, originalSize: nat, newSize: nat, granted: Option<nat>)
    requires Good(p, bs) && MayRealloc(p, bs, k, originalSize, newSize, granted)
    requires ReallocStep(p, Some(bs[k].at), originalSize, newSize, granted).at.Some?
    ensures var r := ReallocStep(p, Some(bs[k].at), originalSize, newSize, granted);
            PoolOk(r.pool) && Inside(r.pool, Block(r.at.value, newSize)) <==> !ReallocOverflows(p, bs[k].at, originalSize, newSize)
  {
    hide Align, RoundUp, Good, MallocStep, MallocOverflows, Grants, PoolOk, Inside;
    var at := bs[k].at;
    var r := ReallocStep(p, Some(at), originalSize, newSize, granted);
    if !ReallocOverflows(p, at, originalSize, newSize) {
      ReallocKeeps(p, bs, k, originalSize, newSize, granted);
      GoodIsOk(r.pool, BlocksAfter(bs, k, newSize, r.at));
    } else {
      StatedSize(p, bs, k, originalSize);
      AlignIsRoundUp(newSize);
      RoundTwice(newSize);
      GoodIsOk(p, bs);
      if p.chunks != [] {
        SizeIsAligned(p);
      }
      var o, n := RoundUp(originalSize), RoundUp(newSize);
      if n < TWO64 && !GrowsInPlace(p, at, o, n) && o < n && MallocOverflows(p, n) {
        AlignIsRoundUp(n);
        MallocBreaks(p, n, newSize, granted);
      } else if PoolOk(r.pool) && Inside(r.pool, Block(r.at.value, newSize)) {
        InsideEnds(r.pool, Block(r.at.value, newSize));
      }
    }
  }

  /** A block of 16 bytes passes for one of 2^64 - 1, because that size is rounded up to none. */
  lemma WrappedReallocExample()
    ensures var p, bs, n := Pool([Chunk(4096, 65536, 16)], 65536), [Block(4120, 16)], TWO64 - 1;
            && Good(p, bs) && MayRealloc(p, bs, 0, 16, n, None) && ReallocOverflows(p, 4120, 16, n)
            && ReallocStep(p, Some(4120), 16, n, None) == Allocated(p, Some(4120)) && !Inside(p, Block(4120, n))
  {
    var p, bs, n := Pool([Chunk(4096, 65536, 16)], 65536), [Block(4120, 16)], TWO64 - 1;
    AlignIsRoundUp(n);
    AlignIsRoundUp(16);
    assert InChunk(p.chunks[0], bs[0]);
    assert p.chunks[1..] == [] && bs[..0] == [];
  }

  // ----- When there is an answer -----

  /** The newest chunk, if any, has room for `n` bytes. */
  predicate HeadHolds(p: Pool, n: nat) {
    p.chunks != [] && p.chunks[0].size + n <= p.chunks[0].capacity
  }

  /**
   * Malloc fails exactly when the newest chunk is too small and the base allocator gives nothing; otherwise the block
   * is the next one of that chunk, or the first of a new chunk that holds at least the pool's chunk size.
   */
  lemma MallocAnswers(p: Pool, n: nat, granted: Option<nat>)
    requires PoolOk(p) && 0 < n < TWO64 && !MallocOverflows(p, n)
    ensures var r, size := MallocStep(p, n, granted), (n + 7) / 8 * 8;
            && (r.at.None? <==> !HeadHolds(p, size) && granted.None?)
            && (r.at.None? ==> r.pool == p)
            && (HeadHolds(p, size) ==> r.at == Some(p.chunks[0].base + 24 + p.chunks[0].size) && |r.pool.chunks| == |p.chunks|)
            && (!HeadHolds(p, size) && granted.Some? ==>
                  && r.at == Some(granted.value + 24) && |r.pool.chunks| == |p.chunks| + 1 && r.pool.chunks[1..] == p.chunks
                  && r.pool.chunks[0] == Chunk(granted.value, if p.chunkCapacity > size then p.chunkCapacity else size, size))
  {
    AlignIsRoundUp(n);
    if p.chunks != [] {
      assert ChunkOk(p.chunks[0]);
    }
  }

  /** Realloc keeps the address of a block that need not grow, or that is the newest and fits; else it is Malloc's answer. */
  lemma ReallocAnswers(p: Pool, bs: seq<Block>, k: nat, originalSize: nat, newSize: nat, granted: Option<nat>)
    requires Good(p, bs) && MayRealloc(p, bs, k, originalSize, newSize, granted)
    requires 0 < newSize && !ReallocOverflows(p, bs[k].at, originalSize, newSize)
    ensures var r, o, n := ReallocStep(p, Some(bs[k].at), originalSize, newSize, granted), (originalSize + 7) / 8 * 8, (newSize + 7) / 8 * 8;
            && (n <= o ==> r == Allocated(p, Some(bs[k].at)))
            && (n > o && IsLast(p, bs[k].at, o) && HeadHolds(p, n - o) ==> r.at == Some(bs[k].at))
            && (n > o && !(IsLast(p, bs[k].at, o) && HeadHolds(p, n - o)) ==> r == MallocStep(p, n, granted))
  {
    hide Good, MallocStep, MallocOverflows, Grants, PoolOk, Align, RoundUp, Wrap64;
    StatedSize(p, bs, k, originalSize);
    AlignIsRoundUp(newSize);
    RoundUpIs(originalSize);
    RoundUpIs(newSize);
    var o, n := RoundUp(originalSize), RoundUp(newSize);
    if n > o && IsLast(p, bs[k].at, o) {
      NoWrap64(p.chunks[0].size + (n - o));
    }
  }

  lemma RoundUpIs(n: nat)
    ensures RoundUp(n) == (n + 7) / 8 * 8
  {
  }

  // ----- Runs -----

  datatype State = State(pool: Pool, blocks: seq<Block>)

  datatype Call =
    | MallocCall(size: nat, granted: Option<nat>)
    | ReallocCall(block: nat, originalSize: nat, newSize: nat, granted: Option<nat>)

  /** What the caller and the base allocator owe, and no overflow. */
  ghost predicate Admissible(s: State, c: Call) {
    match c
    case MallocCall(n, g) => n < TWO64 && Grants(s.pool, NewCapacity(s.pool, Align(n)), g) && (n > 0 ==> !MallocOverflows(s.pool, n))
    case ReallocCall(k, o, n, g) =>
      MayRealloc(s.pool, s.blocks, k, o, n, g) && (n > 0 ==> !ReallocOverflows(s.pool, s.blocks[k].at, o, n))
  }

  ghost function Apply(s: State, c: Call): State
    requires Admissible(s, c)
  {
    match c
    case MallocCall(n, g) =>
      var r := MallocStep(s.pool, n, g);
      State(r.pool, if r.at.None? then s.blocks else s.blocks + [Block(r.at.value, RoundUp(n))])
    case ReallocCall(k, o, n, g) =>
      var r := ReallocStep(s.pool, Some(s.blocks[k].at), o, n, g);
      State(r.pool, BlocksAfter(s.blocks, k, n, r.at))
  }

  ghost predicate IsRun(s: State, calls: seq<Call>, s': State)
    decreases |calls|
  {
    if calls == [] then s' == s else Admissible(s, calls[0]) && IsRun(Apply(s, calls[0]), calls[1..], s')
  }

  /** Over every run of Malloc and Realloc, all blocks stay inside their chunks, apart, and all that is used. */
  lemma {:induction false} RunKeeps(s: State, calls: seq<Call>, s': State)
    requires Good(s.pool, s.blocks) && IsRun(s, calls, s')
    ensures Good(s'.pool, s'.blocks)
    decreases |calls|
  {
    hide Good, MallocOverflows, ReallocOverflows, MayRealloc, Grants, MallocStep, ReallocStep;
    if calls != [] {
      var c := calls[0];
      if c.MallocCall? {
        MallocKeeps(s.pool, s.blocks, c.size, c.granted);
      } else {
        ReallocKeeps(s.pool, s.blocks, c.block, c.originalSize, c.newSize, c.granted);
      }
      RunKeeps(Apply(s, calls[0]), calls[1..], s');
    }
  }

  /** Blocks are aligned where the chunks are. */
  lemma BlocksAligned(p: Pool, bs: seq<Block>)
    requires Good(p, bs) && forall i :: 0 <= i < |p.chunks| ==> p.chunks[i].base % 8 == 0
    ensures forall k :: 0 <= k < |bs| ==> bs[k].at % 8 == 0
  {
    hide PoolOk, InChunk, UsedBytes, BlockBytes, Disjoint;
    forall k | 0 <= k < |bs| ensures bs[k].at % 8 == 0 {
      var i :| 0 <= i < |p.chunks| && InChunk(p.chunks[i], bs[k]);
      BlockAligned(p.chunks[i], bs[k]);
    }
  }

  lemma BlockAligned(c: Chunk, b: Block)
    requires InChunk(c, b) && c.base % 8 == 0
    ensures b.at % 8 == 0
  {
    var q := (b.at - Data(c)) / 8;
    assert b.at == 8 * (c.base / 8 + 3 + q);
  }

  // ----- The allocator -----

  function CapacityBytes(cs: seq<Chunk>): nat {
    if cs == [] then 0 else cs[0].capacity + CapacityBytes(cs[1..])
  }

  /** What Clear leaves: the user's buffer, unused, if there is one. */
  function Cleared(cs: seq<Chunk>, userBuffer: Option<nat>): seq<Chunk> {
    if cs == [] then []
    else if Some(cs[0].base) == userBuffer then [cs[0].(size := 0)] + cs[1..]
    else Cleared(cs[1..], userBuffer)
  }

  /** Only the oldest chunk can be the user's buffer. */
  predicate BufferLast(cs: seq<Chunk>, userBuffer: Option<nat>) {
    forall i :: 0 <= i < |cs| - 1 ==> Some(cs[i].base) != userBuffer
  }

  /** After Clear nothing is used, and blocks can be handed out again. */
  lemma {:induction false} ClearedIsGood(p: Pool, userBuffer: Option<nat>)
    requires PoolOk(p) && BufferLast(p.chunks, userBuffer)
    ensures Good(p.(chunks := Cleared(p.chunks, userBuffer)), [])
    decreases |p.chunks|
  {
    if p.chunks != [] {
      var rest := p.(chunks := p.chunks[1..]);
      if Some(p.chunks[0].base) == userBuffer {
        assert ChunkOk(p.chunks[0]);
        assert p.chunks[1..] == [];
      } else {
        assert forall i, j :: 0 <= i < j < |rest.chunks| ==> rest.chunks[i] == p.chunks[i + 1] && rest.chunks[j] == p.chunks[j + 1];
        ClearedIsGood(rest, userBuffer);
      }
    }
  }

  /** The byte at an address; 0 for what was never written. */
  function ByteOf(memory: map<nat, int>, a: nat): int {
    if a in memory then memory[a] else 0
  }

  function Contents(memory: map<nat, int>, at: nat, n: nat): seq<int> {
    seq(n, j requires 0 <= j < n => ByteOf(memory, at + j))
  }

  /** The bytes outside a range are the same. */
  ghost predicate SameOutside(memory: map<nat, int>, memory': map<nat, int>, at: nat, n: nat) {
    forall a: nat :: !(at <= a < at + n) ==> ByteOf(memory', a) == ByteOf(memory, a)
  }

  lemma SameContents(memory: map<nat, int>, memory': map<nat, int>, at: nat, n: nat, b: Block)
    requires SameOutside(memory, memory', at, n) && Disjoint(b, Block(at, n))
    ensures Contents(memory', b.at, b.size) == Contents(memory, b.at, b.size)
  {
    forall j | 0 <= j < b.size ensures Contents(memory', b.at, b.size)[j] == Contents(memory, b.at, b.size)[j] {
      assert n == 0 || !(at <= b.at + j < at + n);
    }
  }

  lemma ContentsPrefix(memory: map<nat, int>, memory': map<nat, int>, at: nat, at': nat, n: nat, k: nat)
    requires Contents(memory', at', n) == Contents(memory, at, n) && k <= n
    ensures Contents(memory', at', k) == Contents(memory, at, k)
  {
    assert Contents(memory', at', k) == Contents(memory', at', n)[..k];
    assert Contents(memory, at, k) == Contents(memory, at, n)[..k];
  }

  lemma ContentsMore(memory: map<nat, int>, at: nat, n: nat, x: int)
    ensures Contents(memory, at, 0) == []
    ensures Contents(memory, at, n + 1) == Contents(memory, at, n) + [ByteOf(memory, at + n)]
    ensures Contents(memory[at + n := x], at, n) == Contents(memory, at, n)
  {
    forall j | 0 <= j < n ensures Contents(memory[at + n := x], at, n)[j] == Contents(memory, at, n)[j] {
      assert ByteOf(memory[at + n := x], at + j) == ByteOf(memory, at + j);
    }
  }

  class MemoryPoolAllocator {
    var chunks: seq<Chunk>
    const chunkCapacity: nat
    const userBuffer: Option<nat>
    var memory: map<nat, int>

    function View(): Pool
      reads this
    {
      Pool(chunks, chunkCapacity)
    }

    constructor (chunkCapacity: nat)
      requires chunkCapacity < TWO64
      ensures View() == Pool([], chunkCapacity) && userBuffer.None? && Good(View(), [])
    {
      this.chunkCapacity := chunkCapacity;
      userBuffer := None;
      chunks, memory := [], map[];
    }

    /** The user's buffer becomes the first chunk. */
    constructor WithBuffer(buffer: nat, size: nat, chunkCapacity: nat)
      requires chunkCapacity < TWO64 && 0 < buffer && HEADER < size && buffer + size <= TWO64
      ensures View() == Pool([Chunk(buffer, size - HEADER, 0)], chunkCapacity) && userBuffer == Some(buffer) && Good(View(), [])
    {
      this.chunkCapacity := chunkCapacity;
      userBuffer := Some(buffer);
      chunks, memory := [Chunk(buffer, size - HEADER, 0)], map[];
    }

    /** Size(): the bytes of all blocks handed out. */
    method Size() returns (size: nat)
      ensures size == UsedBytes(chunks)
    {
      size := 0;
      for i := 0 to |chunks|
        invariant size + UsedBytes(chunks[i..]) == UsedBytes(chunks)
      {
        assert chunks[i..][0] == chunks[i] && chunks[i..][1..] == chunks[i + 1..];
        size := size + chunks[i].size;
      }
    }

    method Capacity() returns (capacity: nat)
      ensures capacity == CapacityBytes(chunks)
    {
      capacity := 0;
      for i := 0 to |chunks|
        invariant capacity + CapacityBytes(chunks[i..]) == CapacityBytes(chunks)
      {
        assert chunks[i..][0] == chunks[i] && chunks[i..][1..] == chunks[i + 1..];
        capacity := capacity + chunks[i].capacity;
      }
    }

    method Clear()
      modifies this`chunks
      ensures chunks == Cleared(old(chunks), userBuffer)
    {
      while chunks != [] && Some(chunks[0].base) != userBuffer
        invariant Cleared(chunks, userBuffer) == Cleared(old(chunks), userBuffer)
        decreases |chunks|
      {
        chunks := chunks[1..];
      }
      if chunks != [] && Some(chunks[0].base) == userBuffer {
        chunks := chunks[0 := chunks[0].(size := 0)];
        assert chunks == [chunks[0]] + chunks[1..];
      }
    }

    method AddChunkOf(capacity: nat, granted: Option<nat>) returns (added: bool)
      modifies this`chunks
      ensures added <==> granted.Some?
      ensures View() == if added then AddChunk(old(View()), capacity, granted.value) else old(View())
    {
      added := granted.Some?;
      if added {
        chunks := [Chunk(granted.value, capacity, 0)] + chunks;
      }
    }

    method Malloc(n: nat, granted: Option<nat>) returns (at: Option<nat>)
      requires n < TWO64
      modifies this`chunks
      ensures Allocated(View(), at) == MallocStep(old(View()), n, granted)
    {
      hide Align;
      if n == 0 {
        return None;
      }
      var size := Align(n);
      if chunks == [] || Wrap64(chunks[0].size + size) > chunks[0].capacity {
        var added := AddChunkOf(if chunkCapacity > size then chunkCapacity else size, granted);
        if !added {
          return None;
        }
      }
      at := Some(chunks[0].base + HEADER + chunks[0].size);
      chunks := chunks[0 := chunks[0].(size := Wrap64(chunks[0].size + size))];
    }

    /** Copies bytes up; exact where the two ranges do not meet. */
    method Memcpy(dest: nat, src: nat, n: nat)
      modifies this`memory
      ensures SameOutside(old(memory), memory, dest, n)
      ensures Disjoint(Block(dest, n), Block(src, n)) ==> Contents(memory, dest, n) == Contents(old(memory), src, n)
    {
      hide Contents;
      ContentsMore(memory, dest, 0, 0);
      ContentsMore(memory, src, 0, 0);
      for j := 0 to n
        invariant SameOutside(old(memory), memory, dest, j)
        invariant Disjoint(Block(dest, n), Block(src, n)) ==> Contents(memory, dest, j) == Contents(old(memory), src, j)
      {
        ghost var before := memory;
        memory := memory[dest + j := ByteOf(memory, src + j)];
        ContentsMore(before, dest, j, ByteOf(before, src + j));
        ContentsMore(memory, dest, j, 0);
        ContentsMore(old(memory), src, j, 0);
        if Disjoint(Block(dest, n), Block(src, n)) {
          assert ByteOf(before, src + j) == ByteOf(old(memory), src + j);
        }
      }
    }

    /**
     * Realloc. Where `bs` are the blocks handed out, `at` is block `k` and no sum overflows, the contents survive:
     * all of memory is as it was when the block stays, and the old bytes begin the new block when it moves.
     */
    method Realloc(at: Option<nat>, originalSize: nat, newSize: nat, granted: Option<nat>, ghost bs: seq<Block>, ghost k: nat)
      returns (r: Option<nat>)
      requires originalSize < TWO64 && newSize < TWO64
      modifies this
      ensures Allocated(View(), r) == ReallocStep(old(View()), at, originalSize, newSize, granted)
      ensures at.None? ==> Allocated(View(), r) == MallocStep(old(View()), newSize, granted)
      ensures at.Some? && newSize == 0 ==> r == None && View() == old(View())
      ensures at.Some? && Good(old(View()), bs) && MayRealloc(old(View()), bs, k, originalSize, newSize, granted) && bs[k].at == at.value
              && (newSize > 0 ==> !ReallocOverflows(old(View()), at.value, originalSize, newSize)) && r.Some? ==>
                && Contents(memory, r.value, originalSize) == Contents(old(memory), at.value, originalSize)
                && (forall l :: 0 <= l < |bs| ==> Contents(memory, bs[l].at, bs[l].size) == Contents(old(memory), bs[l].at, bs[l].size))
    {
      hide Align, Good, MallocStep, Grants, ReallocOverflows, RoundUp, Contents, SameOutside;
      if at.None? {
        r := Malloc(newSize, granted);
        return;
      }
      if newSize == 0 {
        return None;
      }
      var o, n := Align(originalSize), Align(newSize);
      if o >= n {
        return at;
      }
      if chunks != [] && at.value + o == chunks[0].base + HEADER + chunks[0].size {
        var increment := n - o;
        if Wrap64(chunks[0].size + increment) <= chunks[0].capacity {
          chunks := chunks[0 := chunks[0].(size := Wrap64(chunks[0].size + increment))];
          return at;
        }
      }
      ghost var p := View();
      AlignIsRoundUp(newSize);
      r := Malloc(n, granted);
      if r.Some? {
        ghost var sound := Good(p, bs) && MayRealloc(p, bs, k, originalSize, newSize, granted) && bs[k].at == at.value
                           && !ReallocOverflows(p, at.value, originalSize, newSize);
        if sound {
          MovedApart(p, bs, k, originalSize, newSize, granted);
        }
        if o > 0 {
          Memcpy(r.value, at.value, o);
        }
        ContentsMore(memory, r.value, 0, 0);
        ContentsMore(old(memory), at.value, 0, 0);
        if sound {
          ContentsPrefix(old(memory), memory, at.value, r.value, o, originalSize);
          forall l | 0 <= l < |bs| ensures Contents(memory, bs[l].at, bs[l].size) == Contents(old(memory), bs[l].at, bs[l].size) {
            SameContents(old(memory), memory, r.value, o, bs[l]);
          }
        }
      }
    }
  }

  /** A block that moves lands apart from every block, its own old place included. */
  lemma MovedApart(p: Pool, bs: seq<Block>, k: nat, originalSize: nat, newSize: nat, granted: Option<nat>)
    requires Good(p, bs) && MayRealloc(p, bs, k, originalSize, newSize, granted) && 0 < newSize
    requires !ReallocOverflows(p, bs[k].at, originalSize, newSize)
    requires var o, n := Align(originalSize), Align(newSize);
             o < n && !GrowsInPlace(p, bs[k].at, o, n) && MallocStep(p, n, granted).at.Some?
    ensures var at := MallocStep(p, Align(newSize), granted).at.value;
            && originalSize <= Align(originalSize) <= bs[k].size && Align(originalSize) < Align(newSize)
            && forall l :: 0 <= l < |bs| ==> Disjoint(bs[l], Block(at, Align(newSize)))
  {
    hide Align, RoundUp, Good, MallocStep, Grants, MallocOverflows;
    StatedSize(p, bs, k, originalSize);
    AlignIsRoundUp(newSize);
    RoundTwice(originalSize);
    RoundTwice(newSize);
    var n := RoundUp(newSize);
    AlignIsRoundUp(n);
    MallocKeeps(p, bs, n, granted);
    var b := Block(MallocStep(p, n, granted).at.value, n);
    AllApart(MallocStep(p, n, granted).pool, bs, b);
  }

  lemma AllApart(p: Pool, bs: seq<Block>, b: Block)
    requires Good(p, bs + [b])
    ensures forall l :: 0 <= l < |bs| ==> Disjoint(bs[l], b)
  {
    forall l | 0 <= l < |bs| ensures Disjoint(bs[l], b) {
      assert (bs + [b])[l] == bs[l] && (bs + [b])[|bs|] == b;
    }
  }
}
