/** The slots handed out to lidars, src/comm/cache_index.cpp. */
module CacheIndexes {
  const SLOTS: nat := 32

  /** An optional slot: what the return code and the reference parameter say together. */
  datatype Slot = NoSlot | Slot(index: nat)

  // ----- The table of slots -----

  /** The two fields: which slot each key has, and which slots are taken. */
  datatype Table = Table(index: map<nat, nat>, used: seq<bool>)

  /** Every key has a slot of its own, marked as taken. */
  ghost predicate TableOk(t: Table) {
    && |t.used| == SLOTS
    && (forall k :: k in t.index ==> t.index[k] < SLOTS && t.used[t.index[k]])
    && forall k, l :: k in t.index && l in t.index && t.index[k] == t.index[l] ==> k == l
  }

  /** A slot that is taken and belongs to no key. */
  ghost predicate Leaked(t: Table, i: nat) {
    i < |t.used| && t.used[i] && !Owned(t.index, i)
  }

  /** Every slot that is taken belongs to a key. */
  ghost predicate Tight(t: Table) {
    forall i: nat :: !Leaked(t, i)
  }

  /** The first slot that is not taken. */
  function FirstFree(used: seq<bool>): (i: nat)
    ensures i <= |used| && (i < |used| ==> !used[i]) && forall j :: 0 <= j < i ==> used[j]
  {
    if used == [] || !used[0] then 0 else 1 + FirstFree(used[1..])
  }

  /** The first free slot goes to the key, whether or not it has one. */
  function Taken(t: Table, handle: nat): Table {
    var i := FirstFree(t.used);
    if i < |t.used| then Table(t.index[handle := i], t.used[i := true]) else t
  }

  /** The key goes, and the slot `i` becomes free. */
  function Released(t: Table, handle: nat, i: nat): Table
    requires i < |t.used|
  {
    Table(t.index - {handle}, t.used[i := false])
  }

  /** The slot of the key becomes free, when it has one. */
  function Reset(t: Table, handle: nat): Table
    requires TableOk(t)
  {
    if handle in t.index then Released(t, handle, t.index[handle]) else t
  }

  /** Taking a slot keeps one slot per key, and leaks one exactly when the key already had one. */
  lemma TakenLeaks(t: Table, handle: nat)
    requires TableOk(t)
    ensures TableOk(Taken(t, handle))
    ensures FirstFree(t.used) < SLOTS && Tight(t) ==> (Tight(Taken(t, handle)) <==> handle !in t.index)
    ensures forall i: nat :: Leaked(t, i) ==> Leaked(Taken(t, handle), i)
  {
    var i, t' := FirstFree(t.used), Taken(t, handle);
    if i < SLOTS {
      OwnersKept(t.index, handle, i);
      forall j: nat | Leaked(t, j) ensures Leaked(t', j) {
        forall k | k in t'.index ensures t'.index[k] != j {
        }
      }
      if handle in t.index {
        NotOwned(t, handle, i);
        assert Leaked(t', t.index[handle]);
      } else if Tight(t) {
        forall j: nat ensures !Leaked(t', j) {
          assert !Leaked(t, j);
        }
      }
    }
  }

  lemma NotOwned(t: Table, handle: nat, i: nat)
    requires TableOk(t) && handle in t.index && i < SLOTS && !t.used[i]
    ensures !Owned(t.index[handle := i], t.index[handle])
  {
    var m := t.index[handle := i];
    forall k | k in m ensures m[k] != t.index[handle] {
    }
  }

  /**
   * Releasing the slot that was read earlier keeps one slot per key exactly when no other key has that slot by now,
   * and leaks one exactly when the key has another slot by now.
   */
  lemma ReleasedLeaks(t: Table, handle: nat, i: nat)
    requires TableOk(t) && i < SLOTS
    ensures TableOk(Released(t, handle, i)) <==> forall k :: k in t.index && k != handle ==> t.index[k] != i
    ensures Tight(t) ==> (Tight(Released(t, handle, i)) <==> handle !in t.index || t.index[handle] == i)
    ensures forall j: nat :: Leaked(t, j) && j != i ==> Leaked(Released(t, handle, i), j)
  {
    var t' := Released(t, handle, i);
    forall k | k in t'.index ensures t'.index[k] == t.index[k] {
    }
    if k :| k in t.index && k != handle && t.index[k] == i {
      assert k in t'.index && !t'.used[t'.index[k]];
    }
    forall j: nat ensures Owned(t'.index, j) <==> Owned(t.index, j) && !(handle in t.index && t.index[handle] == j) {
      if Owned(t.index, j) {
        var k :| k in t.index && t.index[k] == j;
        if k != handle {
          assert k in t'.index && t'.index[k] == j;
        }
      }
      if Owned(t'.index, j) {
        var k :| k in t'.index && t'.index[k] == j;
        assert k in t.index && t.index[k] == j && k != handle;
      }
    }
    if Tight(t) {
      if handle in t.index && t.index[handle] != i {
        assert Leaked(t', t.index[handle]);
      } else {
        forall j: nat ensures !Leaked(t', j) {
          assert !Leaked(t, j);
        }
      }
    }
  }

  // ----- Runs -----

  /** What a caller does to the table, in the order of the lock; searching it changes nothing. */
  datatype Action = Take(handle: nat) | Forget(handle: nat)

  ghost function Done(t: Table, a: Action): (t': Table)
    requires TableOk(t)
    ensures TableOk(t')
  {
    match a
    case Take(h) => TakenLeaks(t, h); Taken(t, h)
    case Forget(h) => if h in t.index then ReleasedLeaks(t, h, t.index[h]); Reset(t, h) else t
  }

  ghost function After(t: Table, actions: seq<Action>): (t': Table)
    requires TableOk(t)
    ensures TableOk(t')
    decreases |actions|
  {
    if actions == [] then t else After(Done(t, actions[0]), actions[1..])
  }

  /** A second slot for a key that has one: its caller looked before another caller took the first. */
  ghost predicate TakesTwice(t: Table, actions: seq<Action>)
    requires TableOk(t)
    decreases |actions|
  {
    actions != [] &&
    ((actions[0].Take? && actions[0].handle in t.index && FirstFree(t.used) < SLOTS) || TakesTwice(Done(t, actions[0]), actions[1..]))
  }

  /** Over every run, in whatever order the callers get the lock, a slot leaks exactly when one key takes two. */
  lemma {:induction false} RunsLeak(t: Table, actions: seq<Action>)
    requires TableOk(t) && Tight(t)
    ensures Tight(After(t, actions)) <==> !TakesTwice(t, actions)
    decreases |actions|
  {
    if actions != [] {
      var t', rest := Done(t, actions[0]), actions[1..];
      match actions[0] {
        case Take(h) =>
          TakenLeaks(t, h);
        case Forget(h) =>
          if h in t.index {
            ReleasedLeaks(t, h, t.index[h]);
          }
      }
      if Tight(t') {
        RunsLeak(t', rest);
      } else {
        var i: nat :| Leaked(t', i);
        LeaksStay(t', rest, i);
      }
    }
  }

  lemma {:induction false} LeaksStay(t: Table, actions: seq<Action>, i: nat)
    requires TableOk(t) && Leaked(t, i)
    ensures Leaked(After(t, actions), i)
    decreases |actions|
  {
    if actions != [] {
      match actions[0] {
        case Take(h) =>
          TakenLeaks(t, h);
        case Forget(h) =>
          if h in t.index {
            ReleasedLeaks(t, h, t.index[h]);
            assert Owned(t.index, t.index[h]);
          }
      }
      LeaksStay(Done(t, actions[0]), actions[1..], i);
    }
  }

  // ----- Runs of callers -----

  /** What a caller of GetFreeIndex does: one critical section to look, and after a miss one to take. */
  datatype Section = Look(caller: nat, handle: nat) | TakeAfterMiss(caller: nat)

  /** The table, and the handles of the callers between their two sections. */
  datatype Callers = Callers(table: Table, waiting: map<nat, nat>)

  function Next(s: Callers, c: Section): Callers {
    match c
    case Look(caller, h) =>
      if caller in s.waiting || h in s.table.index then s else s.(waiting := s.waiting[caller := h])
    case TakeAfterMiss(caller) =>
      if caller !in s.waiting then s else Callers(Taken(s.table, s.waiting[caller]), s.waiting - {caller})
  }

  function Run(t: Table, calls: seq<Section>): Callers
    decreases |calls|
  {
    if calls == [] then Callers(t, map[]) else Next(Run(t, calls[..|calls| - 1]), calls[|calls| - 1])
  }

  ghost predicate Waits(s: Callers, caller: nat, handle: nat) {
    caller in s.waiting && s.waiting[caller] == handle
  }

  /** Section `b` takes a free slot, and its caller has waited for the same handle since before section `a` took one. */
  ghost predicate BothMissed(t: Table, calls: seq<Section>, a: nat, b: nat) {
    && a < b < |calls| && calls[a].TakeAfterMiss? && calls[b].TakeAfterMiss? && calls[a].caller != calls[b].caller
    && FirstFree(Run(t, calls[..b]).table.used) < SLOTS
    && exists h: nat ::
         && Waits(Run(t, calls[..a]), calls[a].caller, h) && Waits(Run(t, calls[..a]), calls[b].caller, h)
         && Waits(Run(t, calls[..b]), calls[b].caller, h)
  }

  lemma {:induction false} RunIsOk(t: Table, calls: seq<Section>)
    requires TableOk(t)
    ensures TableOk(Run(t, calls).table)
    decreases |calls|
  {
    hide TableOk;
    if calls != [] {
      var front, c := calls[..|calls| - 1], calls[|calls| - 1];
      RunIsOk(t, front);
      if c.TakeAfterMiss? && c.caller in Run(t, front).waiting {
        TakenLeaks(Run(t, front).table, Run(t, front).waiting[c.caller]);
      }
    }
  }

  lemma RunNext(t: Table, calls: seq<Section>, n: nat)
    requires n < |calls|
    ensures Run(t, calls[..n + 1]) == Next(Run(t, calls[..n]), calls[n])
  {
    assert calls[..n + 1][..n] == calls[..n];
  }

  /** A handle that got a slot keeps it, and no slot becomes free. */
  lemma {:induction false} KeysStay(t: Table, calls: seq<Section>, a: nat, b: nat)
    requires TableOk(t) && a <= b <= |calls|
    ensures forall h :: h in Run(t, calls[..a]).table.index ==> h in Run(t, calls[..b]).table.index
    ensures FirstFree(Run(t, calls[..b]).table.used) < SLOTS ==> FirstFree(Run(t, calls[..a]).table.used) < SLOTS
    decreases b
  {
    hide TableOk, FirstFree;
    if a < b {
      KeysStay(t, calls, a, b - 1);
      RunNext(t, calls, b - 1);
      RunIsOk(t, calls[..b - 1]);
      NextKeeps(Run(t, calls[..b - 1]), calls[b - 1]);
    }
  }

  lemma NextKeeps(s: Callers, c: Section)
    requires TableOk(s.table)
    ensures forall h :: h in s.table.index ==> h in Next(s, c).table.index
    ensures FirstFree(Next(s, c).table.used) < SLOTS ==> FirstFree(s.table.used) < SLOTS
  {
  }

  /** A caller whose handle has a slot by now has waited since before another caller took it. */
  lemma {:induction false} OvertakenBy(t: Table, calls: seq<Section>, n: nat, caller: nat, h: nat) returns (a: nat)
    requires TableOk(t) && n <= |calls| && Waits(Run(t, calls[..n]), caller, h) && h in Run(t, calls[..n]).table.index
    ensures a < n && calls[a].TakeAfterMiss? && calls[a].caller != caller
    ensures Waits(Run(t, calls[..a]), calls[a].caller, h) && Waits(Run(t, calls[..a]), caller, h)
    decreases n
  {
    hide TableOk, FirstFree;
    if n > 0 {
      RunNext(t, calls, n - 1);
      var s, c := Run(t, calls[..n - 1]), calls[n - 1];
      StillWaits(s, c, caller, h);
      if h in s.table.index {
        a := OvertakenBy(t, calls, n - 1, caller, h);
      } else {
        a := n - 1;
      }
    }
  }

  /** One section: who waits after it for a handle that has a slot waited before, and who gave it the slot is another. */
  lemma StillWaits(s: Callers, c: Section, caller: nat, h: nat)
    requires Waits(Next(s, c), caller, h) && h in Next(s, c).table.index
    ensures Waits(s, caller, h)
    ensures h !in s.table.index ==> c.TakeAfterMiss? && c.caller != caller && Waits(s, c.caller, h)
  {
  }

  lemma SamePair(t: Table, front: seq<Section>, c: Section, a: nat, b: nat)
    requires b < |front|
    ensures BothMissed(t, front + [c], a, b) <==> BothMissed(t, front, a, b)
  {
    var calls := front + [c];
    if a < b {
      assert calls[..a] == front[..a] && calls[..b] == front[..b];
    }
  }

  ghost predicate Takes(s: Callers, c: Section) {
    c.TakeAfterMiss? && c.caller in s.waiting && FirstFree(s.table.used) < SLOTS
  }

  lemma OnlyTakesChange(s: Callers, c: Section)
    requires TableOk(s.table)
    ensures !Takes(s, c) ==> Next(s, c).table == s.table
    ensures Takes(s, c) ==> Next(s, c).table == Taken(s.table, s.waiting[c.caller]) && s.waiting[c.caller] in Next(s, c).table.index
  {
  }

  /** By the time of the second take the handle has a slot. */
  lemma PairTakes(t: Table, calls: seq<Section>, a: nat, b: nat)
    requires TableOk(t) && BothMissed(t, calls, a, b)
    ensures var s := Run(t, calls[..b]); Takes(s, calls[b]) && s.waiting[calls[b].caller] in s.table.index
  {
    hide TableOk, Run, Next, FirstFree;
    RunIsOk(t, calls[..a]);
    KeysStay(t, calls, a, b);
    RunNext(t, calls, a);
    OnlyTakesChange(Run(t, calls[..a]), calls[a]);
    KeysStay(t, calls, a + 1, b);
  }

  /** The last section leaks a slot exactly when its caller and one before it had both missed its handle. */
  lemma LastLeaks(t: Table, front: seq<Section>, c: Section)
    requires TableOk(t) && Tight(Run(t, front).table)
    ensures Tight(Next(Run(t, front), c).table) <==> !exists a: nat :: BothMissed(t, front + [c], a, |front|)
  {
    hide TableOk, Tight, Leaked, Run, BothMissed, Next, Taken, FirstFree;
    var calls, s, n := front + [c], Run(t, front), |front|;
    assert calls[..n] == front && calls[n] == c;
    RunIsOk(t, front);
    OnlyTakesChange(s, c);
    forall a: nat | BothMissed(t, calls, a, n) ensures Takes(s, c) && s.waiting[c.caller] in s.table.index {
      PairTakes(t, calls, a, n);
    }
    if Takes(s, c) {
      var h := s.waiting[c.caller];
      TakenLeaks(s.table, h);
      if h in s.table.index {
        var a := OvertakenBy(t, calls, n, c.caller, h);
        IsPair(t, calls, a, n, h);
      }
    }
  }

  lemma IsPair(t: Table, calls: seq<Section>, a: nat, b: nat, h: nat)
    requires a < b < |calls| && calls[a].TakeAfterMiss? && calls[b].TakeAfterMiss? && calls[a].caller != calls[b].caller
    requires FirstFree(Run(t, calls[..b]).table.used) < SLOTS
    requires Waits(Run(t, calls[..a]), calls[a].caller, h) && Waits(Run(t, calls[..a]), calls[b].caller, h)
    requires Waits(Run(t, calls[..b]), calls[b].caller, h)
    ensures BothMissed(t, calls, a, b)
  {
  }

  lemma NextLeaksOn(s: Callers, c: Section)
    requires TableOk(s.table) && !Tight(s.table)
    ensures !Tight(Next(s, c).table)
  {
    if c.TakeAfterMiss? && c.caller in s.waiting {
      TakenLeaks(s.table, s.waiting[c.caller]);
      var i: nat :| Leaked(s.table, i);
      assert Leaked(Next(s, c).table, i);
    }
  }

  /**
   * Over every interleaving of calls of GetFreeIndex, a slot leaks exactly when two callers both missed one handle
   * before either took a slot for it, and the second still found one.
   */
  lemma {:induction false} CallersLeak(t: Table, calls: seq<Section>)
    requires TableOk(t) && Tight(t)
    ensures Tight(Run(t, calls).table) <==> !exists a: nat, b: nat :: BothMissed(t, calls, a, b)
    decreases |calls|
  {
    hide TableOk, Tight, Next;
    if calls != [] {
      var front, c, n := calls[..|calls| - 1], calls[|calls| - 1], |calls| - 1;
      assert calls == front + [c];
      CallersLeak(t, front);
      RunIsOk(t, front);
      if Tight(Run(t, front).table) {
        LastLeaks(t, front, c);
        forall a: nat, b: nat ensures BothMissed(t, calls, a, b) ==> b == n {
          if b < n {
            SamePair(t, front, c, a, b);
          }
        }
      } else {
        var a: nat, b: nat :| BothMissed(t, front, a, b);
        SamePair(t, front, c, a, b);
        NextLeaksOn(Run(t, front), c);
      }
    }
  }

  lemma {:induction false} WaitsAfterLook(t: Table, calls: seq<Section>, n: nat, caller: nat, h: nat) returns (i: nat)
    requires n <= |calls| && Waits(Run(t, calls[..n]), caller, h)
    ensures i < n && calls[i] == Look(caller, h)
    decreases n
  {
    if n > 0 {
      RunNext(t, calls, n - 1);
      if Waits(Run(t, calls[..n - 1]), caller, h) {
        i := WaitsAfterLook(t, calls, n - 1, caller, h);
      } else {
        i := n - 1;
      }
    }
  }

  /** Calls for different handles interleave freely. */
  lemma DifferentHandles(t: Table, calls: seq<Section>)
    requires TableOk(t) && Tight(t)
    requires forall i, j :: 0 <= i < |calls| && 0 <= j < |calls| && calls[i].Look? && calls[j].Look? && calls[i].handle == calls[j].handle ==>
               calls[i].caller == calls[j].caller
    ensures TableOk(Run(t, calls).table) && Tight(Run(t, calls).table)
  {
    hide TableOk, Tight, Run;
    RunIsOk(t, calls);
    CallersLeak(t, calls);
    forall a: nat, b: nat ensures !BothMissed(t, calls, a, b) {
      if BothMissed(t, calls, a, b) {
        var h: nat :| Waits(Run(t, calls[..a]), calls[a].caller, h) && Waits(Run(t, calls[..a]), calls[b].caller, h);
        var i := WaitsAfterLook(t, calls, a, calls[a].caller, h);
        var j := WaitsAfterLook(t, calls, a, calls[b].caller, h);
        assert false;
      }
    }
  }

  // ----- The table as an object -----

  /** The key is the handle: the source spells it as text, one text per handle. */
  class CacheIndex {
    var mapIndex: map<nat, nat>
    const indexCache: array<bool>

    ghost function View(): Table
      reads this, indexCache
    {
      Table(mapIndex, indexCache[..])
    }

    ghost predicate Valid()
      reads this, indexCache
    {
      TableOk(View())
    }

    /** Beyond that: every slot that is taken belongs to a key. */
    ghost predicate NoLeak()
      reads this, indexCache
    {
      Tight(View())
    }

    constructor ()
      ensures Valid() && NoLeak() && mapIndex == map[] && fresh(indexCache)
      ensures indexCache.Length == 32 && forall i :: 0 <= i < 32 ==> !indexCache[i]
    {
      indexCache := new bool[SLOTS](_ => false);
      mapIndex := map[];
    }

    /** The first critical section of GetFreeIndex. */
    method LookUp(handle: nat) returns (slot: Slot)
      requires Valid()
      ensures slot == if handle in mapIndex then Slot(mapIndex[handle]) else NoSlot
    {
      if handle in mapIndex {
        return Slot(mapIndex[handle]);
      }
      return NoSlot;
    }

    /** The second critical section of GetFreeIndex: the first free slot, even if the key got one in the meantime. */
    method TakeFree(handle: nat) returns (slot: Slot)
      requires Valid()
      modifies this`mapIndex, indexCache
      ensures Valid() && View() == Taken(old(View()), handle)
      ensures slot == if FirstFree(old(View()).used) < SLOTS then Slot(FirstFree(old(View()).used)) else NoSlot
      ensures slot.Slot? ==>
                slot.index < indexCache.Length && !old(indexCache[..])[slot.index] && forall j :: 0 <= j < slot.index ==> old(indexCache[..])[j]
      ensures old(NoLeak()) && slot.Slot? ==> (NoLeak() <==> handle !in old(mapIndex))
    {
      TakenLeaks(View(), handle);
      ghost var used := indexCache[..];
      for i := 0 to SLOTS
        invariant indexCache[..] == used && mapIndex == old(mapIndex)
        invariant forall j :: 0 <= j < i ==> used[j]
      {
        if !indexCache[i] {
          assert FirstFree(used) == i;
          indexCache[i] := true;
          mapIndex := mapIndex[handle := i];
          return Slot(i);
        }
      }
      return NoSlot;
    }

    /** Without another caller in between: a handle keeps its slot, and a new one gets the first free slot. */
    method GetFreeIndex(handle: nat) returns (slot: Slot)
      requires Valid() && NoLeak()
      modifies this`mapIndex, indexCache
      ensures Valid() && NoLeak()
      ensures handle in old(mapIndex) ==> slot == Slot(old(mapIndex)[handle]) && mapIndex == old(mapIndex)
      ensures slot.Slot? <==> handle in mapIndex
      ensures slot.Slot? ==> mapIndex == old(mapIndex)[handle := slot.index]
      ensures slot.Slot? && handle !in old(mapIndex) ==>
                slot.index < indexCache.Length && !old(indexCache[..])[slot.index] && forall j :: 0 <= j < slot.index ==> old(indexCache[..])[j]
      ensures slot.NoSlot? ==> mapIndex == old(mapIndex) && |mapIndex| == 32
    {
      slot := LookUp(handle);
      if slot.NoSlot? {
        slot := TakeFree(handle);
        if slot.NoSlot? {
          ghost var t := View();
          forall i: nat | i < SLOTS ensures Owned(mapIndex, i) {
            assert !Leaked(t, i) && t.used[i];
          }
          AllOwned(mapIndex);
        }
      }
    }

    /**
     * GetIndex behind its search, which holds no lock: the subscript makes an entry for slot 0
     * when the key has gone in the meantime.
     */
    method Subscript(handle: nat) returns (index: nat)
      requires Valid()
      modifies this`mapIndex
      ensures mapIndex == if handle in old(mapIndex) then old(mapIndex) else old(mapIndex)[handle := 0]
      ensures index == mapIndex[handle]
      ensures Valid() <==> handle in old(mapIndex) || (indexCache[0] && !Owned(old(mapIndex), 0))
    {
      if handle !in mapIndex {
        ghost var m := mapIndex;
        mapIndex := mapIndex[handle := 0];
        assert mapIndex[handle] == 0;
        forall k | k in m ensures k in mapIndex && mapIndex[k] == m[k] {
        }
        if indexCache[0] && Owned(m, 0) {
          var k :| k in m && m[k] == 0;
          assert mapIndex[k] == mapIndex[handle] && k != handle;
        }
      }
      index := mapIndex[handle];
    }

    /** The locked part of ResetIndex, with the slot that was read before. */
    method Release(handle: nat, index: nat)
      requires Valid() && index < SLOTS
      modifies this`mapIndex, indexCache
      ensures View() == Released(old(View()), handle, index)
      ensures Valid() <==> forall k :: k in old(mapIndex) && k != handle ==> old(mapIndex)[k] != index
      ensures old(NoLeak()) ==> (NoLeak() <==> handle !in old(mapIndex) || old(mapIndex)[handle] == index)
    {
      ReleasedLeaks(View(), handle, index);
      mapIndex := mapIndex - {handle};
      indexCache[index] := false;
    }

    /** Without another caller in between, ResetIndex frees the slot of a handle. */
    method ResetIndex(handle: nat)
      requires Valid()
      modifies this`mapIndex, indexCache
      ensures Valid() && View() == Reset(old(View()), handle)
      ensures old(NoLeak()) ==> NoLeak()
    {
      if handle in mapIndex {
        var index := mapIndex[handle];
        Release(handle, index);
      }
    }
  }

  ghost predicate Owned(m: map<nat, nat>, i: nat) {
    exists k :: k in m && m[k] == i
  }

  lemma OwnersKept(m: map<nat, nat>, handle: nat, i: nat)
    ensures Owned(m[handle := i], i)
    ensures handle !in m ==> forall j: nat :: Owned(m, j) ==> Owned(m[handle := i], j)
  {
    assert m[handle := i][handle] == i;
    if handle !in m {
      forall j: nat | Owned(m, j) ensures Owned(m[handle := i], j) {
        var k :| k in m && m[k] == j;
        assert m[handle := i][k] == j;
      }
    }
  }

  lemma OwnersLeft(m: map<nat, nat>, handle: nat)
    requires handle in m
    ensures forall j: nat :: Owned(m, j) && j != m[handle] ==> Owned(m - {handle}, j)
  {
    forall j: nat | Owned(m, j) && j != m[handle] ensures Owned(m - {handle}, j) {
      var k :| k in m && m[k] == j;
      assert k in m - {handle} && (m - {handle})[k] == j;
    }
  }

  /** With one slot per key and every slot owned there are exactly as many keys as slots. */
  lemma AllOwned(m: map<nat, nat>)
    requires forall k :: k in m ==> m[k] < SLOTS
    requires forall k, l :: k in m && l in m && m[k] == m[l] ==> k == l
    requires forall i: nat :: i < SLOTS ==> Owned(m, i)
    ensures |m| == SLOTS
  {
    CountOwned(m, SLOTS);
  }

  lemma {:induction false} CountOwned(m: map<nat, nat>, n: nat)
    requires forall k :: k in m ==> m[k] < n
    requires forall k, l :: k in m && l in m && m[k] == m[l] ==> k == l
    requires forall i: nat :: i < n ==> Owned(m, i)
    ensures |m| == n
    decreases n
  {
    if n == 0 {
      assert m.Keys == {};
    } else {
      assert Owned(m, n - 1);
      var k :| k in m && m[k] == n - 1;
      var rest := m - {k};
      OwnersLeft(m, k);
      CountOwned(rest, n - 1);
      assert m.Keys == rest.Keys + {k};
    }
  }

  /**
   * Two callers that both miss the same handle before either takes a slot leak one:
   * the slots are still one per key, but the first of the two belongs to nobody.
   */
  method RaceLeaks(handle: nat) returns (c: CacheIndex)
    ensures fresh(c) && c.Valid() && !c.NoLeak()
  {
    c := new CacheIndex();
    var first := c.LookUp(handle);
    var second := c.LookUp(handle);
    assert first == NoSlot && second == NoSlot;
    assert FirstFree(c.View().used) == 0;
    first := c.TakeFree(handle);
    assert !c.View().used[1] && FirstFree(c.View().used) <= 1;
    second := c.TakeFree(handle);
  }
}
