/** What becomes of every packet that arrives: it waits for the test, is pushed, or found the ring full. */
module PipelineHistories {
  import opened Powers
  import opened LidarQueues
  import opened PointCloudPipeline

  /** A packet at the test whether its ring is full, and whether fewer than 2^bits packets were waiting. */
  datatype Verdict = Verdict(p: Packet, room: bool)

  /** The packets of lidar `i` that PushLidarData was called with. */
  function Arrived(s: State, events: seq<Event>, i: nat): seq<Packet>
    decreases |events|
  {
    if events == [] then []
    else
      var front, e := events[..|events| - 1], events[|events| - 1];
      var t := After(s, front);
      Arrived(s, front, i) +
      if e.Arrive? && e.i == i && t.producer.Idle? && i < |t.queues| then [StoragePacket(e.baseTime, |e.points|, e.points)] else []
  }

  /** The verdict of a step, if the producer is at the test for lidar `i`. */
  function VerdictAt(t: State, e: Event, i: nat): seq<Verdict> {
    if e.ProducerMoves? && t.producer.TestFull? && t.producer.i == i && i < |t.queues| then
      [Verdict(t.producer.p, |t.queues[i].pushed| - |t.queues[i].popped| < Pow2(t.bits))]
    else []
  }

  function Verdicts(s: State, events: seq<Event>, i: nat): seq<Verdict>
    decreases |events|
  {
    if events == [] then []
    else Verdicts(s, events[..|events| - 1], i) + VerdictAt(After(s, events[..|events| - 1]), events[|events| - 1], i)
  }

  function Tested(vs: seq<Verdict>): seq<Packet> {
    if vs == [] then [] else Tested(vs[..|vs| - 1]) + [vs[|vs| - 1].p]
  }

  function WithRoom(vs: seq<Verdict>): seq<Packet> {
    if vs == [] then [] else WithRoom(vs[..|vs| - 1]) + if vs[|vs| - 1].room then [vs[|vs| - 1].p] else []
  }

  /** The packet in hand that has not come to the test. */
  function Untested(s: State, i: nat): seq<Packet> {
    if (s.producer.CheckStorage? || SettingUp(s.producer) || s.producer.TestFull?) && s.producer.i == i then [s.producer.p] else []
  }

  /** The packet in hand that is being written. */
  function BeingWritten(s: State, i: nat): seq<Packet> {
    if Writing(s.producer) && s.producer.i == i then [s.producer.p] else []
  }

  /** What one step does to the packet in hand and to what was pushed. */
  ghost predicate Accounted(s: State, e: Event, i: nat) {
    var t := Next(s, e);
    i < |s.queues| && i < |t.queues| &&
    var came := if e.Arrive? && e.i == i && s.producer.Idle? then [StoragePacket(e.baseTime, |e.points|, e.points)] else [];
    var vs := VerdictAt(s, e, i);
    && Untested(s, i) + came == Tested(vs) + Untested(t, i)
    && s.queues[i].pushed + BeingWritten(s, i) + WithRoom(vs) == t.queues[i].pushed + BeingWritten(t, i)
  }

  lemma OneVerdict(v: Verdict)
    ensures Tested([v]) == [v.p] && WithRoom([v]) == if v.room then [v.p] else []
    ensures Tested([]) == [] && WithRoom([]) == []
  {
    assert [v][..0] == [];
    assert [] + [v.p] == [v.p];
  }

  /** What a step of the producer does to its own queue and to the packet in its hand. */
  lemma ProducerChanges(s: State, i: nat)
    requires !s.producer.Idle? && s.producer.i == i && i < |s.queues|
    ensures var t := ProducerStep(s);
            && |t.queues| == |s.queues| && t.queues[i].popped == s.queues[i].popped
            && (s.producer.TestFull? ==>
                  && t.queues[i].pushed == s.queues[i].pushed
                  && t.producer == if IsFull(s.queues[i]) then TestCount(i) else WriteBaseTime(i, s.producer.p))
            && (s.producer.AdvanceWrite? ==> t.queues[i].pushed == s.queues[i].pushed + [s.producer.p] && t.producer == TestFilled(i))
            && (!s.producer.TestFull? && !s.producer.AdvanceWrite? ==>
                  && t.queues[i].pushed == s.queues[i].pushed
                  && Untested(t, i) == Untested(s, i) && BeingWritten(t, i) == BeingWritten(s, i))
  {
    hide And, Slots, WrittenSlot, Pow2, IsFull, IsEmpty;
  }

  /** The test of the code says whether 2^bits packets wait. */
  lemma FullMeans(s: State)
    requires Inv(s) && s.producer.TestFull?
    ensures s.producer.i < |s.queues|
    ensures var q := s.queues[s.producer.i]; IsFull(q) <==> |q.pushed| - |q.popped| >= Pow2(s.bits)
  {
    hide NonEmpty, And, IsFull, NoLostWakeup, ConsumerOk, Ring;
    var q := s.queues[s.producer.i];
    assert QueueOk(q, s.bits, Initializing(s, s.producer.i));
    RingTests(q, s.bits);
    RingRoom(q, s.bits);
  }

  lemma ProducerHere(s: State)
    requires Inv(s) && !s.producer.Idle?
    ensures s.producer.i < |s.queues|
  {
  }

  lemma ProducerAccounts(s: State, i: nat)
    requires Inv(s) && i < |s.queues|
    ensures Accounted(s, ProducerMoves, i)
  {
    hide ProducerStep, Tested, WithRoom, Inv, IsFull;
    OneVerdict(Verdict(NO_PACKET, true));
    ProducerElsewhere(s);
    IdleStays(s);
    if !s.producer.Idle? {
      ProducerHere(s);
      ProducerStays(s);
    }
    if !s.producer.Idle? && s.producer.i == i {
      ProducerChanges(s, i);
      if s.producer.TestFull? {
        FullMeans(s);
        OneVerdict(Verdict(s.producer.p, |s.queues[i].pushed| - |s.queues[i].popped| < Pow2(s.bits)));
      }
    }
  }

  lemma IdleStays(s: State)
    ensures s.producer.Idle? ==> ProducerStep(s) == s
  {
  }

  /** The producer keeps to its queue until it is through. */
  lemma ProducerStays(s: State)
    requires !s.producer.Idle? && s.producer.i < |s.queues|
    ensures var t := ProducerStep(s).producer; t.Idle? || t.i == s.producer.i
    ensures ProducerStep(s).bits == s.bits
  {
    hide And, Slots, WrittenSlot, WriteSlot, Pow2, IsFull, IsEmpty;
  }

  lemma RingRoom(q: Queue, bits: nat)
    requires Ring(q, bits)
    ensures |q.slots| == Pow2(bits) && |q.pushed| <= |q.popped| + |q.slots|
  {
  }

  lemma OthersAccount(s: State, e: Event, i: nat)
    requires Inv(s) && i < |s.queues| && !e.ProducerMoves?
    ensures Accounted(s, e, i)
  {
    hide Tested, WithRoom, Inv;
    OneVerdict(Verdict(NO_PACKET, true));
    if e.ConsumerMoves? {
      hide ConsumerStep;
      ConsumerOnlyPops(s);
      assert OnlyPopped(s.queues[i], ConsumerStep(s).queues[i]);
    }
  }

  lemma {:induction false} TestedConcat(vs: seq<Verdict>, ws: seq<Verdict>)
    requires |ws| <= 1
    ensures Tested(vs + ws) == Tested(vs) + Tested(ws) && WithRoom(vs + ws) == WithRoom(vs) + WithRoom(ws)
  {
    if ws == [] {
      assert vs + ws == vs;
      OneVerdict(Verdict(NO_PACKET, true));
    } else {
      assert (vs + ws)[..|vs|] == vs && ws == [ws[0]];
      OneVerdict(ws[0]);
    }
  }

  /**
   * Over every run: the packets that arrived are, in order, those that came to the test and the one before it; and what
   * was pushed, with the one being written, is exactly those at whose test fewer than 2^bits packets were waiting.
   */
  lemma {:induction false} EveryPacket(bits: nat, sampling: seq<bool>, events: seq<Event>, i: nat)
    requires bits < 32 && i < |sampling|
    ensures var s, t := Initial(bits, sampling), After(Initial(bits, sampling), events);
            && i < |t.queues|
            && Arrived(s, events, i) == Tested(Verdicts(s, events, i)) + Untested(t, i)
            && WithRoom(Verdicts(s, events, i)) == t.queues[i].pushed + BeingWritten(t, i)
    decreases |events|
  {
    var s := Initial(bits, sampling);
    if events != [] {
      var front, e := events[..|events| - 1], events[|events| - 1];
      EveryPacket(bits, sampling, front, i);
      var t := After(s, front);
      InitialInv(bits, sampling);
      RunsKeepInv(s, front);
      hide Inv, Next, Tested, WithRoom, Untested, BeingWritten, Initial;
      if e.ProducerMoves? {
        ProducerAccounts(t, i);
      } else {
        OthersAccount(t, e, i);
      }
      var vs, ws := Verdicts(s, front, i), VerdictAt(t, e, i);
      TestedConcat(vs, ws);
      JoinHands(Arrived(s, front, i), Tested(vs), Untested(t, i), Arrived(s, events, i)[|Arrived(s, front, i)|..], Tested(ws), Untested(Next(t, e), i));
    }
  }

  lemma JoinHands(a: seq<Packet>, tested: seq<Packet>, hand: seq<Packet>, came: seq<Packet>, more: seq<Packet>, hand': seq<Packet>)
    requires a == tested + hand && hand + came == more + hand'
    ensures a + came == tested + more + hand'
  {
    assert tested + hand + came == tested + (hand + came);
  }

  ghost predicate AlwaysRoom(vs: seq<Verdict>) {
    forall k :: 0 <= k < |vs| ==> vs[k].room
  }

  lemma {:induction false} AllWithRoom(vs: seq<Verdict>)
    requires AlwaysRoom(vs)
    ensures WithRoom(vs) == Tested(vs)
  {
    if vs != [] {
      AllWithRoom(vs[..|vs| - 1]);
    }
  }

  /** Where a ring never held 2^bits packets at a test, nothing is dropped. */
  lemma NothingDropped(bits: nat, sampling: seq<bool>, events: seq<Event>, i: nat)
    requires bits < 32 && i < |sampling| && AlwaysRoom(Verdicts(Initial(bits, sampling), events, i))
    ensures var t := After(Initial(bits, sampling), events);
            i < |t.queues| && t.queues[i].pushed + BeingWritten(t, i) + Untested(t, i) == Arrived(Initial(bits, sampling), events, i)
  {
    EveryPacket(bits, sampling, events, i);
    AllWithRoom(Verdicts(Initial(bits, sampling), events, i));
  }

  /** From end to end: with both threads at rest, everything that arrived and found room has been published in order. */
  lemma AllPublished(bits: nat, sampling: seq<bool>, events: seq<Event>, i: nat)
    requires bits < 32 && i < |sampling| && sampling[i]
    requires var t := After(Initial(bits, sampling), events); t.producer.Idle? && t.consumer.Waiting? && t.count == 0
    ensures var s, t := Initial(bits, sampling), After(Initial(bits, sampling), events);
            i < |t.queues| && t.queues[i].published == NonEmpty(WithRoom(Verdicts(s, events, i)))
  {
    hide NonEmpty, Verdicts, WithRoom, Arrived, Initial, Inv;
    var s := Initial(bits, sampling);
    var t := After(s, events);
    EveryPacket(bits, sampling, events, i);
    SamplingStays(bits, sampling, events);
    assert Reachable(t);
    SleepsOnlyWhenEmpty(t, i);
    assert t.queues[i].pushed + [] == t.queues[i].pushed;
  }

  lemma {:induction false} SamplingStays(bits: nat, sampling: seq<bool>, events: seq<Event>)
    requires bits < 32
    ensures After(Initial(bits, sampling), events).sampling == sampling
    decreases |events|
  {
    if events != [] {
      var front := events[..|events| - 1];
      SamplingStays(bits, sampling, front);
      var t := After(Initial(bits, sampling), front);
      StepKeepsSampling(t, events[|events| - 1]);
    }
  }

  lemma StepKeepsSampling(s: State, e: Event)
    ensures Next(s, e).sampling == s.sampling
  {
    hide And, Slots, WrittenSlot, WriteSlot, ReadSlot, Pow2, IsFull, IsEmpty;
  }

  // ----- One call, alone -----

  function ProducerRuns(s: State, n: nat): State {
    if n == 0 then s else ProducerStep(ProducerRuns(s, n - 1))
  }

  lemma {:induction false} ProducerRunsOn(s: State, n: nat)
    ensures ProducerRuns(ProducerStep(s), n) == ProducerRuns(s, n + 1)
  {
    if n > 0 {
      ProducerRunsOn(s, n - 1);
    }
  }

  /** How many steps are left of PushLidarData, at most. */
  function StepsLeft(p: Producer): nat {
    match p
    case Idle => 0
    case CheckStorage(_, _) => 13
    case SetReadIndex(_, _) => 12
    case SetWriteIndex(_, _) => 11
    case SetSize(_, _) => 10
    case SetMask(_, _) => 9
    case TestFull(_, _) => 8
    case WriteBaseTime(_, _) => 7
    case WritePointsNum(_, _) => 6
    case WritePoints(_, _) => 5
    case AdvanceWrite(_, _) => 4
    case TestFilled(_) => 3
    case TestCount(_) => 2
    case DoSignal(_) => 1
  }

  lemma ProducerAdvances(s: State)
    requires Inv(s) && !s.producer.Idle?
    ensures StepsLeft(ProducerStep(s).producer) < StepsLeft(s.producer)
  {
    hide And, Slots, WrittenSlot, WriteSlot, Pow2, IsFull, IsEmpty, Ring, NonEmpty;
  }

  /** What will have been pushed once the producer is through, if the consumer stands still. */
  function Fate(s: State, i: nat): seq<Packet>
    requires i < |s.queues|
  {
    var q := s.queues[i];
    q.pushed + BeingWritten(s, i) + if |q.pushed| - |q.popped| < Pow2(s.bits) then Untested(s, i) else []
  }

  lemma FateKept(s: State, i: nat)
    requires Inv(s) && i < |s.queues|
    ensures |ProducerStep(s).queues| == |s.queues| && Fate(ProducerStep(s), i) == Fate(s, i)
  {
    hide ProducerStep, Inv, IsFull, Pow2;
    ProducerElsewhere(s);
    IdleStays(s);
    if !s.producer.Idle? {
      ProducerHere(s);
      ProducerStays(s);
    }
    if !s.producer.Idle? && s.producer.i == i {
      ProducerChanges(s, i);
      if s.producer.TestFull? {
        FullMeans(s);
      }
    }
  }

  lemma {:induction false} ProducerEnds(s: State, i: nat) returns (n: nat)
    requires Inv(s) && i < |s.queues|
    ensures n <= StepsLeft(s.producer)
    ensures var t := ProducerRuns(s, n); t.producer.Idle? && Inv(t) && i < |t.queues| && t.queues[i].pushed == Fate(s, i)
    decreases StepsLeft(s.producer)
  {
    hide Inv, ProducerStep;
    if s.producer.Idle? {
      n := 0;
    } else {
      ProducerAdvances(s);
      ProducerKeeps(s);
      FateKept(s, i);
      var m := ProducerEnds(ProducerStep(s), i);
      ProducerRunsOn(s, m);
      n := m + 1;
    }
  }

  /** A call of PushLidarData that is left alone returns, and has pushed its packet exactly if fewer than 2^bits were waiting. */
  lemma PushEnds(s: State, i: nat, baseTime: nat, points: seq<Point>) returns (n: nat)
    requires Inv(s) && s.producer.Idle? && i < |s.queues|
    ensures var t := ProducerRuns(Accept(s, i, baseTime, points), n);
            && t.producer.Idle? && Inv(t) && i < |t.queues|
            && t.queues[i].pushed ==
               s.queues[i].pushed +
               if |s.queues[i].pushed| - |s.queues[i].popped| < Pow2(s.bits) then [StoragePacket(baseTime, |points|, points)] else []
  {
    AcceptKeeps(s, i, baseTime, points);
    n := ProducerEnds(Accept(s, i, baseTime, points), i);
  }
}
