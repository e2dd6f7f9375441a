/**
 * The two threads around the packet queues, one shared access at a time:
 * Lds::PushLidarData on one side, Lddc::DistributePointCloudData on the other, a semaphore between them.
 */
module PointCloudPipeline {
  import opened Powers
  import opened LidarQueues

  type Packet = StoragePacket

  /** A queue as both threads see it, and what has gone in, come out and been published. */
  datatype Queue = Queue(ready: bool, slots: seq<Packet>, rdIdx: nat, wrIdx: nat, size: nat, mask: nat,
                         pushed: seq<Packet>, popped: seq<Packet>, published: seq<Packet>)

  /** Where the producer stands in PushLidarData, with the lidar and the packet in hand. */
  datatype Producer =
    | Idle
    | CheckStorage(i: nat, p: Packet)
    | SetReadIndex(i: nat, p: Packet)
    | SetWriteIndex(i: nat, p: Packet)
    | SetSize(i: nat, p: Packet)
    | SetMask(i: nat, p: Packet)
    | TestFull(i: nat, p: Packet)
    | WriteBaseTime(i: nat, p: Packet)
    | WritePointsNum(i: nat, p: Packet)
    | WritePoints(i: nat, p: Packet)
    | AdvanceWrite(i: nat, p: Packet)
    | TestFilled(i: nat)
    | TestCount(i: nat)
    | DoSignal(i: nat)

  /** Where the consumer stands in DistributePointCloudData and the functions it calls. */
  datatype Consumer =
    | Waiting
    | Sweep(k: nat)
    | CheckReady(k: nat)
    | PollQueue(k: nat)
    | DrainQueue(k: nat)
    | TestEmpty(k: nat)
    | CopyBaseTime(k: nat)
    | CopyPointsNum(k: nat, baseTime: nat)
    | CopyPoints(k: nat, baseTime: nat, pointsNum: nat)
    | AdvanceRead(k: nat, p: Packet)
    | PublishPacket(k: nat, p: Packet)

  /** `bits` gives the size of every queue, `sampling` the lidars the consumer does not pass over. */
  datatype State = State(bits: nat, sampling: seq<bool>, queues: seq<Queue>, count: int, producer: Producer, consumer: Consumer)

  datatype Event = Arrive(i: nat, baseTime: nat, points: seq<Point>) | ProducerMoves | ConsumerMoves

  // ----- Steps of the producer -----

  const NO_PACKET: Packet := StoragePacket(0, 0, [])

  function Slots(n: nat): seq<Packet> {
    seq(n, _ => NO_PACKET)
  }

  function PutQueue(s: State, i: nat, q: Queue): State
    requires i < |s.queues|
  {
    s.(queues := s.queues[i := q])
  }

  function WriteSlot(q: Queue, p: Packet): Queue {
    var j := And(q.wrIdx, q.mask);
    if j < |q.slots| then q.(slots := q.slots[j := p]) else q
  }

  function WrittenSlot(q: Queue): Packet {
    var j := And(q.wrIdx, q.mask);
    if j < |q.slots| then q.slots[j] else NO_PACKET
  }

  function ReadSlot(q: Queue): Packet {
    var j := And(q.rdIdx, q.mask);
    if j < |q.slots| then q.slots[j] else NO_PACKET
  }

  predicate IsFull(q: Queue) {
    (q.wrIdx - q.rdIdx) % TWO32 > q.mask
  }

  predicate IsEmpty(q: Queue) {
    q.rdIdx == q.wrIdx
  }

  function Accept(s: State, i: nat, baseTime: nat, points: seq<Point>): State {
    if s.producer.Idle? && i < |s.queues| then
      s.(producer := CheckStorage(i, StoragePacket(baseTime, |points|, points)))
    else s
  }

  function ProducerStep(s: State): State {
    if s.producer.Idle? || s.producer.i >= |s.queues| then s
    else
      var i := s.producer.i;
      var q := s.queues[i];
      match s.producer
      case Idle => s
      case CheckStorage(_, p) =>
        if q.ready then s.(producer := TestFull(i, p))
        else PutQueue(s, i, q.(ready := true, slots := Slots(Pow2(s.bits)))).(producer := SetReadIndex(i, p))
      case SetReadIndex(_, p) =>
        PutQueue(s, i, q.(rdIdx := 0)).(producer := SetWriteIndex(i, p))
      case SetWriteIndex(_, p) =>
        PutQueue(s, i, q.(wrIdx := 0)).(producer := SetSize(i, p))
      case SetSize(_, p) =>
        PutQueue(s, i, q.(size := Pow2(s.bits))).(producer := SetMask(i, p))
      case SetMask(_, p) =>
        PutQueue(s, i, q.(mask := Pow2(s.bits) - 1)).(producer := TestFull(i, p))
      case TestFull(_, p) =>
        s.(producer := if IsFull(q) then TestCount(i) else WriteBaseTime(i, p))
      case WriteBaseTime(_, p) =>
        PutQueue(s, i, WriteSlot(q, WrittenSlot(q).(baseTime := p.baseTime))).(producer := WritePointsNum(i, p))
      case WritePointsNum(_, p) =>
        PutQueue(s, i, WriteSlot(q, WrittenSlot(q).(pointsNum := p.pointsNum))).(producer := WritePoints(i, p))
      case WritePoints(_, p) =>
        PutQueue(s, i, WriteSlot(q, WrittenSlot(q).(points := p.points))).(producer := AdvanceWrite(i, p))
      case AdvanceWrite(_, p) =>
        PutQueue(s, i, q.(wrIdx := (q.wrIdx + 1) % TWO32, pushed := q.pushed + [p])).(producer := TestFilled(i))
      case TestFilled(_) =>
        s.(producer := if IsEmpty(q) then Idle else TestCount(i))
      case TestCount(_) =>
        s.(producer := if s.count <= 0 then DoSignal(i) else Idle)
      case DoSignal(_) =>
        s.(count := s.count + 1, producer := Idle)
  }

  // ----- Steps of the consumer -----

  function ConsumerStep(s: State): State {
    if s.consumer.Waiting? then
      if s.count > 0 then s.(count := s.count - 1, consumer := Sweep(0)) else s
    else if s.consumer.k >= |s.queues| || s.consumer.k >= |s.sampling| then s.(consumer := Waiting)
    else
      var k := s.consumer.k;
      var q := s.queues[k];
      match s.consumer
      case Waiting => s
      case Sweep(_) => s.(consumer := if s.sampling[k] then CheckReady(k) else Sweep(k + 1))
      case CheckReady(_) => s.(consumer := if q.ready then PollQueue(k) else Sweep(k + 1))
      case PollQueue(_) => s.(consumer := if IsEmpty(q) then Sweep(k + 1) else DrainQueue(k))
      case DrainQueue(_) => s.(consumer := if IsEmpty(q) then PollQueue(k) else TestEmpty(k))
      case TestEmpty(_) => s.(consumer := if IsEmpty(q) then DrainQueue(k) else CopyBaseTime(k))
      case CopyBaseTime(_) => s.(consumer := CopyPointsNum(k, ReadSlot(q).baseTime))
      case CopyPointsNum(_, b) => s.(consumer := CopyPoints(k, b, ReadSlot(q).pointsNum))
      case CopyPoints(_, b, n) =>
        var points := ReadSlot(q).points;
        s.(consumer := AdvanceRead(k, StoragePacket(b, n, if n <= |points| then points[..n] else points)))
      case AdvanceRead(_, p) =>
        PutQueue(s, k, q.(rdIdx := (q.rdIdx + 1) % TWO32, popped := q.popped + [p])).(consumer := PublishPacket(k, p))
      case PublishPacket(_, p) =>
        PutQueue(s, k, q.(published := if p.points == [] then q.published else q.published + [p])).(consumer := DrainQueue(k))
  }

  // ----- Runs -----

  function Next(s: State, e: Event): State {
    match e
    case Arrive(i, baseTime, points) => Accept(s, i, baseTime, points)
    case ProducerMoves => ProducerStep(s)
    case ConsumerMoves => ConsumerStep(s)
  }

  function After(s: State, events: seq<Event>): State
    decreases |events|
  {
    if events == [] then s else Next(After(s, events[..|events| - 1]), events[|events| - 1])
  }

  function NewQueue(): Queue {
    Queue(false, [], 0, 0, 0, 0, [], [], [])
  }

  function Initial(bits: nat, sampling: seq<bool>): State {
    State(bits, sampling, seq(|sampling|, _ => NewQueue()), 0, Idle, Waiting)
  }

  // ----- What every run keeps -----

  function NonEmpty(ps: seq<Packet>): seq<Packet> {
    if ps == [] then []
    else
      var front := NonEmpty(ps[..|ps| - 1]);
      if ps[|ps| - 1].points == [] then front else front + [ps[|ps| - 1]]
  }

  /** A queue nobody has pushed to. */
  predicate Untouched(q: Queue) {
    q.rdIdx == q.wrIdx == 0 && q.pushed == q.popped == q.published == []
  }

  /** The ring: the window between the two histories is in the slots, in order. */
  ghost predicate Ring(q: Queue, bits: nat) {
    && q.ready && bits < 32 && |q.slots| == Pow2(bits) && q.mask == Pow2(bits) - 1
    && |q.popped| <= |q.pushed| <= |q.popped| + |q.slots|
    && q.rdIdx == |q.popped| % TWO32 && q.wrIdx == |q.pushed| % TWO32
    && q.popped == q.pushed[..|q.popped|]
    && q.pushed[|q.popped|..] == Window(q.slots, |q.popped|, |q.pushed|)
  }

  ghost predicate QueueOk(q: Queue, bits: nat, initializing: bool) {
    if initializing then q.ready && |q.slots| == Pow2(bits) && Untouched(q)
    else if q.ready then Ring(q, bits)
    else Untouched(q)
  }

  predicate SettingUp(p: Producer) {
    p.SetReadIndex? || p.SetWriteIndex? || p.SetSize? || p.SetMask?
  }

  predicate Initializing(s: State, i: nat) {
    SettingUp(s.producer) && s.producer.i == i
  }

  predicate Writing(p: Producer) {
    p.WriteBaseTime? || p.WritePointsNum? || p.WritePoints? || p.AdvanceWrite?
  }

  predicate Copying(c: Consumer) {
    c.CopyBaseTime? || c.CopyPointsNum? || c.CopyPoints? || c.AdvanceRead?
  }

  ghost predicate QueuesOk(s: State) {
    && s.bits < 32 && |s.queues| == |s.sampling|
    && forall i :: 0 <= i < |s.queues| ==> QueueOk(s.queues[i], s.bits, Initializing(s, i))
  }

  predicate HasPacket(p: Producer) {
    p.CheckStorage? || SettingUp(p) || p.TestFull? || Writing(p)
  }

  /** A queue being written has room, and its next slot holds as much of the packet as has been written. */
  ghost predicate ProducerOk(s: State) {
    !s.producer.Idle? ==>
      && s.producer.i < |s.queues|
      && (HasPacket(s.producer) ==> s.producer.p.pointsNum == |s.producer.p.points|)
      && (!s.producer.CheckStorage? && !SettingUp(s.producer) ==> s.queues[s.producer.i].ready)
      && (Writing(s.producer) ==>
            var q, p := s.queues[s.producer.i], s.producer.p;
            && q.slots != [] && |q.pushed| < |q.popped| + |q.slots|
            && (!s.producer.WriteBaseTime? ==> At(q.slots, |q.pushed|).baseTime == p.baseTime)
            && (s.producer.WritePoints? || s.producer.AdvanceWrite? ==> At(q.slots, |q.pushed|).pointsNum == p.pointsNum)
            && (s.producer.AdvanceWrite? ==> At(q.slots, |q.pushed|).points == p.points))
  }

  /** A queue being copied has a packet, and what has been copied is that packet's. */
  ghost predicate ConsumerOk(s: State) {
    && (forall k :: 0 <= k < |s.queues| && !(s.consumer.PublishPacket? && s.consumer.k == k) ==>
          s.queues[k].published == NonEmpty(s.queues[k].popped))
    && (s.consumer.PublishPacket? ==>
          && s.consumer.k < |s.queues|
          && var q := s.queues[s.consumer.k];
             q.popped != [] && q.popped[|q.popped| - 1] == s.consumer.p && q.published == NonEmpty(q.popped[..|q.popped| - 1]))
    && (Copying(s.consumer) ==>
          && s.consumer.k < |s.queues|
          && var q := s.queues[s.consumer.k];
             && q.ready && |q.popped| < |q.pushed|
             && var p := q.pushed[|q.popped|];
                && (s.consumer.CopyPointsNum? || s.consumer.CopyPoints? ==> s.consumer.baseTime == p.baseTime)
                && (s.consumer.CopyPoints? ==> s.consumer.pointsNum == p.pointsNum)
                && (s.consumer.AdvanceRead? ==> s.consumer.p == p))
    && forall k, j :: 0 <= k < |s.queues| && 0 <= j < |s.queues[k].pushed| ==>
         s.queues[k].pushed[j].pointsNum == |s.queues[k].pushed[j].points|
  }

  predicate Nonempty(s: State, i: nat)
    requires i < |s.queues|
  {
    s.queues[i].pushed != s.queues[i].popped
  }

  /** The running sweep still tests queue `i` for emptiness before it leaves it. */
  predicate StillToCome(c: Consumer, i: nat) {
    !c.Waiting? && c.k <= i
  }

  /** The producer has put something into queue `i` and has yet to look at the semaphore. */
  predicate AboutToSignal(p: Producer, i: nat) {
    (p.TestFilled? || p.TestCount? || p.DoSignal?) && p.i == i
  }

  ghost predicate CountOk(s: State) {
    && 0 <= s.count <= 1
    && (s.producer.DoSignal? ==> s.count == 0)
  }

  /** Data that waits has a signal, a consumer on its way, or a producer about to signal. */
  ghost predicate NoLostWakeup(s: State) {
    |s.sampling| == |s.queues| &&
    forall i :: 0 <= i < |s.queues| && s.sampling[i] && Nonempty(s, i) ==>
      s.count == 1 || StillToCome(s.consumer, i) || AboutToSignal(s.producer, i)
  }

  ghost predicate Inv(s: State) {
    QueuesOk(s) && ProducerOk(s) && ConsumerOk(s) && CountOk(s) && NoLostWakeup(s)
  }

  // ----- One queue -----

  lemma RingSize(q: Queue, bits: nat)
    requires Ring(q, bits)
    ensures 0 < |q.slots| <= 0x8000_0000 && q.mask == |q.slots| - 1
  {
    Pow2Grows(bits, 31);
    PowersOfTwo();
    assert Pow2(32) == 2 * Pow2(31);
  }

  lemma SlotOf(q: Queue, bits: nat, n: nat)
    requires Ring(q, bits)
    ensures And(n % TWO32, q.mask) == n % |q.slots|
  {
    MaskIsRemainder(n % TWO32, bits);
    WrappedSlot(n, bits);
  }

  /** The tests on wrapped indices say what they would say on unwrapped ones. */
  lemma RingTests(q: Queue, bits: nat)
    requires Ring(q, bits)
    ensures IsEmpty(q) <==> q.pushed == q.popped
    ensures IsFull(q) <==> |q.pushed| == |q.popped| + |q.slots|
  {
    RingSize(q, bits);
    WrappedDifference(|q.pushed|, |q.popped|);
    if |q.pushed| == |q.popped| {
      assert q.pushed[..|q.popped|] == q.pushed;
    }
  }

  /** Reading gives the oldest packet still in the ring. */
  lemma RingRead(q: Queue, bits: nat)
    requires Ring(q, bits) && |q.popped| < |q.pushed|
    ensures ReadSlot(q) == q.pushed[|q.popped|]
  {
    RingSize(q, bits);
    SlotOf(q, bits, |q.popped|);
    WindowHead(q.slots, |q.popped|, |q.pushed|);
    assert q.pushed[|q.popped|..][0] == q.pushed[|q.popped|];
  }

  lemma WriteIs(q: Queue, bits: nat, p: Packet)
    requires Ring(q, bits)
    ensures q.slots != [] && WrittenSlot(q) == At(q.slots, |q.pushed|)
    ensures WriteSlot(q, p) == q.(slots := q.slots[|q.pushed| % |q.slots| := p])
  {
    RingSize(q, bits);
    SlotOf(q, bits, |q.pushed|);
  }

  /** Writing the next slot of a ring with room touches no packet that waits. */
  lemma RingWrite(q: Queue, bits: nat, p: Packet)
    requires Ring(q, bits) && |q.pushed| < |q.popped| + |q.slots|
    ensures Ring(WriteSlot(q, p), bits) && At(WriteSlot(q, p).slots, |q.pushed|) == p
    ensures WriteSlot(q, p) == q.(slots := WriteSlot(q, p).slots) && |WriteSlot(q, p).slots| == |q.slots|
  {
    hide Window, And, Pow2;
    WriteIs(q, bits, p);
    WindowKept(q.slots, |q.popped|, |q.pushed|, |q.pushed|, p);
  }

  lemma RingPush(q: Queue, bits: nat, p: Packet)
    requires Ring(q, bits) && |q.pushed| < |q.popped| + |q.slots| && q.slots != [] && At(q.slots, |q.pushed|) == p
    ensures Ring(q.(wrIdx := (q.wrIdx + 1) % TWO32, pushed := q.pushed + [p]), bits)
  {
    hide Pow2;
    NextIndex(|q.pushed|);
    var pushed' := q.pushed + [p];
    assert pushed'[..|q.popped|] == q.pushed[..|q.popped|];
    assert pushed'[|q.popped|..] == q.pushed[|q.popped|..] + [p];
  }

  lemma RingPop(q: Queue, bits: nat, p: Packet)
    requires Ring(q, bits) && |q.popped| < |q.pushed| && p == q.pushed[|q.popped|]
    ensures Ring(q.(rdIdx := (q.rdIdx + 1) % TWO32, popped := q.popped + [p]), bits)
  {
    hide Pow2;
    RingSize(q, bits);
    NextIndex(|q.popped|);
    WindowHead(q.slots, |q.popped|, |q.pushed|);
    assert q.pushed[..|q.popped| + 1] == q.pushed[..|q.popped|] + [p];
    assert q.pushed[|q.popped| + 1..] == q.pushed[|q.popped|..][1..];
  }

  /** A queue that was just set up is an empty ring. */
  lemma RingStart(q: Queue, bits: nat)
    requires QueueOk(q, bits, true) && bits < 32
    ensures Ring(q.(mask := Pow2(bits) - 1), bits)
  {
    hide Pow2;
  }

  /** Only a ring can be non-empty. */
  lemma NonemptyIsRing(s: State, i: nat)
    requires QueuesOk(s) && i < |s.queues| && s.queues[i].pushed != s.queues[i].popped
    ensures Ring(s.queues[i], s.bits)
  {
  }

  // ----- The producer keeps the invariant -----

  lemma AcceptKeeps(s: State, i: nat, baseTime: nat, points: seq<Point>)
    requires Inv(s)
    ensures Inv(Accept(s, i, baseTime, points))
  {
    hide Ring, NonEmpty;
    var t := Accept(s, i, baseTime, points);
    assert forall j :: 0 <= j < |s.queues| ==> t.queues[j] == s.queues[j];
  }

  lemma ProducerKeepsQueues(s: State)
    requires Inv(s) && !s.producer.Idle?
    ensures QueuesOk(ProducerStep(s))
  {
    hide Ring, WriteSlot, WrittenSlot, NonEmpty, And;
    var i, t := s.producer.i, ProducerStep(s);
    var q := s.queues[i];
    assert QueueOk(q, s.bits, Initializing(s, i));
    if s.producer.SetMask? {
      RingStart(q, s.bits);
    } else if s.producer.WriteBaseTime? {
      RingWrite(q, s.bits, WrittenSlot(q).(baseTime := s.producer.p.baseTime));
    } else if s.producer.WritePointsNum? {
      RingWrite(q, s.bits, WrittenSlot(q).(pointsNum := s.producer.p.pointsNum));
    } else if s.producer.WritePoints? {
      RingWrite(q, s.bits, WrittenSlot(q).(points := s.producer.p.points));
    } else if s.producer.AdvanceWrite? {
      RingPush(q, s.bits, s.producer.p);
    }
    forall j | 0 <= j < |t.queues| ensures QueueOk(t.queues[j], t.bits, Initializing(t, j)) {
      assert QueueOk(s.queues[j], s.bits, Initializing(s, j));
      if j == i {
        RingIsReady(t.queues[i], s.bits);
      }
    }
  }

  lemma RingIsReady(q: Queue, bits: nat)
    ensures Ring(q, bits) ==> q.ready
  {
  }

  lemma ProducerKeepsItself(s: State)
    requires Inv(s) && !s.producer.Idle?
    ensures ProducerOk(ProducerStep(s))
  {
    hide Ring, WriteSlot, WrittenSlot, NonEmpty, And;
    var i, t := s.producer.i, ProducerStep(s);
    var q := s.queues[i];
    assert QueueOk(q, s.bits, Initializing(s, i));
    if s.producer.TestFull? {
      RingTests(q, s.bits);
      RingBounds(q, s.bits);
    } else if s.producer.WriteBaseTime? {
      WriteIs(q, s.bits, NO_PACKET);
      RingWrite(q, s.bits, WrittenSlot(q).(baseTime := s.producer.p.baseTime));
    } else if s.producer.WritePointsNum? {
      WriteIs(q, s.bits, NO_PACKET);
      RingWrite(q, s.bits, WrittenSlot(q).(pointsNum := s.producer.p.pointsNum));
    } else if s.producer.WritePoints? {
      WriteIs(q, s.bits, NO_PACKET);
      RingWrite(q, s.bits, WrittenSlot(q).(points := s.producer.p.points));
    }
  }

  lemma RingBounds(q: Queue, bits: nat)
    requires Ring(q, bits)
    ensures q.slots != [] && |q.popped| <= |q.pushed| <= |q.popped| + |q.slots|
  {
  }

  /** What the producer does to a queue: nothing to what came out of it, and at most one packet more in it. */
  predicate OnlyPushed(q: Queue, q': Queue) {
    && q'.popped == q.popped && q'.published == q.published && (q.ready ==> q'.ready)
    && (q'.pushed == q.pushed
        || (q'.pushed != [] && q'.pushed[..|q'.pushed| - 1] == q.pushed
            && q'.pushed[|q'.pushed| - 1].pointsNum == |q'.pushed[|q'.pushed| - 1].points|))
  }

  lemma ProducerOnlyPushesHere(s: State)
    requires ProducerOk(s) && !s.producer.Idle?
    ensures |ProducerStep(s).queues| == |s.queues| && ProducerStep(s).consumer == s.consumer
    ensures OnlyPushed(s.queues[s.producer.i], ProducerStep(s).queues[s.producer.i])
  {
    hide And, Slots, WrittenSlot, Pow2, IsFull, IsEmpty;
    if s.producer.AdvanceWrite? {
      var pushed, p := s.queues[s.producer.i].pushed, s.producer.p;
      assert (pushed + [p])[..|pushed|] == pushed;
    }
  }

  lemma ProducerElsewhere(s: State)
    ensures |ProducerStep(s).queues| == |s.queues|
    ensures forall j :: 0 <= j < |s.queues| && !(!s.producer.Idle? && s.producer.i == j) ==> ProducerStep(s).queues[j] == s.queues[j]
  {
    hide And, Slots, WrittenSlot, WriteSlot, Pow2, IsFull, IsEmpty;
  }

  lemma ProducerOnlyPushes(s: State)
    requires Inv(s) && !s.producer.Idle?
    ensures |ProducerStep(s).queues| == |s.queues| && ProducerStep(s).consumer == s.consumer
    ensures forall j :: 0 <= j < |s.queues| ==> OnlyPushed(s.queues[j], ProducerStep(s).queues[j])
  {
    ProducerOnlyPushesHere(s);
    ProducerElsewhere(s);
    hide ProducerStep, Ring;
  }

  lemma ProducerKeepsConsumer(s: State)
    requires Inv(s) && !s.producer.Idle?
    ensures ConsumerOk(ProducerStep(s))
  {
    hide ProducerStep, NonEmpty, Ring;
    ProducerOnlyPushes(s);
    var t := ProducerStep(s);
    forall k, j | 0 <= k < |t.queues| && 0 <= j < |t.queues[k].pushed|
      ensures t.queues[k].pushed[j].pointsNum == |t.queues[k].pushed[j].points|
    {
      assert OnlyPushed(s.queues[k], t.queues[k]);
      if j < |s.queues[k].pushed| {
        assert s.queues[k].pushed[j] == t.queues[k].pushed[j];
      }
    }
    if Copying(s.consumer) {
      assert OnlyPushed(s.queues[s.consumer.k], t.queues[s.consumer.k]);
    }
  }

  lemma ProducerKeepsWakeup(s: State)
    requires Inv(s) && !s.producer.Idle?
    ensures CountOk(ProducerStep(s)) && NoLostWakeup(ProducerStep(s))
  {
    hide Ring, WriteSlot, WrittenSlot, NonEmpty, And;
    var i, t := s.producer.i, ProducerStep(s);
    var q := s.queues[i];
    assert QueueOk(q, s.bits, Initializing(s, i));
    if s.producer.TestFilled? {
      RingTests(q, s.bits);
    }
    forall j | 0 <= j < |t.queues| && t.sampling[j] && Nonempty(t, j)
      ensures t.count == 1 || StillToCome(t.consumer, j) || AboutToSignal(t.producer, j)
    {
      if j != i {
        assert Nonempty(s, j);
      } else {
        SlotsOnly(s);
        assert !s.producer.AdvanceWrite? ==> Nonempty(s, j);
      }
    }
  }

  lemma SlotsOnly(s: State)
    requires !s.producer.Idle? && s.producer.i < |s.queues|
    ensures var i, t := s.producer.i, ProducerStep(s);
            |t.queues| == |s.queues| && (!s.producer.AdvanceWrite? ==> t.queues[i].pushed == s.queues[i].pushed && t.queues[i].popped == s.queues[i].popped)
  {
    hide And;
  }

  lemma ProducerKeeps(s: State)
    requires Inv(s)
    ensures Inv(ProducerStep(s))
  {
    if !s.producer.Idle? {
      hide QueuesOk, ProducerOk, ConsumerOk, CountOk, NoLostWakeup, ProducerStep;
      ProducerKeepsQueues(s);
      ProducerKeepsItself(s);
      ProducerKeepsConsumer(s);
      ProducerKeepsWakeup(s);
    }
  }

  // ----- The consumer keeps the invariant -----

  lemma ConsumerKeepsQueues(s: State)
    requires Inv(s)
    ensures QueuesOk(ConsumerStep(s))
  {
    hide Ring, ReadSlot, NonEmpty;
    var t := ConsumerStep(s);
    if s.consumer.AdvanceRead? {
      var k := s.consumer.k;
      var q := s.queues[k];
      assert QueueOk(q, s.bits, Initializing(s, k));
      RingPop(q, s.bits, s.consumer.p);
    }
    forall j | 0 <= j < |t.queues| ensures QueueOk(t.queues[j], t.bits, Initializing(t, j)) {
      assert QueueOk(s.queues[j], s.bits, Initializing(s, j));
      if s.consumer.PublishPacket? && j == s.consumer.k {
        assert s.queues[j].popped != [];
        PublishedApart(s.queues[j], t.queues[j].published, s.bits);
      }
    }
  }

  lemma PublishedApart(q: Queue, published: seq<Packet>, bits: nat)
    requires Ring(q, bits)
    ensures Ring(q.(published := published), bits)
  {
  }

  /** What the consumer does to a queue leaves what was pushed, what is stored and where the producer writes. */
  predicate OnlyPopped(q: Queue, q': Queue) {
    && q'.pushed == q.pushed && q'.slots == q.slots && q'.ready == q.ready && q'.wrIdx == q.wrIdx && q'.mask == q.mask
    && |q.popped| <= |q'.popped|
  }

  lemma ConsumerOnlyPops(s: State)
    ensures |ConsumerStep(s).queues| == |s.queues| && ConsumerStep(s).producer == s.producer
    ensures ConsumerStep(s).sampling == s.sampling && ConsumerStep(s).bits == s.bits
    ensures forall j :: 0 <= j < |s.queues| ==> OnlyPopped(s.queues[j], ConsumerStep(s).queues[j])
  {
    hide ReadSlot;
  }

  lemma ConsumerKeepsProducer(s: State)
    requires Inv(s)
    ensures ProducerOk(ConsumerStep(s))
  {
    hide ConsumerStep, NonEmpty, Ring;
    ConsumerOnlyPops(s);
    if !s.producer.Idle? {
      assert OnlyPopped(s.queues[s.producer.i], ConsumerStep(s).queues[s.producer.i]);
    }
  }

  lemma ConsumerCopies(s: State)
    requires Inv(s) && !s.consumer.Waiting? && s.consumer.k < |s.queues|
    requires s.consumer.TestEmpty? || s.consumer.CopyBaseTime? || s.consumer.CopyPointsNum? || s.consumer.CopyPoints?
    ensures var t := ConsumerStep(s);
            Copying(t.consumer) ==>
              && t.consumer.k < |t.queues|
              && var q := t.queues[t.consumer.k];
                 && q.ready && |q.popped| < |q.pushed|
                 && var p := q.pushed[|q.popped|];
                    && (t.consumer.CopyPointsNum? || t.consumer.CopyPoints? ==> t.consumer.baseTime == p.baseTime)
                    && (t.consumer.CopyPoints? ==> t.consumer.pointsNum == p.pointsNum)
                    && (t.consumer.AdvanceRead? ==> t.consumer.p == p)
  {
    hide Ring, ReadSlot, NonEmpty, And;
    var k := s.consumer.k;
    var q := s.queues[k];
    assert QueueOk(q, s.bits, Initializing(s, k));
    if s.consumer.TestEmpty? {
      if Ring(q, s.bits) {
        RingTests(q, s.bits);
        DifferentHistories(q, s.bits);
      }
    } else {
      RingRead(q, s.bits);
      assert q.pushed[|q.popped|].pointsNum == |q.pushed[|q.popped|].points|;
    }
  }

  lemma DifferentHistories(q: Queue, bits: nat)
    requires Ring(q, bits)
    ensures q.pushed != q.popped ==> |q.popped| < |q.pushed|
  {
    assert q.pushed[..|q.pushed|] == q.pushed;
  }

  lemma PublishedElsewhere(s: State)
    requires ConsumerOk(s) && |s.sampling| == |s.queues| && !s.consumer.AdvanceRead? && !s.consumer.PublishPacket?
    ensures !ConsumerStep(s).consumer.PublishPacket? && ConsumerStep(s).queues == s.queues
  {
    hide ReadSlot, NonEmpty;
  }

  lemma ConsumerKeepsItself(s: State)
    requires Inv(s)
    ensures ConsumerOk(ConsumerStep(s))
  {
    var t := ConsumerStep(s);
    ConsumerOnlyPops(s);
    StepsToCopying(s);
    if s.consumer.AdvanceRead? {
      PublishedSoFar(s);
    } else if s.consumer.PublishPacket? {
      PublishedNow(s);
    } else {
      PublishedElsewhere(s);
    }
    if !s.consumer.Waiting? && s.consumer.k < |s.queues| &&
       (s.consumer.TestEmpty? || s.consumer.CopyBaseTime? || s.consumer.CopyPointsNum? || s.consumer.CopyPoints?) {
      ConsumerCopies(s);
    }
    hide ConsumerStep, Ring, QueueOk, ProducerOk, CountOk, NoLostWakeup, NonEmpty;
    forall k, j | 0 <= k < |t.queues| && 0 <= j < |t.queues[k].pushed|
      ensures t.queues[k].pushed[j].pointsNum == |t.queues[k].pushed[j].points|
    {
      assert OnlyPopped(s.queues[k], t.queues[k]);
    }
  }

  lemma StepsToCopying(s: State)
    ensures Copying(ConsumerStep(s).consumer) ==>
              !s.consumer.Waiting? && s.consumer.k < |s.queues| &&
              (s.consumer.TestEmpty? || s.consumer.CopyBaseTime? || s.consumer.CopyPointsNum? || s.consumer.CopyPoints?)
  {
    hide ReadSlot;
  }

  lemma PublishedSoFar(s: State)
    requires ConsumerOk(s) && s.consumer.AdvanceRead? && |s.sampling| == |s.queues|
    ensures var k, t := s.consumer.k, ConsumerStep(s);
            && t.queues[k].popped == s.queues[k].popped + [s.consumer.p]
            && t.queues[k].popped[..|t.queues[k].popped| - 1] == s.queues[k].popped
            && t.consumer == PublishPacket(k, s.consumer.p) && t.queues[k].published == NonEmpty(s.queues[k].popped)
            && forall j :: 0 <= j < |s.queues| && j != k ==> t.queues[j] == s.queues[j]
  {
    hide NonEmpty;
  }

  lemma PublishedNow(s: State)
    requires ConsumerOk(s) && s.consumer.PublishPacket? && |s.sampling| == |s.queues|
    ensures var k, t := s.consumer.k, ConsumerStep(s);
            && t.queues[k].published == NonEmpty(t.queues[k].popped) && t.consumer == DrainQueue(k)
            && forall j :: 0 <= j < |s.queues| && j != k ==> t.queues[j] == s.queues[j]
  {
  }

  lemma ConsumerKeepsWakeupFor(s: State, j: nat)
    requires Inv(s) && j < |s.queues| && s.sampling[j]
    requires |ConsumerStep(s).queues| == |s.queues| && Nonempty(ConsumerStep(s), j) && Nonempty(s, j)
    ensures ConsumerStep(s).count == 1 || StillToCome(ConsumerStep(s).consumer, j) || AboutToSignal(ConsumerStep(s).producer, j)
  {
    hide Ring, ReadSlot, NonEmpty, And, ProducerOk, ConsumerOk;
    NonemptyIsRing(s, j);
    RingTests(s.queues[j], s.bits);
    RingIsReady(s.queues[j], s.bits);
  }

  /** A queue that has something after a step of the consumer had something before. */
  lemma NoPacketAppears(s: State, j: nat)
    requires Inv(s) && j < |s.queues| && |ConsumerStep(s).queues| == |s.queues| && Nonempty(ConsumerStep(s), j)
    ensures Nonempty(s, j)
  {
    hide ReadSlot, NonEmpty, Pow2, Window;
    assert QueueOk(s.queues[j], s.bits, Initializing(s, j));
    if s.consumer.AdvanceRead? && s.consumer.k == j {
      assert |s.queues[j].popped| < |s.queues[j].pushed|;
    }
  }

  lemma ConsumerKeepsWakeup(s: State)
    requires Inv(s)
    ensures CountOk(ConsumerStep(s)) && NoLostWakeup(ConsumerStep(s))
  {
    var t := ConsumerStep(s);
    ConsumerOnlyPops(s);
    assert CountOk(t);
    hide ConsumerStep, QueuesOk, ProducerOk, ConsumerOk;
    forall j | 0 <= j < |t.queues| && t.sampling[j] && Nonempty(t, j)
      ensures t.count == 1 || StillToCome(t.consumer, j) || AboutToSignal(t.producer, j)
    {
      NoPacketAppears(s, j);
      ConsumerKeepsWakeupFor(s, j);
    }
  }

  lemma ConsumerKeeps(s: State)
    requires Inv(s)
    ensures Inv(ConsumerStep(s))
  {
    hide QueuesOk, ProducerOk, ConsumerOk, CountOk, NoLostWakeup, ConsumerStep;
    ConsumerKeepsQueues(s);
    ConsumerKeepsProducer(s);
    ConsumerKeepsItself(s);
    ConsumerKeepsWakeup(s);
  }

  // ----- All runs -----

  lemma InitialInv(bits: nat, sampling: seq<bool>)
    requires bits < 32
    ensures Inv(Initial(bits, sampling))
  {
  }

  /** Whatever the two threads do, in whatever order, the invariant holds. */
  lemma {:induction false} RunsKeepInv(s: State, events: seq<Event>)
    requires Inv(s)
    ensures Inv(After(s, events))
    decreases |events|
  {
    if events != [] {
      var e := events[|events| - 1];
      RunsKeepInv(s, events[..|events| - 1]);
      var t := After(s, events[..|events| - 1]);
      hide Inv, ProducerStep, ConsumerStep, Accept;
      match e
      case Arrive(i, baseTime, points) => AcceptKeeps(t, i, baseTime, points);
      case ProducerMoves => ProducerKeeps(t);
      case ConsumerMoves => ConsumerKeeps(t);
    }
  }

  /** The states the two threads can reach. */
  ghost predicate Reachable(s: State) {
    exists bits: nat, sampling: seq<bool>, events: seq<Event> :: bits < 32 && s == After(Initial(bits, sampling), events)
  }

  lemma ReachableInv(s: State)
    requires Reachable(s)
    ensures Inv(s)
  {
    var bits: nat, sampling: seq<bool>, events: seq<Event> :| bits < 32 && s == After(Initial(bits, sampling), events);
    InitialInv(bits, sampling);
    RunsKeepInv(Initial(bits, sampling), events);
  }

  /** What comes out is a prefix of what went in, and what is published is all of it but the empty packets. */
  lemma BoundedFifo(s: State, i: nat)
    requires Reachable(s) && i < |s.queues|
    ensures var q := s.queues[i];
            && q.popped <= q.pushed
            && |q.pushed| - |q.popped| <= Pow2(s.bits)
            && (s.consumer.Waiting? || s.consumer.k != i ==> q.published == NonEmpty(q.popped))
  {
    ReachableInv(s);
    hide Window, And, NonEmpty;
    assert QueueOk(s.queues[i], s.bits, Initializing(s, i));
  }

  /** The slot the producer is writing is none of those the consumer may read. */
  lemma WritesApart(s: State, n: nat)
    requires Reachable(s) && Writing(s.producer) && s.producer.i < |s.queues|
    requires var q := s.queues[s.producer.i]; |q.popped| <= n < |q.pushed|
    ensures var q := s.queues[s.producer.i]; And(q.wrIdx, q.mask) != And(n % TWO32, q.mask)
  {
    ReachableInv(s);
    var q := s.queues[s.producer.i];
    hide And, Window, Pow2;
    assert QueueOk(q, s.bits, Initializing(s, s.producer.i));
    SlotOf(q, s.bits, |q.pushed|);
    SlotOf(q, s.bits, n);
    DifferentSlots(n, |q.pushed|, |q.slots|);
  }

  /** The packet being copied is never one being written, so it arrives whole. */
  lemma CopiesWhole(s: State)
    requires Reachable(s) && s.consumer.AdvanceRead? && s.consumer.k < |s.queues|
    ensures var q := s.queues[s.consumer.k]; |q.popped| < |q.pushed| && s.consumer.p == q.pushed[|q.popped|]
  {
    ReachableInv(s);
  }

  /** The semaphore is a binary one. */
  lemma BinarySemaphore(s: State)
    requires Reachable(s)
    ensures 0 <= s.count <= 1
  {
    ReachableInv(s);
  }

  /** No lost wake-up: a consumer that sleeps with no signal pending has nothing to do. */
  lemma SleepsOnlyWhenEmpty(s: State, i: nat)
    requires Reachable(s) && s.producer.Idle? && s.consumer.Waiting? && s.count == 0
    requires i < |s.queues| && i < |s.sampling| && s.sampling[i]
    ensures s.queues[i].popped == s.queues[i].pushed && s.queues[i].published == NonEmpty(s.queues[i].pushed)
  {
    ReachableInv(s);
    hide QueueOk, NonEmpty;
    assert !Nonempty(s, i);
  }

  // ----- Left alone, the consumer drains every queue -----

  function Unread(qs: seq<Queue>): nat
  {
    if qs == [] then 0
    else Unread(qs[..|qs| - 1]) + Difference(|qs[|qs| - 1].pushed|, |qs[|qs| - 1].popped|)
  }

  function Difference(a: nat, b: nat): nat {
    if a > b then a - b else 0
  }

  lemma {:induction false} OneRead(qs: seq<Queue>, k: nat, q: Queue)
    requires k < |qs| && |qs[k].popped| < |qs[k].pushed| && q.pushed == qs[k].pushed && |q.popped| == |qs[k].popped| + 1
    ensures Unread(qs[k := q]) + 1 == Unread(qs)
    decreases |qs|
  {
    var qs' := qs[k := q];
    if k == |qs| - 1 {
      assert qs'[..|qs| - 1] == qs[..|qs| - 1];
    } else {
      assert qs'[..|qs| - 1] == qs[..|qs| - 1][k := q];
      OneRead(qs[..|qs| - 1], k, q);
    }
  }

  lemma {:induction false} SameUnread(qs: seq<Queue>, k: nat, q: Queue)
    requires k < |qs| && q.pushed == qs[k].pushed && q.popped == qs[k].popped
    ensures Unread(qs[k := q]) == Unread(qs)
    decreases |qs|
  {
    var qs' := qs[k := q];
    if k == |qs| - 1 {
      assert qs'[..|qs| - 1] == qs[..|qs| - 1];
    } else {
      assert qs'[..|qs| - 1] == qs[..|qs| - 1][k := q];
      SameUnread(qs[..|qs| - 1], k, q);
    }
  }

  /** How far into its visit of one queue the consumer is, given whether that queue is empty. */
  function Progress(c: Consumer, empty: bool): (n: nat)
    ensures n <= 11
  {
    match c
    case Waiting => 0
    case Sweep(_) => 0
    case CheckReady(_) => 1
    case PollQueue(_) => if empty then 11 else 2
    case DrainQueue(_) => if empty then 10 else 3
    case TestEmpty(_) => if empty then 9 else 4
    case CopyBaseTime(_) => 5
    case CopyPointsNum(_, _) => 6
    case CopyPoints(_, _, _) => 7
    case AdvanceRead(_, _) => 8
    case PublishPacket(_, _) => 2
  }

  /** How far the consumer is from the end of its sweep over `n` queues. */
  function Phase(c: Consumer, n: nat, empty: bool): nat {
    if c.Waiting? then 0
    else if c.k >= n then 1
    else 20 * (n - c.k) + 1 - Progress(c, empty)
  }

  predicate HereEmpty(s: State) {
    !s.consumer.Waiting? && s.consumer.k < |s.queues| && IsEmpty(s.queues[s.consumer.k])
  }

  function Rank(s: State): nat
    requires s.count >= 0
  {
    20 * Unread(s.queues) + Phase(s.consumer, |s.queues|, HereEmpty(s)) + s.count * (20 * |s.queues| + 2)
  }

  predicate Asleep(s: State) {
    s.consumer.Waiting? && s.count <= 0
  }

  lemma RankFalls(s: State)
    requires Inv(s) && !Asleep(s)
    ensures var t := ConsumerStep(s); t.count >= 0 && Rank(t) < Rank(s)
  {
    hide Ring, ReadSlot, NonEmpty, And, Unread;
    var t := ConsumerStep(s);
    if s.consumer.AdvanceRead? {
      OneRead(s.queues, s.consumer.k, t.queues[s.consumer.k]);
    } else if s.consumer.PublishPacket? {
      SameUnread(s.queues, s.consumer.k, t.queues[s.consumer.k]);
    }
  }

  function ConsumerRuns(s: State, n: nat): State {
    if n == 0 then s else ConsumerStep(ConsumerRuns(s, n - 1))
  }

  lemma {:induction false} RunsOn(s: State, n: nat)
    ensures ConsumerRuns(ConsumerStep(s), n) == ConsumerRuns(s, n + 1)
  {
    if n > 0 {
      RunsOn(s, n - 1);
    }
  }

  /** Everything pushed to the sampling lidars of `s` has been published in `t`. */
  ghost predicate Drained(s: State, t: State) {
    && |t.queues| == |s.queues| == |s.sampling|
    && forall i :: 0 <= i < |s.queues| && s.sampling[i] ==>
         t.queues[i].pushed == s.queues[i].pushed && t.queues[i].published == NonEmpty(s.queues[i].pushed)
  }

  lemma AsleepIsDrained(s: State)
    requires Inv(s) && s.producer.Idle? && Asleep(s)
    ensures Drained(s, s)
  {
    hide QueueOk, NonEmpty;
    forall i | 0 <= i < |s.queues| && s.sampling[i] ensures s.queues[i].published == NonEmpty(s.queues[i].pushed) {
      assert !Nonempty(s, i);
    }
  }

  lemma StepDrains(s: State, t: State)
    requires Inv(s) && Drained(ConsumerStep(s), t)
    ensures Drained(s, t)
  {
    ConsumerOnlyPops(s);
    hide ConsumerStep, NonEmpty, QueueOk;
    forall i | 0 <= i < |s.queues| ensures OnlyPopped(s.queues[i], ConsumerStep(s).queues[i]) {
    }
  }

  /**
   * With the producer outside PushLidarData the consumer goes to sleep after finitely many steps,
   * with everything pushed to a sampling lidar published.
   */
  lemma {:induction false} Drains(s: State) returns (n: nat)
    requires Inv(s) && s.producer.Idle?
    ensures Asleep(ConsumerRuns(s, n)) && Drained(s, ConsumerRuns(s, n))
    decreases Rank(s)
  {
    hide Inv, ConsumerStep, Drained, Rank, Asleep;
    if Asleep(s) {
      AsleepIsDrained(s);
      n := 0;
    } else {
      ConsumerKeeps(s);
      RankFalls(s);
      ConsumerOnlyPops(s);
      var m := Drains(ConsumerStep(s));
      RunsOn(s, m);
      n := m + 1;
      StepDrains(s, ConsumerRuns(s, n));
    }
  }
}
