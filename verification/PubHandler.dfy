/** Collecting points into frames, src/comm/pub_handler.cpp, and giving points their times back, src/lddc.cpp. */
module PubHandlers {
  import opened Powers
  import opened LidarQueues

  /** One lidar's part of a frame. */
  datatype PointPacket = PointPacket(handle: nat, baseTime: nat, points: seq<Point>)

  type Frame = seq<PointPacket>

  const MAX_SOURCE_LIDAR: nat := 32
  const NS_PER_MS: nat := 1000000

  // ----- What frames hold -----

  function OfFrame(f: Frame, id: nat): seq<Point> {
    if f == [] then [] else OfFrame(f[..|f| - 1], id) + PointsFor(f[|f| - 1], id)
  }

  function PointsFor(p: PointPacket, id: nat): seq<Point> {
    if p.handle == id then p.points else []
  }

  function OfFrames(fs: seq<Frame>, id: nat): seq<Point> {
    if fs == [] then [] else OfFrames(fs[..|fs| - 1], id) + OfFrame(fs[|fs| - 1], id)
  }

  lemma OneMoreFrame(fs: seq<Frame>, f: Frame, id: nat)
    ensures OfFrames(fs + [f], id) == OfFrames(fs, id) + OfFrame(f, id)
  {
    assert (fs + [f])[..|fs|] == fs;
  }

  lemma OneMorePacket(f: Frame, p: PointPacket, id: nat)
    ensures OfFrame(f + [p], id) == OfFrame(f, id) + PointsFor(p, id)
  {
    assert (f + [p])[..|f|] == f;
  }

  /** The base time of a packet is the time of its first point. */
  predicate Timed(p: PointPacket) {
    p.points != [] && p.baseTime == p.points[0].offsetTime
  }

  predicate AllTimed(f: Frame) {
    forall i :: 0 <= i < |f| ==> Timed(f[i])
  }

  /**
   * A frame as time synchronisation sends it: one lidar's points, the last of them in a millisecond that is a non-zero
   * multiple of the interval, and at least the tolerance after the first, in 64 bits.
   */
  predicate OnBoundary(f: Frame, intervalMs: nat, tolerance: nat)
    requires intervalMs > 0
  {
    && |f| == 1 && f[0].points != []
    && var first, last := f[0].points[0].offsetTime, f[0].points[|f[0].points| - 1].offsetTime;
       && last / 1000000 != 0 && (last / 1000000) % intervalMs == 0
       && (last - first) % 0x1_0000_0000_0000_0000 >= tolerance
  }

  /** The points of a raw packet, a fixed interval apart. */
  function Stamped(timeStamp: nat, interval: nat, data: seq<int>): seq<Point> {
    seq(|data|, i requires 0 <= i < |data| => Point((timeStamp + i * interval) % TWO64, data[i]))
  }

  function BaseTime(points: seq<Point>): nat {
    if points == [] then 0 else points[0].offsetTime
  }

  function RecentTime(points: seq<Point>): nat {
    if points == [] then 0 else points[|points| - 1].offsetTime
  }

  /** The points of a lidar in the frames and those still pending are all that came in, in order. */
  ghost predicate Kept(published: seq<Frame>, pending: map<nat, seq<Point>>, received: map<nat, seq<Point>>, id: nat) {
    if id in pending then id in received && OfFrames(published, id) + pending[id] == received[id]
    else id !in received && OfFrames(published, id) == []
  }

  ghost predicate Conserved(published: seq<Frame>, pending: map<nat, seq<Point>>, received: map<nat, seq<Point>>) {
    forall id: nat :: Kept(published, pending, received, id)
  }

  lemma NewLidar(published: seq<Frame>, pending: map<nat, seq<Point>>, received: map<nat, seq<Point>>, id: nat)
    requires Conserved(published, pending, received) && id !in pending
    ensures Conserved(published, pending[id := []], received[id := []])
  {
    var pending', received' := pending[id := []], received[id := []];
    forall j: nat ensures Kept(published, pending', received', j) {
      assert Kept(published, pending, received, j);
    }
  }

  lemma NewPoints(published: seq<Frame>, pending: map<nat, seq<Point>>, received: map<nat, seq<Point>>, id: nat, points: seq<Point>)
    requires Conserved(published, pending, received) && id in pending
    ensures id in received && Conserved(published, pending[id := pending[id] + points], received[id := received[id] + points])
  {
    hide OfFrames;
    assert Kept(published, pending, received, id);
    MorePoints(OfFrames(published, id), pending[id], points);
    var pending', received' := pending[id := pending[id] + points], received[id := received[id] + points];
    forall j: nat ensures Kept(published, pending', received', j) {
      assert Kept(published, pending, received, j);
    }
  }

  lemma MorePoints(f: seq<Point>, p: seq<Point>, q: seq<Point>)
    ensures f + (p + q) == (f + p) + q
  {
  }

  // ----- The handler -----

  class PubHandler {
    /** points_clouds_ of every LidarPubHandler */
    var pending: map<nat, seq<Point>>
    const frame: array<PointPacket>
    var lidarNum: nat
    var lastPubTime: int
    var first: bool
    const publishInterval: nat
    const publishIntervalMs: nat
    const publishIntervalTolerance: nat
    /** The frames given to the callback, and all points that came in for each lidar. */
    ghost var published: seq<Frame>
    /** Which of these were sent by the synchronised timer. */
    ghost var synchronised: seq<bool>
    ghost var received: map<nat, seq<Point>>

    /** No point is lost, doubled or out of order. */
    ghost predicate Valid()
      reads this, frame
    {
      && frame.Length == MAX_SOURCE_LIDAR && lidarNum == 0 && publishIntervalMs > 0
      && |pending| <= MAX_SOURCE_LIDAR
      && Conserved(published, pending, received)
      && (forall k :: 0 <= k < |published| ==> AllTimed(published[k]))
      && |synchronised| == |published|
      && (forall k :: 0 <= k < |published| && synchronised[k] ==>
            OnBoundary(published[k], publishIntervalMs, publishIntervalTolerance))
    }

    constructor (publishInterval: nat, publishIntervalMs: nat, publishIntervalTolerance: nat)
      requires publishIntervalMs > 0
      ensures Valid() && fresh(frame) && published == [] && received == map[] && first && frame.Length == 32
    {
      frame := new PointPacket[MAX_SOURCE_LIDAR](_ => PointPacket(0, 0, []));
      pending, received, published, synchronised := map[], map[], [], [];
      lidarNum, lastPubTime, first := 0, 0, true;
      this.publishInterval := publishInterval;
      this.publishIntervalMs := publishIntervalMs;
      this.publishIntervalTolerance := publishIntervalTolerance;
    }

    /** A new lidar starts with no points. */
    method FindOrCreate(id: nat)
      requires Valid() && |pending.Keys + {id}| <= MAX_SOURCE_LIDAR
      modifies this`pending, this`received
      ensures Valid() && pending.Keys == old(pending.Keys) + {id}
      ensures forall j :: j in old(received) ==> j in received && received[j] == old(received)[j]
      ensures id in received && (id !in old(received) ==> received[id] == [])
    {
      assert Kept(published, pending, received, id);
      hide Conserved, AllTimed;
      if id !in pending {
        NewLidar(published, pending, received, id);
        pending := pending[id := []];
        received := received[id := []];
      }
      assert pending.Keys == old(pending.Keys) + {id};
    }

    /** The loop over the points of one packet. */
    method PointCloudProcess(id: nat, timeStamp: nat, interval: nat, data: seq<int>)
      requires Valid() && id in pending
      modifies this`pending, this`received
      ensures id in old(received)
      ensures Valid() && received == old(received)[id := old(received)[id] + Stamped(timeStamp, interval, data)]
      ensures pending == old(pending)[id := old(pending)[id] + Stamped(timeStamp, interval, data)]
      ensures |pending[id]| == |old(pending)[id]| + |data|
      ensures forall i :: 0 <= i < |data| ==>
                pending[id][|old(pending)[id]| + i] == Point((timeStamp + i * interval) % 0x1_0000_0000_0000_0000, data[i])
    {
      assert Kept(published, pending, received, id);
      hide Conserved, AllTimed;
      ghost var all := Stamped(timeStamp, interval, data);
      ghost var p := old(pending)[id];
      assert p + all[..0] == p;
      for i := 0 to |data|
        invariant pending == old(pending)[id := p + all[..i]] && received == old(received)
      {
        var point := Point((timeStamp + i * interval) % TWO64, data[i]);
        assert p + all[..i + 1] == p + all[..i] + [point];
        pending := pending[id := pending[id] + [point]];
      }
      assert all[..|data|] == all;
      NewPoints(published, old(pending), received, id, all);
      received := received[id := received[id] + all];
      assert pending.Keys == old(pending).Keys;
    }

    /** `swap` with an emptied vector: the handler gives its points away and starts again. */
    method GetLidarPointClouds(id: nat) returns (points: seq<Point>)
      requires id in pending
      modifies this`pending
      ensures points == old(pending)[id] && pending == old(pending)[id := []]
    {
      points := pending[id];
      pending := pending[id := []];
    }

    method PutPacket(id: nat, baseTime: nat, points: seq<Point>)
      requires frame.Length == MAX_SOURCE_LIDAR && lidarNum < MAX_SOURCE_LIDAR
      modifies this`lidarNum, frame
      ensures lidarNum == old(lidarNum) + 1
      ensures frame[..lidarNum] == old(frame[..lidarNum]) + [PointPacket(id, baseTime, points)]
    {
      frame[lidarNum] := PointPacket(id, baseTime, points);
      lidarNum := lidarNum + 1;
    }

    /** The callback gets the packets of the frame. */
    method PublishPointCloud(ghost sync: bool)
      requires frame.Length == MAX_SOURCE_LIDAR && lidarNum <= MAX_SOURCE_LIDAR
      modifies this`published, this`synchronised, this`lidarNum
      ensures lidarNum == 0 && published == old(published) + [old(frame[..lidarNum])]
      ensures synchronised == old(synchronised) + [sync]
    {
      synchronised := synchronised + [sync];
      published := published + [frame[..lidarNum]];
      lidarNum := 0;
    }

    /** A frame is due when the newest point falls on a multiple of the interval, far enough from the oldest one. */
    predicate Due(points: seq<Point>)
      requires publishIntervalMs > 0
    {
      var recentMs := RecentTime(points) / NS_PER_MS;
      && recentMs % publishIntervalMs == 0 && recentMs != 0
      && (RecentTime(points) - BaseTime(points)) % TWO64 >= publishIntervalTolerance
    }

    /** CheckTimer with synchronised time stamps: this lidar's points leave in a frame of their own when it is due. */
    method CheckTimerSync(id: nat)
      requires Valid() && id in pending
      modifies this`pending, this`published, this`synchronised, this`lidarNum, frame
      ensures Valid()
      ensures published != old(published) ==> synchronised == old(synchronised) + [true]
      ensures var points := old(pending)[id];
              if points != [] && Due(points) then
                && published == old(published) + [[PointPacket(id, BaseTime(points), points)]]
                && pending == old(pending)[id := []]
              else published == old(published) && pending == old(pending)
      ensures pending[id] != [] ==> !OnBoundary([PointPacket(id, 0, pending[id])], publishIntervalMs, publishIntervalTolerance)
    {
      hide Conserved;
      if !Due(pending[id]) {
        return;
      }
      var baseTime := BaseTime(pending[id]);
      var points := GetLidarPointClouds(id);
      if points == [] {
        return;
      }
      PutPacket(id, baseTime, points);
      assert frame[..lidarNum] == [PointPacket(id, baseTime, points)];
      PublishPointCloud(true);
      OnePacketLeaves(old(published), old(pending), received, id);
      assert pending.Keys == old(pending).Keys;
    }

    /** One turn of the loop over the handlers: points there are go into the frame. */
    method TakePart(id: nat, ghost before: map<nat, seq<Point>>, ghost done: set<nat>)
      requires frame.Length == MAX_SOURCE_LIDAR && lidarNum <= |done| < MAX_SOURCE_LIDAR
      requires id in pending && id !in done && id in before && pending[id] == before[id]
      requires Holds(frame[..lidarNum], before, done)
      modifies this`pending, this`lidarNum, frame
      ensures pending == old(pending)[id := []]
      ensures lidarNum <= |done + {id}| && Holds(frame[..lidarNum], before, done + {id})
    {
      hide Holds;
      var baseTime := BaseTime(pending[id]);
      var points := GetLidarPointClouds(id);
      if points != [] {
        ghost var f := frame[..lidarNum];
        PutPacket(id, baseTime, points);
        PartTaken(f, before, done, id);
      } else {
        NothingTaken(frame[..lidarNum], before, done, id);
      }
    }

    /** All handlers give their points to one frame, in whatever order the map holds them. */
    method TakeAll()
      requires Valid()
      modifies this`pending, this`lidarNum, frame
      ensures lidarNum <= MAX_SOURCE_LIDAR
      ensures pending.Keys == old(pending).Keys && forall j :: j in pending ==> pending[j] == []
      ensures Holds(frame[..lidarNum], old(pending), old(pending).Keys)
    {
      hide Holds, Conserved, AllTimed, Midway;
      var todo := pending.Keys;
      ghost var all := pending;
      ghost var done: set<nat> := {};
      NothingGathered(frame[..lidarNum], pending);
      MidwayStart(all);
      while todo != {}
        invariant Midway(all, todo, done, pending) && lidarNum <= |done| && lidarNum <= MAX_SOURCE_LIDAR && |all| <= MAX_SOURCE_LIDAR
        invariant Holds(frame[..lidarNum], all, done)
        decreases |todo|
      {
        var id :| id in todo;
        MidwayNext(all, todo, done, pending, id);
        TakePart(id, all, done);
        todo := todo - {id};
        done := done + {id};
      }
      MidwayEnd(all, done, pending);
    }

    /** CheckTimer without synchronised time stamps: once per interval all pending points leave in one frame. */
    method CheckTimerFree(now: int)
      requires Valid()
      modifies this`pending, this`published, this`synchronised, this`lidarNum, this`lastPubTime, this`first, frame
      ensures Valid() && pending.Keys == old(pending).Keys
      ensures if !old(first) && now - old(lastPubTime) >= publishInterval then
                && |published| == |old(published)| + 1 && published[..|old(published)|] == old(published)
                && (forall id :: id in pending ==> pending[id] == [])
                && lastPubTime == old(lastPubTime) + publishInterval
              else published == old(published) && pending == old(pending) && lastPubTime == if old(first) then now else old(lastPubTime)
      ensures !first
    {
      if first {
        lastPubTime := now;
        first := false;
        return;
      }
      if now - lastPubTime < publishInterval {
        return;
      }
      hide Conserved, Holds;
      lastPubTime := lastPubTime + publishInterval;
      TakeAll();
      HoldsTimed(frame[..lidarNum], old(pending), old(pending).Keys);
      PublishPointCloud(false);
      AllLeave(old(published), published[|published| - 1], old(pending), pending, received);
    }

    /** One raw packet: its points are taken in, then the timer is looked at. */
    method ProcessPacket(id: nat, timeStamp: nat, interval: nat, data: seq<int>, sync: bool, now: int)
      requires Valid() && |pending.Keys + {id}| <= MAX_SOURCE_LIDAR
      modifies this, frame
      ensures Valid()
      ensures pending.Keys == old(pending.Keys) + {id}
      ensures id in received && received[id] == (if id in old(received) then old(received)[id] else []) + Stamped(timeStamp, interval, data)
      ensures forall j :: j in old(received) && j != id ==> j in received && received[j] == old(received)[j]
      ensures old(published) <= published
      ensures sync && published != old(published) ==> synchronised == old(synchronised) + [true]
      ensures sync && pending[id] != [] ==>
                !OnBoundary([PointPacket(id, 0, pending[id])], publishIntervalMs, publishIntervalTolerance)
      ensures !sync ==> !first && (published != old(published) <==> !old(first) && now - old(lastPubTime) >= publishInterval)
      ensures !sync && published != old(published) ==>
                |published| == |old(published)| + 1 && forall j :: j in pending ==> pending[j] == []
    {
      hide Conserved, AllTimed, Stamped;
      FindOrCreate(id);
      PointCloudProcess(id, timeStamp, interval, data);
      if sync {
        CheckTimerSync(id);
      } else {
        CheckTimerFree(now);
      }
    }
  }

  /** What the lidars in `done` had pending. */
  function Gathered(pending: map<nat, seq<Point>>, done: set<nat>, id: nat): seq<Point> {
    if id in done && id in pending then pending[id] else []
  }

  /** The frame holds what the lidars in `done` had pending, and no other points. */
  ghost predicate Holds(f: Frame, pending: map<nat, seq<Point>>, done: set<nat>) {
    AllTimed(f) && forall j: nat :: OfFrame(f, j) == Gathered(pending, done, j)
  }

  /** The points of one lidar move from its handler to a frame. */
  lemma OnePacketLeaves(published: seq<Frame>, pending: map<nat, seq<Point>>, received: map<nat, seq<Point>>, id: nat)
    requires id in pending && Conserved(published, pending, received)
    ensures Conserved(published + [[PointPacket(id, BaseTime(pending[id]), pending[id])]], pending[id := []], received)
  {
    hide OfFrames, OfFrame;
    var p := PointPacket(id, BaseTime(pending[id]), pending[id]);
    var pending', published' := pending[id := []], published + [[p]];
    forall j: nat ensures Kept(published', pending', received, j) {
      assert Kept(published, pending, received, j);
      OnePacketFrame(published, p, j);
      assert j == id ==> received[j] + [] == received[j];
      assert j != id ==> OfFrames(published, j) + [] == OfFrames(published, j);
    }
  }

  lemma OnePacketFrame(published: seq<Frame>, p: PointPacket, j: nat)
    ensures OfFrames(published + [[p]], j) == OfFrames(published, j) + PointsFor(p, j)
  {
    OneMoreFrame(published, [p], j);
    assert [p] == [] + [p];
    OneMorePacket([], p, j);
    assert OfFrame([], j) + PointsFor(p, j) == PointsFor(p, j);
  }

  lemma HoldsTimed(f: Frame, pending: map<nat, seq<Point>>, done: set<nat>)
    requires Holds(f, pending, done)
    ensures AllTimed(f)
  {
  }

  lemma PartTaken(f: Frame, before: map<nat, seq<Point>>, done: set<nat>, id: nat)
    requires id in before && id !in done && before[id] != [] && Holds(f, before, done)
    ensures Holds(f + [PointPacket(id, BaseTime(before[id]), before[id])], before, done + {id})
  {
    var p := PointPacket(id, BaseTime(before[id]), before[id]);
    forall j: nat ensures OfFrame(f + [p], j) == Gathered(before, done + {id}, j) {
      OneMorePacket(f, p, j);
    }
  }

  lemma NothingTaken(f: Frame, before: map<nat, seq<Point>>, done: set<nat>, id: nat)
    requires id in before && before[id] == [] && Holds(f, before, done)
    ensures Holds(f, before, done + {id})
  {
    forall j: nat ensures Gathered(before, done + {id}, j) == Gathered(before, done, j) {
    }
  }

  lemma NothingGathered(f: Frame, pending: map<nat, seq<Point>>)
    requires f == []
    ensures Holds(f, pending, {})
  {
  }

  /** The lidars in `todo` have their points still pending, those in `done` have none left. */
  ghost predicate Midway(all: map<nat, seq<Point>>, todo: set<nat>, done: set<nat>, pending: map<nat, seq<Point>>) {
    && todo <= all.Keys == pending.Keys && done == all.Keys - todo
    && forall j :: j in pending ==> pending[j] == if j in todo then all[j] else []
  }

  lemma MidwayStart(all: map<nat, seq<Point>>)
    ensures Midway(all, all.Keys, {}, all)
  {
  }

  lemma MidwayNext(all: map<nat, seq<Point>>, todo: set<nat>, done: set<nat>, pending: map<nat, seq<Point>>, id: nat)
    requires Midway(all, todo, done, pending) && id in todo
    ensures id in pending && id in all && id !in done && pending[id] == all[id] && |done| < |all|
    ensures Midway(all, todo - {id}, done + {id}, pending[id := []])
  {
    Fewer(done, id, all.Keys);
  }

  lemma Fewer(done: set<nat>, id: nat, all: set<nat>)
    requires id in all && id !in done && done <= all
    ensures |done| < |all|
  {
    assert all == (all - done) + done;
    assert id in all - done;
  }

  lemma MidwayEnd(all: map<nat, seq<Point>>, done: set<nat>, pending: map<nat, seq<Point>>)
    requires Midway(all, {}, done, pending)
    ensures done == all.Keys == pending.Keys && |done| == |all| && forall j :: j in pending ==> pending[j] == []
  {
  }

  /** All pending points move to one frame. */
  lemma AllLeave(published: seq<Frame>, f: Frame, pending: map<nat, seq<Point>>, pending': map<nat, seq<Point>>, received: map<nat, seq<Point>>)
    requires Conserved(published, pending, received) && pending'.Keys == pending.Keys
    requires forall j :: j in pending' ==> pending'[j] == []
    requires Holds(f, pending, pending.Keys)
    ensures Conserved(published + [f], pending', received)
  {
    hide OfFrames, OfFrame, AllTimed;
    forall j: nat ensures Kept(published + [f], pending', received, j) {
      assert Kept(published, pending, received, j);
      OneMoreFrame(published, f, j);
      assert OfFrame(f, j) == Gathered(pending, pending.Keys, j);
      assert j in pending ==> received[j] + [] == received[j];
      assert j !in pending ==> OfFrames(published, j) + [] == OfFrames(published, j);
    }
  }

  // ----- Times, from the frame to the message and back -----

  /** FillPointsToCustomMsg keeps 32 bits of the distance from the base time. */
  function OffsetTime(time: nat, baseTime: nat): nat {
    (time - baseTime) % TWO64 % TWO32
  }

  function RestoredTime(baseTime: nat, offset: nat): nat {
    (baseTime + offset) % TWO64
  }

  /** The message gives a point its time back exactly when the point is less than 2^32 ns after the base time. */
  lemma TimeSurvives(time: nat, baseTime: nat)
    requires time < TWO64 && baseTime < TWO64
    ensures RestoredTime(baseTime, OffsetTime(time, baseTime)) == time <==> (time - baseTime) % TWO64 < TWO32
    ensures OffsetTime(time, baseTime) == (time - baseTime) % 0x1_0000_0000
  {
    var d := (time - baseTime) % TWO64;
    assert (baseTime + d) % TWO64 == time;
    if d >= TWO32 {
      assert d % TWO32 < d;
    }
  }

  /** What the custom message holds of a packet: the restored times of its points. */
  method FillPoints(p: StoragePacket) returns (times: seq<nat>)
    requires p.pointsNum == |p.points| && p.baseTime < TWO64
    requires forall i :: 0 <= i < |p.points| ==> p.points[i].offsetTime < TWO64
    ensures |times| == |p.points|
    ensures forall i :: 0 <= i < |p.points| ==> times[i] == (p.points[i].offsetTime - p.baseTime) % 0x1_0000_0000
    ensures forall i :: 0 <= i < |p.points| ==>
              (RestoredTime(p.baseTime, times[i]) == p.points[i].offsetTime <==>
               (p.points[i].offsetTime - p.baseTime) % TWO64 < TWO32)
  {
    times := [];
    for i := 0 to p.pointsNum
      invariant |times| == i
      invariant forall k :: 0 <= k < i ==> times[k] == OffsetTime(p.points[k].offsetTime, p.baseTime)
    {
      times := times + [OffsetTime(p.points[i].offsetTime, p.baseTime)];
    }
    forall i | 0 <= i < |p.points|
      ensures times[i] == (p.points[i].offsetTime - p.baseTime) % 0x1_0000_0000
      ensures RestoredTime(p.baseTime, times[i]) == p.points[i].offsetTime <==>
              (p.points[i].offsetTime - p.baseTime) % TWO64 < TWO32
    {
      TimeSurvives(p.points[i].offsetTime, p.baseTime);
    }
  }
}
