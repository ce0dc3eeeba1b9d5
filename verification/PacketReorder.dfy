/** The reordering in front of the rolling window (src/analysis/ipdsanalysis.cpp:316-389): packets wait in a priority
    queue until nothing earlier can come any more. */
module PacketReorder {
  import opened Bytes
  import opened RollingWindow

  const MIN_INT64 := -0x8000_0000_0000_0000

  ghost predicate IsTop(pending: multiset<Packet>, p: Packet) {
    p in pending && forall q :: q in pending ==> p.time <= q.time
  }

  lemma {:induction false} TopExists(pending: multiset<Packet>)
    requires pending != multiset{}
    ensures exists p :: IsTop(pending, p)
    decreases |pending|
  {
    var q :| q in pending;
    var rest := pending - multiset{q};
    if rest == multiset{} {
      assert forall r :: r in pending ==> r == q || r in rest;
      assert IsTop(pending, q);
    } else {
      TopExists(rest);
      var p :| IsTop(rest, p);
      assert forall r :: r in pending ==> r == q || r in rest;
      assert IsTop(pending, if q.time <= p.time then q else p);
    }
  }

  /** How a row ends: taken, refused as too late, or stopped by a failing internal check. */
  datatype Outcome = Taken | TooLate | Failed

  ghost predicate AllFrom(ps: multiset<Packet>, lo: int) {
    forall p :: p in ps ==> p.time >= lo
  }

  ghost predicate AllUpTo(ps: multiset<Packet>, hi: int) {
    forall p :: p in ps ==> p.time <= hi
  }

  /** The packets handed over, in order and up to floor, and those that wait, from floor on, are all packets. */
  ghost predicate Divided(processed: seq<Packet>, pending: multiset<Packet>, all: multiset<Packet>, floor: int) {
    && multiset(processed) + pending == all
    && Ordered(processed) && LastTime(processed, floor) <= floor && AllFrom(pending, floor)
  }

  lemma TakeTop(processed: seq<Packet>, pending: multiset<Packet>, all: multiset<Packet>, floor: int, top: Packet)
    requires Divided(processed, pending, all, floor) && IsTop(pending, top)
    ensures Divided(processed + [top], pending - multiset{top}, all, top.time) && floor <= top.time
  {
    OrderedAppend(processed, top);
    assert multiset(processed + [top]) == multiset(processed) + multiset{top};
  }

  lemma ProcessedUpTo(processed: seq<Packet>, floor: int, p: Packet)
    requires Ordered(processed) && LastTime(processed, floor) <= floor && p in processed
    ensures p.time <= floor
  {
    var i :| 0 <= i < |processed| && processed[i] == p;
    assert InOrder(processed, i, |processed| - 1);
  }

  /** Everything behind the limit still waits. */
  ghost predicate LaterWait(all: multiset<Packet>, pending: multiset<Packet>, limit: int) {
    forall p :: p in all && p.time > limit ==> p in pending
  }

  /** Nothing that waits is earlier than the limit once the top is behind it. */
  lemma NothingDue(processed: seq<Packet>, pending: multiset<Packet>, all: multiset<Packet>, floor: int, limit: int)
    requires Divided(processed, pending, all, floor) && floor <= limit
    requires pending == multiset{} || exists top :: IsTop(pending, top) && top.time > limit
    ensures Divided(processed, pending, all, limit) && AllFrom(pending, limit + 1)
    ensures LaterWait(all, pending, limit)
  {
    forall p | p in pending
      ensures p.time > limit
    {
      var top :| IsTop(pending, top) && top.time > limit;
    }
    forall p | p in all && p.time > limit
      ensures p in pending
    {
      if p in processed {
        ProcessedUpTo(processed, floor, p);
      }
    }
  }

  /** Everything is handed over exactly when everything that waited was due. */
  lemma Emptied(was: multiset<Packet>, pending: multiset<Packet>, all: multiset<Packet>, limit: int)
    requires pending <= was <= all && AllFrom(pending, limit + 1)
    requires LaterWait(all, pending, limit)
    ensures pending == multiset{} <==> AllUpTo(was, limit)
  {
    forall p | p in pending
      ensures p in was && p.time > limit
    {
    }
    forall p | p in was && p.time > limit
      ensures p in pending
    {
      assert p in all;
    }
  }

  lemma AddPacket(processed: seq<Packet>, pending: multiset<Packet>, all: multiset<Packet>, floor: int, p: Packet)
    requires Divided(processed, pending, all, floor) && p.time >= floor
    ensures Divided(processed, pending + multiset{p}, all + multiset{p}, floor)
  {
    assert multiset(processed) + (pending + multiset{p}) == all + multiset{p};
  }

  lemma BoundsAfter(pending: multiset<Packet>, p: Packet, lo: int, hi: int)
    ensures AllFrom(pending, lo) && p.time >= lo ==> AllFrom(pending + multiset{p}, lo)
    ensures AllUpTo(pending, hi) && p.time <= hi ==> AllUpTo(pending + multiset{p}, hi)
  {
  }

  /** The largest time seen is that of a packet which still waits, once it is above the 0 it starts with. */
  ghost predicate MaxWaits(pending: multiset<Packet>, maxTime: int, latest: Packet) {
    && maxTime >= 0 && AllUpTo(pending, maxTime)
    && (maxTime > 0 ==> latest in pending && latest.time == maxTime)
  }

  lemma MaxAfter(pending: multiset<Packet>, maxTime: int, latest: Packet, p: Packet)
    requires MaxWaits(pending, maxTime, latest)
    ensures p.time > maxTime ==> MaxWaits(pending + multiset{p}, p.time, p)
    ensures p.time <= maxTime ==> MaxWaits(pending + multiset{p}, maxTime, latest)
  {
  }

  /** No packet is earlier than the start, which is the time of the first one and well behind the latest. */
  ghost predicate StartHolds(first: Packet, all: multiset<Packet>, maxTime: int, last: int, reorder: int) {
    && first.time <= last <= maxTime - reorder && -reorder <= last
    && AllFrom(all, first.time) && first in all && maxTime - first.time >= 2 * reorder
  }

  /** Before the windows start, the packets span less than twice the reordering time. */
  ghost predicate Started(
      start: Option<int>, first: Packet, processed: seq<Packet>, pending: multiset<Packet>, all: multiset<Packet>,
      maxTime: int, last: int, reorder: int)
  {
    match start
    case None => processed == [] && last == MIN_INT64 && AllFrom(pending, maxTime - 2 * reorder + 1)
    case Some(at) => at == first.time && StartHolds(first, all, maxTime, last, reorder)
  }

  lemma MaxStays(
      pending: multiset<Packet>, was: multiset<Packet>, all: multiset<Packet>, limit: int, maxTime: int, latest: Packet)
    requires MaxWaits(was, maxTime, latest) && maxTime > limit
    requires pending <= was <= all && LaterWait(all, pending, limit)
    ensures MaxWaits(pending, maxTime, latest)
  {
    assert forall p :: p in pending ==> p in was;
    if maxTime > 0 {
      assert latest in all && latest in pending;
    }
  }

  /** All packets are at least the reordering time before 0, and one of them is so twice.  The largest time seen counts
      from 0, so that then everything is handed over although something should still wait. */
  ghost predicate AllLongBefore(all: multiset<Packet>, reorder: int) {
    AllUpTo(all, -reorder) && exists p :: p in all && p.time <= -2 * reorder
  }

  /** Something is due, and then nothing is left, exactly in that case. */
  lemma DueAndAllUp(pending: multiset<Packet>, maxTime: int, latest: Packet, reorder: int, top: Packet)
    requires MaxWaits(pending, maxTime, latest) && IsTop(pending, top) && reorder > 0
    ensures maxTime - top.time >= 2 * reorder && AllUpTo(pending, maxTime - reorder)
       <==> AllLongBefore(pending, reorder)
  {
    if AllLongBefore(pending, reorder) {
      var p :| p in pending && p.time <= -2 * reorder;
      assert maxTime == 0;
    }
  }

  /** While the windows have not started, all packets wait; afterwards a packet that is not too late is not that long
      before 0. */
  lemma SameLongBefore(
      start: Option<int>, first: Packet, processed: seq<Packet>, pending: multiset<Packet>, all: multiset<Packet>,
      maxTime: int, last: int, reorder: int, p: Packet)
    requires Divided(processed, pending, all, last) && p in pending && p.time > last
    requires start.None? ==> processed == []
    requires start.Some? ==> StartHolds(first, all, maxTime, last, reorder)
    ensures AllLongBefore(pending, reorder) <==> AllLongBefore(all, reorder)
  {
    if start.Some? {
      assert p in all && p.time > -reorder;
    } else {
      assert multiset(processed) == multiset{} && pending == all;
    }
  }

  lemma StartStillHolds(
      first: Packet, all: multiset<Packet>, maxTime: int, last: int, reorder: int, p: Packet, max': int)
    requires StartHolds(first, all, maxTime, last, reorder) && p.time > last && max' >= maxTime
    ensures StartHolds(first, all + multiset{p}, max', last, reorder)
  {
    BoundsAfter(all, p, first.time, 0);
  }

  /** When the span is reached for the first time, the windows start at the earliest packet. */
  lemma StartsAtTop(
      pending: multiset<Packet>, all: multiset<Packet>, maxTime: int, last: int, reorder: int, top: Packet)
    requires reorder > 0 && Divided([], pending, all, last) && IsTop(pending, top)
    requires maxTime - top.time >= 2 * reorder && maxTime >= 0
    ensures StartHolds(top, all, maxTime, maxTime - reorder, reorder) && last <= maxTime - reorder
  {
    assert all == pending;
  }

  class IPRollingPacketStatistics {
    const reorder: int
    var pending: multiset<Packet>
    var maxTime: int
    var lastProcessTime: int
    /** The start of the rolling windows, None while bw_info is empty. */
    var windowStart: Option<int>
    /** What the rolling windows have been given, in that order. */
    var processed: seq<Packet>
    ghost var accepted: multiset<Packet>
    ghost var latest: Packet
    ghost var first: Packet

    ghost predicate Valid()
      reads this
    {
      && reorder > 0
      && Divided(processed, pending, accepted, lastProcessTime) && AllFrom(pending, lastProcessTime + 1)
      && MaxWaits(pending, maxTime, latest)
      && Started(windowStart, first, processed, pending, accepted, maxTime, lastProcessTime, reorder)
    }

    constructor (reorder: int)
      requires reorder > 0
      ensures Valid() && accepted == multiset{} && processed == [] && this.reorder == reorder
    {
      this.reorder := reorder;
      pending, maxTime, lastProcessTime, windowStart, processed := multiset{}, 0, MIN_INT64, None, [];
      accepted, latest, first := multiset{}, Packet(0, 0), Packet(0, 0);
    }

    method Top() returns (p: Packet)
      requires pending != multiset{}
      ensures IsTop(pending, p)
    {
      TopExists(pending);
      assert exists p :: p in pending && forall q :: q in pending ==> p.time <= q.time by {
        var p :| IsTop(pending, p);
      }
      p :| p in pending && forall q :: q in pending ==> p.time <= q.time;
    }

    /** Hands over everything up to the limit, earliest first. */
    method ProcessPendingPackets(limit: int, ghost all: multiset<Packet>, ghost from: int)
      requires Divided(processed, pending, all, from) && from <= limit
      modifies `pending, `processed
      ensures Divided(processed, pending, all, limit) && AllFrom(pending, limit + 1)
      ensures old(processed) <= processed && pending <= old(pending)
      ensures LaterWait(all, pending, limit)
      ensures pending == multiset{} <==> AllUpTo(old(pending), limit)
    {
      ghost var floor, was := from, pending;
      while pending != multiset{}
        invariant Divided(processed, pending, all, floor) && floor <= limit
        invariant old(processed) <= processed && pending <= old(pending)
        decreases |pending|
      {
        var top := Top();
        if top.time > limit {
          break;
        }
        TakeTop(processed, pending, all, floor, top);
        processed := processed + [top];
        pending := pending - multiset{top};
        floor := top.time;
      }
      NothingDue(processed, pending, all, floor, limit);
      Emptied(was, pending, all, limit);
    }

    /** A packet behind the last processed time joins those that wait. */
    method Accept(p: Packet)
      requires Divided(processed, pending, accepted, lastProcessTime) && AllFrom(pending, lastProcessTime + 1)
      requires MaxWaits(pending, maxTime, latest) && p.time > lastProcessTime
      modifies `pending, `maxTime, `accepted, `latest
      ensures accepted == old(accepted) + multiset{p} && pending == old(pending) + multiset{p}
      ensures maxTime == if p.time > old(maxTime) then p.time else old(maxTime)
      ensures Divided(processed, pending, accepted, lastProcessTime) && AllFrom(pending, lastProcessTime + 1)
      ensures MaxWaits(pending, maxTime, latest)
    {
      ghost var more := pending + multiset{p};
      AddPacket(processed, pending, accepted, lastProcessTime, p);
      BoundsAfter(pending, p, lastProcessTime + 1, maxTime);
      MaxAfter(pending, maxTime, latest, p);
      assert AllFrom(more, lastProcessTime + 1);
      pending := pending + multiset{p};
      accepted := accepted + multiset{p};
      if p.time > maxTime {
        maxTime, latest := p.time, p;
      }
    }

    /** When the packets span twice the reordering time for the first time, the windows start at the earliest. */
    method StartWindows(top: Packet)
      requires reorder > 0 && IsTop(pending, top) && maxTime - top.time >= 2 * reorder && maxTime >= 0
      requires Divided(processed, pending, accepted, lastProcessTime)
      requires windowStart.None? ==> processed == []
      requires windowStart.Some? ==>
        windowStart.value == first.time && StartHolds(first, accepted, maxTime, lastProcessTime, reorder)
      modifies `windowStart, `first
      ensures windowStart == Some(first.time) && StartHolds(first, accepted, maxTime, maxTime - reorder, reorder)
      ensures lastProcessTime <= maxTime - reorder
    {
      if windowStart.None? {
        StartsAtTop(pending, accepted, maxTime, lastProcessTime, reorder, top);
        windowStart, first := Some(top.time), top;
      }
    }

    /** Everything but the last reordering time is handed over; then something must be left. */
    method ProcessDue() returns (ok: bool)
      requires windowStart == Some(first.time) && StartHolds(first, accepted, maxTime, maxTime - reorder, reorder)
      requires Divided(processed, pending, accepted, lastProcessTime) && lastProcessTime <= maxTime - reorder
      requires MaxWaits(pending, maxTime, latest) && reorder > 0
      modifies `pending, `processed, `lastProcessTime
      ensures Valid() && old(processed) <= processed && lastProcessTime == maxTime - reorder
      ensures ok <==> !AllUpTo(old(pending), maxTime - reorder)
    {
      ghost var was := pending;
      ProcessPendingPackets(maxTime - reorder, accepted, lastProcessTime);
      lastProcessTime := maxTime - reorder;
      assert was <= accepted;
      MaxStays(pending, was, accepted, lastProcessTime, maxTime, latest);
      ok := pending != multiset{};
    }

    /** Hands over what has become due, if anything. */
    method ProcessIfDue() returns (ok: bool)
      requires reorder > 0 && pending != multiset{}
      requires Divided(processed, pending, accepted, lastProcessTime) && AllFrom(pending, lastProcessTime + 1)
      requires MaxWaits(pending, maxTime, latest)
      requires windowStart.None? ==> processed == [] && lastProcessTime == MIN_INT64
      requires windowStart.Some? ==>
        windowStart.value == first.time && StartHolds(first, accepted, maxTime, lastProcessTime, reorder)
      modifies `pending, `processed, `windowStart, `lastProcessTime, `first
      ensures old(processed) <= processed && maxTime == old(maxTime)
      ensures ok ==> Valid() && AllFrom(pending, maxTime - 2 * reorder + 1)
      ensures ok <==> !AllLongBefore(old(pending), reorder)
    {
      ghost var was := pending;
      var top := Top();
      DueAndAllUp(was, maxTime, latest, reorder, top);
      if maxTime - top.time >= 2 * reorder {
        StartWindows(top);
        ok := ProcessDue();
      } else {
        ok := true;
      }
    }

    /** What has been handed over is at least the reordering time behind the largest time seen. */
    lemma NotTooEarly()
      requires Valid()
      ensures AllUpTo(multiset(processed), maxTime - reorder)
    {
      forall p | p in processed
        ensures p.time <= maxTime - reorder
      {
        ProcessedUpTo(processed, lastProcessTime, p);
      }
    }

    /** A packet at or below the last processed time is refused.  Every other packet is taken, and the check that some
        packet still waits fails exactly when all packets so far are at least the reordering time before 0, and one of
        them twice that time.  Afterwards no packet waits that is twice the reordering time behind the largest time seen,
        and none has been handed over that is less than that time behind it. */
    method ReorderProcessRow(p: Packet) returns (r: Outcome)
      requires Valid() && p.time >= MIN_INT64
      modifies this
      ensures r.TooLate? <==> p.time <= old(lastProcessTime)
      ensures r.TooLate? ==> Valid() && accepted == old(accepted) && processed == old(processed)
      ensures !r.TooLate? ==> accepted == old(accepted) + multiset{p} && old(processed) <= processed
      ensures r.Taken? ==> Valid() && maxTime == if p.time > old(maxTime) then p.time else old(maxTime)
      ensures r.Taken? ==> AllFrom(pending, maxTime - 2 * reorder + 1)
      ensures r.Taken? ==> AllUpTo(multiset(processed), maxTime - reorder)
      ensures r.Failed? <==> p.time > old(lastProcessTime) && AllLongBefore(old(accepted) + multiset{p}, reorder)
    {
      if !(p.time > lastProcessTime) {
        return TooLate;
      }
      ghost var all, max := accepted, maxTime;
      Accept(p);
      if windowStart.Some? {
        StartStillHolds(first, all, max, lastProcessTime, reorder, p, maxTime);
      }
      assert p in pending;
      SameLongBefore(windowStart, first, processed, pending, accepted, maxTime, lastProcessTime, reorder, p);
      var ok := ProcessIfDue();
      r := if ok then Taken else Failed;
      if ok {
        NotTooEarly();
      }
    }

    /** The end of the input: everything is handed over.  It fails exactly when there are packets, but all of them lie
        within less than twice the reordering time of the largest time seen, which counts from 0, so that the windows
        were never started. */
    method CompleteProcessing() returns (r: Outcome)
      requires Valid()
      modifies this
      ensures !r.TooLate? && accepted == old(accepted)
      ensures r.Failed? <==> accepted != multiset{} && AllFrom(accepted, maxTime - 2 * reorder + 1)
      ensures r.Taken? ==> pending == multiset{} && multiset(processed) == accepted && Ordered(processed)
      ensures old(processed) <= processed && maxTime == old(maxTime)
    {
      if windowStart.None? {
        assert multiset(processed) == multiset{} && pending == accepted;
        if pending != multiset{} {
          return Failed;
        }
      } else {
        assert first in accepted;
      }
      ProcessPendingPackets(maxTime, accepted, lastProcessTime);
      r := Taken;
    }
  }

  lemma NextInOrder(ps: seq<Packet>, i: nat)
    requires Ordered(ps) && i < |ps|
    ensures ps[..i + 1] == ps[..i] + [ps[i]]
    ensures i > 0 ==> ps[i - 1].time <= ps[i].time
  {
    assert InOrder(ps, i - 1, i);
  }

  /** What has been handed over never fails the order check of a window that starts where the module starts it. */
  method FillWindow(w: BandwidthRolling, ps: seq<Packet>)
    requires w.Valid() && w.Stream() == [] && w.inFlight == [] && Ordered(ps)
    requires ps != [] ==> ps[0].time >= w.curTime
    modifies w
    ensures w.Valid() && w.Stream() == ps
  {
    for i := 0 to |ps|
      invariant w.Valid() && w.Stream() == ps[..i]
      invariant i == 0 ==> w.curTime == old(w.curTime) && w.inFlight == []
      invariant i > 0 ==> w.inFlight != [] && w.inFlight[|w.inFlight| - 1] == ps[i - 1]
    {
      NextInOrder(ps, i);
      var ok := w.Update(ps[i]);
      assert ok;
    }
    assert ps[..|ps|] == ps;
  }

  /** A trace of one packet, read with reordering, ends in a failing check: on its row if it is early enough, otherwise
      at the end of the input. */
  method OnePacket(reorder: int, p: Packet) returns (row: Outcome, end: Outcome)
    requires reorder > 0 && p.time > MIN_INT64
    ensures row == if p.time <= -2 * reorder then Failed else Taken
    ensures end == Failed
  {
    var stats := new IPRollingPacketStatistics(reorder);
    row := stats.ReorderProcessRow(p);
    assert stats.accepted == multiset{p};
    if row == Failed {
      return row, row;
    }
    end := stats.CompleteProcessing();
  }
}
