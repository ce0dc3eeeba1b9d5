/** The rolling bandwidth window (src/analysis/ipdsanalysis.cpp:406-463): every sample is the traffic of one interval,
    kept up to date packet by packet instead of being summed up anew. */
module RollingWindow {

  datatype Packet = Packet(time: int, size: int)

  /** One entry of the two statistics: an interval start, the bytes and the number of packets in it. */
  datatype Sample = Sample(start: int, bytes: int, count: nat)

  // ---------- the reference: sums over a whole stream ----------

  function BytesOf(ps: seq<Packet>): int {
    if ps == [] then 0 else BytesOf(ps[..|ps| - 1]) + ps[|ps| - 1].size
  }

  predicate Inside(p: Packet, lo: int, hi: int) {
    lo <= p.time <= hi
  }

  /** The packets of the stream in the closed interval. */
  function Between(ps: seq<Packet>, lo: int, hi: int): (r: seq<Packet>) {
    if ps == [] then []
    else
      var rest := Between(ps[..|ps| - 1], lo, hi);
      if Inside(ps[|ps| - 1], lo, hi) then rest + [ps[|ps| - 1]] else rest
  }

  predicate InOrder(ps: seq<Packet>, i: int, j: int) {
    0 <= i < j < |ps| ==> ps[i].time <= ps[j].time
  }

  ghost predicate Ordered(ps: seq<Packet>) {
    forall i, j :: InOrder(ps, i, j)
  }

  lemma BytesAppend(ps: seq<Packet>, p: Packet)
    ensures BytesOf(ps + [p]) == BytesOf(ps) + p.size
  {
    assert (ps + [p])[..|ps|] == ps;
  }

  lemma {:induction false} BytesFront(ps: seq<Packet>)
    requires ps != []
    ensures BytesOf(ps) == ps[0].size + BytesOf(ps[1..])
    decreases |ps|
  {
    var n := |ps| - 1;
    if n > 0 {
      BytesFront(ps[..n]);
      assert ps[..n][1..] == ps[1..][..n - 1];
    }
  }

  lemma BetweenAppend(ps: seq<Packet>, p: Packet, lo: int, hi: int)
    ensures Between(ps + [p], lo, hi) == if Inside(p, lo, hi) then Between(ps, lo, hi) + [p] else Between(ps, lo, hi)
  {
    assert (ps + [p])[..|ps|] == ps;
  }

  lemma {:induction false} BetweenNone(ps: seq<Packet>, lo: int, hi: int)
    requires forall i :: 0 <= i < |ps| ==> !Inside(ps[i], lo, hi)
    ensures Between(ps, lo, hi) == []
    decreases |ps|
  {
    if ps != [] {
      BetweenNone(ps[..|ps| - 1], lo, hi);
    }
  }

  /** Packets below the interval and then packets inside it. */
  lemma {:induction false} BetweenSplit(gone: seq<Packet>, inside: seq<Packet>, lo: int, hi: int)
    requires forall i :: 0 <= i < |gone| ==> !Inside(gone[i], lo, hi)
    requires forall i :: 0 <= i < |inside| ==> Inside(inside[i], lo, hi)
    ensures Between(gone + inside, lo, hi) == inside
    decreases |inside|
  {
    if inside == [] {
      BetweenNone(gone, lo, hi);
      assert gone + inside == gone;
    } else {
      var n := |inside| - 1;
      BetweenSplit(gone, inside[..n], lo, hi);
      assert (gone + inside)[..|gone| + n] == gone + inside[..n];
      assert inside == inside[..n] + [inside[n]];
    }
  }

  /** A sample that is right for the stream. */
  ghost predicate Right(ps: seq<Packet>, s: Sample, width: int) {
    var inside := Between(ps, s.start, s.start + width);
    s.bytes == BytesOf(inside) && s.count == |inside|
  }

  /** A later packet behind the interval changes nothing. */
  lemma StaysRight(ps: seq<Packet>, p: Packet, s: Sample, width: int)
    requires Right(ps, s, width) && p.time > s.start + width
    ensures Right(ps + [p], s, width)
  {
    BetweenAppend(ps, p, s.start, s.start + width);
  }

  // ---------- what the window keeps ----------

  /** The packets before and inside the interval that starts at cur. */
  ghost predicate Window(gone: seq<Packet>, inFlight: seq<Packet>, cur: int, width: int) {
    && (forall i :: 0 <= i < |gone| ==> gone[i].time < cur)
    && (forall i :: 0 <= i < |inFlight| ==> Inside(inFlight[i], cur, cur + width))
  }

  lemma WindowAppend(gone: seq<Packet>, inFlight: seq<Packet>, cur: int, width: int, p: Packet)
    requires Window(gone, inFlight, cur, width) && Inside(p, cur, cur + width)
    ensures Window(gone, inFlight + [p], cur, width)
  {
  }

  function NextStart(ss: seq<Sample>, start: int, step: int): int {
    if ss == [] then start else ss[|ss| - 1].start + step
  }

  /** One sample for every step from start up to, and not including, cur. */
  ghost predicate EveryStep(ss: seq<Sample>, start: int, step: int, cur: int) {
    && (forall k :: 0 < k < |ss| ==> ss[k].start == ss[k - 1].start + step)
    && (ss != [] ==> ss[0].start == start)
    && cur == NextStart(ss, start, step)
  }

  /** All samples are right for the stream, and over before the time limit. */
  ghost predicate AllRight(ps: seq<Packet>, ss: seq<Sample>, width: int, limit: int) {
    forall k :: 0 <= k < |ss| ==> Right(ps, ss[k], width) && ss[k].start + width < limit
  }

  lemma EveryStepAppend(ss: seq<Sample>, start: int, step: int, cur: int, s: Sample)
    requires EveryStep(ss, start, step, cur) && s.start == cur
    ensures EveryStep(ss + [s], start, step, cur + step)
  {
  }

  lemma AllRightAppend(ps: seq<Packet>, ss: seq<Sample>, width: int, limit: int, s: Sample)
    requires AllRight(ps, ss, width, limit) && Right(ps, s, width) && s.start + width < limit
    ensures AllRight(ps, ss + [s], width, limit)
  {
  }

  lemma AllStayRight(ps: seq<Packet>, ss: seq<Sample>, width: int, limit: int, p: Packet)
    requires AllRight(ps, ss, width, limit) && limit <= p.time
    ensures AllRight(ps + [p], ss, width, p.time)
  {
    forall k | 0 <= k < |ss|
      ensures Right(ps + [p], ss[k], width) && ss[k].start + width < p.time
    {
      StaysRight(ps, p, ss[k], width);
    }
  }

  /** The window gives the sample for its own interval. */
  lemma {:induction false} WindowIsSample(gone: seq<Packet>, inFlight: seq<Packet>, cur: int, width: int)
    requires Window(gone, inFlight, cur, width)
    ensures Right(gone + inFlight, Sample(cur, BytesOf(inFlight), |inFlight|), width)
  {
    BetweenSplit(gone, inFlight, cur, cur + width);
  }

  lemma OrderedBack(gone: seq<Packet>, inFlight: seq<Packet>)
    requires Ordered(gone + inFlight)
    ensures Ordered(inFlight)
  {
    var all := gone + inFlight;
    forall i, j
      ensures InOrder(inFlight, i, j)
    {
      assert InOrder(all, |gone| + i, |gone| + j);
    }
  }

  lemma FirstIsEarliest(ps: seq<Packet>)
    requires Ordered(ps)
    ensures forall i :: 0 <= i < |ps| ==> ps[0].time <= ps[i].time
  {
    forall i | 0 <= i < |ps|
      ensures ps[0].time <= ps[i].time
    {
      assert InOrder(ps, 0, i);
    }
  }

  lemma OrderedAppend(ps: seq<Packet>, p: Packet)
    requires Ordered(ps) && (ps != [] ==> p.time >= ps[|ps| - 1].time)
    ensures Ordered(ps + [p])
  {
    forall i, j
      ensures InOrder(ps + [p], i, j)
    {
      assert InOrder(ps, i, j) && InOrder(ps, i, |ps| - 1);
    }
  }

  /** The time of the last packet, which no settled sample reaches. */
  function LastTime(ps: seq<Packet>, otherwise: int): int {
    if ps == [] then otherwise else ps[|ps| - 1].time
  }

  class BandwidthRolling {
    const width: int
    const step: int
    const start: int
    var curTime: int
    var curBytes: int
    var inFlight: seq<Packet>
    var samples: seq<Sample>
    ghost var gone: seq<Packet>

    /** All packets so far. */
    ghost function Stream(): seq<Packet>
      reads this
    {
      gone + inFlight
    }

    /** The queue holds the packets from the current time on, its total is kept, there is one right sample for every
        step, and all of them are over. */
    ghost predicate Valid()
      reads this
    {
      && 0 < step <= width && Ordered(Stream())
      && Window(gone, inFlight, curTime, width) && curBytes == BytesOf(inFlight)
      && (inFlight == [] ==> gone == [] && samples == [])
      && EveryStep(samples, start, step, curTime)
      && AllRight(Stream(), samples, width, LastTime(inFlight, curTime))
    }

    /** update_step_raw is a 20th of the width, rounded down. */
    constructor (interval: int, startTime: int)
      requires interval >= 20
      ensures Valid() && Stream() == [] && samples == [] && curTime == startTime && start == startTime
      ensures width == interval && step == interval / 20
    {
      width, step, start := interval, interval / 20, startTime;
      curTime, curBytes, inFlight, samples := startTime, 0, [], [];
      gone := [];
    }

    /** Drops the packets that the current time has left behind. */
    method DropOld(ghost seen: seq<Packet>, from: int)
      requires curBytes == BytesOf(inFlight) && gone + inFlight == seen && Ordered(seen)
      requires Window(gone, inFlight, from, width) && from <= curTime
      modifies `curBytes, `inFlight, `gone
      ensures gone + inFlight == seen && curBytes == BytesOf(inFlight)
      ensures Window(gone, inFlight, curTime, width)
    {
      while inFlight != [] && inFlight[0].time < curTime
        invariant gone + inFlight == seen && curBytes == BytesOf(inFlight)
        invariant forall i :: 0 <= i < |gone| ==> gone[i].time < curTime
        invariant forall i :: 0 <= i < |inFlight| ==> inFlight[i].time <= curTime + width
        decreases |inFlight|
      {
        BytesFront(inFlight);
        curBytes := curBytes - inFlight[0].size;
        gone := gone + [inFlight[0]];
        inFlight := inFlight[1..];
      }
      OrderedBack(gone, inFlight);
      FirstIsEarliest(inFlight);
    }

    /** What is kept while the window moves up to a packet at the given time. */
    ghost predicate Moving(seen: seq<Packet>, time: int)
      reads this
    {
      && 0 < step <= width && gone + inFlight == seen && Ordered(seen) && curTime <= time
      && Window(gone, inFlight, curTime, width) && curBytes == BytesOf(inFlight)
      && EveryStep(samples, start, step, curTime)
      && AllRight(seen, samples, width, time)
    }

    /** Takes the sample for the interval at the current time, and moves on by one step. */
    method TakeSample(ghost seen: seq<Packet>, ghost time: int)
      requires Moving(seen, time) && time - curTime > width
      modifies this
      ensures Moving(seen, time) && curTime == old(curTime) + step
      ensures samples == old(samples) + [Sample(old(curTime), old(curBytes), |old(inFlight)|)]
    {
      var sample := Sample(curTime, curBytes, |inFlight|);
      WindowIsSample(gone, inFlight, curTime, width);
      EveryStepAppend(samples, start, step, curTime, sample);
      AllRightAppend(seen, samples, width, time, sample);
      samples := samples + [sample];
      var from := curTime;
      curTime := curTime + step;
      DropOld(seen, from);
    }

    /** The packet joins the window. */
    method Push(p: Packet, ghost seen: seq<Packet>)
      requires Moving(seen, p.time) && p.time - curTime <= width
      requires seen != [] ==> p.time >= seen[|seen| - 1].time
      modifies `curBytes, `inFlight
      ensures Valid() && Stream() == seen + [p] && inFlight == old(inFlight) + [p]
    {
      ghost var more := inFlight + [p];
      BytesAppend(inFlight, p);
      OrderedAppend(seen, p);
      AllStayRight(seen, samples, width, p.time, p);
      WindowAppend(gone, inFlight, curTime, width, p);
      assert gone + more == seen + [p] && LastTime(more, curTime) == p.time;
      inFlight := inFlight + [p];
      curBytes := curBytes + p.size;
    }

    /** Refuses a packet that is earlier than the last one; otherwise it joins the window. */
    method Update(p: Packet) returns (ok: bool)
      requires Valid() && (inFlight == [] ==> p.time >= curTime)
      modifies this
      ensures Valid() && ok == old(inFlight == [] || p.time >= inFlight[|inFlight| - 1].time)
      ensures Stream() == if ok then old(Stream()) + [p] else old(Stream())
      ensures ok ==> inFlight != [] && inFlight[|inFlight| - 1] == p
      ensures old(samples) <= samples && (!ok ==> samples == old(samples))
    {
      if inFlight != [] {
        var back := inFlight[|inFlight| - 1].time;
        if p.time < back {
          return false;
        }
      }
      ghost var seen := Stream();
      ghost var last := LastTime(inFlight, curTime);
      assert last <= p.time && (seen != [] ==> seen[|seen| - 1].time == last);
      while p.time - curTime > width
        invariant Moving(seen, p.time) && old(samples) <= samples
        decreases p.time - curTime
      {
        TakeSample(seen, p.time);
      }
      Push(p, seen);
      ok := true;
    }
  }

  // ---------- when the loop ends ----------

  /** Where the window starts after n turns of the loop in Update; the step is a 20th of the width, rounded down. */
  function StartAfter(cur: int, width: nat, n: nat): int {
    cur + n * (width / 20)
  }

  ghost predicate Reached(cur: int, width: nat, time: int, n: nat) {
    time - StartAfter(cur, width, n) <= width
  }

  /** For every width and packet: the loop comes to the packet if and only if the width is at least 20 time units, or
      the packet lies within the width from the start on, so that no turn is taken. */
  lemma LoopEnds(cur: int, width: nat, time: int)
    ensures (exists n: nat :: Reached(cur, width, time, n)) <==> width >= 20 || time - cur <= width
  {
    var step := width / 20;
    if time - cur <= width {
      assert Reached(cur, width, time, 0);
    } else if width >= 20 {
      var n := time - cur;
      assert n * step >= n by {
        assert n * step == n * (step - 1) + n;
        assert n * (step - 1) >= 0;
      }
      assert Reached(cur, width, time, n);
    } else {
      forall n: nat
        ensures !Reached(cur, width, time, n)
      {
        assert n * step == 0;
      }
    }
  }

  /** A window of 19 units never comes to a packet 20 units behind its start. */
  lemma NarrowWindow(cur: int, n: nat)
    ensures StartAfter(cur, 19, n) == cur && !Reached(cur, 19, cur + 20, n)
  {
    assert 19 / 20 == 0;
  }

  // ---------- what the samples mean ----------

  /** Every sample is the traffic of its interval in the whole stream, however the stream goes on in order. */
  lemma {:induction false} SamplesAreSums(
      seen: seq<Packet>, more: seq<Packet>, ss: seq<Sample>, width: int, limit: int)
    requires AllRight(seen, ss, width, limit)
    requires forall i :: 0 <= i < |more| ==> more[i].time >= limit
    ensures AllRight(seen + more, ss, width, limit)
    decreases |more|
  {
    if more == [] {
      assert seen + [] == seen;
    } else {
      var n := |more| - 1;
      SamplesAreSums(seen, more[..n], ss, width, limit);
      AllStayRight(seen + more[..n], ss, width, limit, more[n]);
      assert seen + more == seen + more[..n] + [more[n]];
    }
  }

  /** The k-th sample starts k steps behind the start: none that is due is missing. */
  lemma {:induction false} SampleStarts(ss: seq<Sample>, start: int, step: int, cur: int, k: nat)
    requires EveryStep(ss, start, step, cur) && k < |ss|
    ensures ss[k].start == start + k * step
    decreases k
  {
    if k > 0 {
      SampleStarts(ss, start, step, cur, k - 1);
      assert k * step == (k - 1) * step + step;
    }
  }
}
