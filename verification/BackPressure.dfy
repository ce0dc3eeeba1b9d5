/** How far producers can run ahead of the compressors and the writer (src/base/DataSeriesSink.cpp:326-364): a producer
    that finds the queue full, or too many bytes in progress, waits before it hands over anything more. */
module BackPressure {
  import opened Pipeline
  import opened PipelineInvariant
  import opened PipelineRuns

  /** The producers that are still inside queueWriteExtent. */
  function Inside(ps: seq<Producer>): (n: nat)
    ensures n <= |ps|
  {
    if ps == [] then 0 else (if ps[0].PIdle? then 0 else 1) + Inside(ps[1..])
  }

  /** Each entry beyond the limit of the queue belongs to a producer that has not been let go yet. */
  ghost predicate Limited(s: State, compressors: nat) {
    |s.compressors| <= compressors && |s.pending| < 2 * compressors + Inside(s.producers)
  }

  lemma {:induction false} InsideUpdate(ps: seq<Producer>, p: nat, x: Producer)
    requires p < |ps|
    ensures Inside(ps[p := x]) == Inside(ps) - (if ps[p].PIdle? then 0 else 1) + if x.PIdle? then 0 else 1
    decreases |ps|
  {
    if p > 0 {
      InsideUpdate(ps[1..], p - 1, x);
      assert ps[p := x][1..] == ps[1..][p - 1 := x];
    } else {
      assert ps[0 := x][1..] == ps[1..];
    }
  }

  lemma {:induction false} InsideBroadcast(ps: seq<Producer>)
    ensures Inside(BroadcastQueue(ps)) == Inside(ps)
    decreases |ps|
  {
    if ps != [] {
      InsideBroadcast(ps[1..]);
      assert BroadcastQueue(ps)[1..] == BroadcastQueue(ps[1..]);
    }
  }

  lemma {:induction false} InsideIdle(producers: nat)
    ensures Inside(seq(producers, _ => PIdle)) == 0
  {
    if producers > 0 {
      InsideIdle(producers - 1);
      assert seq(producers, _ => PIdle)[1..] == seq(producers - 1, _ => PIdle);
    }
  }

  /** A producer leaves queueWriteExtent exactly when the bytes in progress are below the limit and fewer than two
      extents a compressor are pending; otherwise it waits.  That holds for its first look at the queue, behind the extent
      that it has just added to it, and for every look after a wakeup; nobody else moves. */
  lemma ProducerWaits(s: State, a: Action)
    requires Inv(s) && Enabled(s, a) && (a.Queue? || a.Recheck?)
    ensures var t := Apply(s, a);
            && t.producers == s.producers[a.p := if t.bytes < t.maxBytes && |t.pending| < 2 * |t.compressors|
                                                 then PIdle else PWaiting]
            && t.maxBytes == s.maxBytes && |t.compressors| == |s.compressors|
            && (a.Queue? ==> t.bytes == s.bytes + a.size && t.pending == s.pending + [Work(s.accepted, a.size, false, 0)])
            && (a.Recheck? ==> t.bytes == s.bytes && t.pending == s.pending)
  {
  }

  lemma ProducerKeepsLimit(s: State, a: Action, compressors: nat)
    requires Inv(s) && Enabled(s, a) && (a.Queue? || a.Recheck?) && Limited(s, compressors)
    ensures Limited(Apply(s, a), compressors)
  {
    ProducerWaits(s, a);
    InsideUpdate(s.producers, a.p, Apply(s, a).producers[a.p]);
  }

  lemma OthersMakeRoom(s: State, a: Action)
    requires Inv(s) && Enabled(s, a) && !a.Queue? && !a.Recheck? && !a.SpuriousQueue?
    ensures var t := Apply(s, a);
            && |t.compressors| <= |s.compressors| && |t.pending| <= |s.pending|
            && (t.producers == s.producers || t.producers == BroadcastQueue(s.producers))
  {
  }

  lemma LimitKept(s: State, a: Action, compressors: nat)
    requires Inv(s) && Enabled(s, a) && Limited(s, compressors)
    ensures Limited(Apply(s, a), compressors)
  {
    if a.Queue? || a.Recheck? {
      ProducerKeepsLimit(s, a, compressors);
    } else if a.SpuriousQueue? {
      InsideUpdate(s.producers, a.p, PReady);
    } else {
      OthersMakeRoom(s, a);
      InsideBroadcast(s.producers);
    }
  }

  lemma {:induction false} RunKeepsLimit(s: State, actions: seq<Action>, compressors: nat)
    requires Inv(s) && Run(s, actions) && Limited(s, compressors)
    ensures Limited(After(s, actions), compressors)
    decreases |actions|
  {
    if actions != [] {
      StepKeepsInv(s, actions[0]);
      LimitKept(s, actions[0], compressors);
      RunKeepsLimit(Apply(s, actions[0]), actions[1..], compressors);
    }
  }

  /** In every interleaving, at any number of calls and of any sizes: fewer than two extents a compressor and one more a
      producer are pending, and one a producer only for those that have not come back from queueWriteExtent. */
  lemma QueueBounded(compressors: nat, producers: nat, maxBytes: nat, actions: seq<Action>)
    requires compressors > 0 && maxBytes > 0
    requires Run(Init(compressors, producers, maxBytes), actions)
    ensures var s := After(Init(compressors, producers, maxBytes), actions);
            && |s.pending| < 2 * compressors + producers
            && (AllIdle(s.producers) ==> |s.pending| < 2 * compressors)
  {
    var init := Init(compressors, producers, maxBytes);
    InitInv(compressors, producers, maxBytes);
    InsideIdle(producers);
    RunKeepsLimit(init, actions, compressors);
    ProducersStay(init, actions);
    AllIdleInside(After(init, actions).producers);
  }

  lemma {:induction false} AllIdleInside(ps: seq<Producer>)
    ensures AllIdle(ps) ==> Inside(ps) == 0
    decreases |ps|
  {
    if ps != [] {
      AllIdleInside(ps[1..]);
    }
  }

  lemma {:induction false} ProducersStay(s: State, actions: seq<Action>)
    requires Run(s, actions)
    ensures |After(s, actions).producers| == |s.producers|
    decreases |actions|
  {
    if actions != [] {
      ProducersStay(Apply(s, actions[0]), actions[1..]);
    }
  }

  /** A producer that waits is let go by nothing but its own next look at the queue, and only if that finds room. */
  lemma LeavesWithRoom(s: State, a: Action, p: nat)
    requires Inv(s) && Enabled(s, a) && p < |s.producers| && !s.producers[p].PIdle?
    ensures var t := Apply(s, a);
            t.producers[p].PIdle? <==> a == Recheck(p) && t.bytes < t.maxBytes && |t.pending| < 2 * |t.compressors|
  {
  }

  /** A changed limit holds from then on; raising it wakes everybody who waits for room or for work. */
  lemma LimitChanged(s: State, max: nat)
    requires Inv(s) && Enabled(s, SetMax(max))
    ensures var t := Apply(s, SetMax(max));
            && t.maxBytes == max && t.bytes == s.bytes && t.pending == s.pending && t.accepted == s.accepted
            && (max > s.maxBytes ==> (forall p :: 0 <= p < |t.producers| ==> !t.producers[p].PWaiting?)
                                     && forall c :: 0 <= c < |t.compressors| ==> !t.compressors[c].CWaiting?)
            && (max <= s.maxBytes ==> t.producers == s.producers && t.compressors == s.compressors)
  {
  }

  /** Packing an extent into n bytes takes it from twice its size to those n bytes on the account, and it can be written
      from then on; no other entry changes. */
  lemma PackedOnAccount(s: State, c: nat, n: nat)
    requires Inv(s) && Enabled(s, Finish(c, n))
    ensures var k, t := s.compressors[c].id - s.Base(), Apply(s, Finish(c, n));
            && 0 <= k < |s.pending| == |t.pending|
            && t.bytes == s.bytes - 2 * s.pending[k].size + n
            && t.pending[k] == Work(s.compressors[c].id, s.pending[k].size, false, n)
            && forall j :: 0 <= j < |s.pending| && j != k ==> t.pending[j] == s.pending[j]
  {
    assert PackerHere(s, c);
  }
}
