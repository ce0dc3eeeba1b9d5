/** What every step of the writer pipeline keeps: the order of the extents, the byte count, who packs what, and that
    nobody sleeps through the work they wait for. */
module PipelineInvariant {
  import opened Pipeline

  // ---------- the invariant ----------

  /** The extents written, held and pending are 0, 1, 2, ... up to the last one accepted: written in queueing order,
      each one once. */
  ghost predicate InOrder(s: State) {
    && |s.written| + |s.Held()| + |s.pending| == s.accepted
    && (forall i :: 0 <= i < |s.written| ==> s.written[i] == i)
    && (forall i :: 0 <= i < |s.Held()| ==> s.Held()[i].id == |s.written| + i)
    && (forall k :: 0 <= k < |s.pending| ==> s.pending[k].id == s.Base() + k)
  }

  /** What an entry counts for: its size, twice its size while it is packed, then its packed size. */
  function Cost(w: Work): nat {
    if w.inProgress then 2 * w.size else if w.compressed > 0 then w.compressed else w.size
  }

  function Costs(ws: seq<Work>): nat {
    if ws == [] then 0 else Cost(ws[0]) + Costs(ws[1..])
  }

  ghost predicate Accounted(s: State) {
    s.bytes == Costs(s.pending) + CompressedBytes(s.Held())
  }

  /** Exactly the entries that some compressor packs are in progress, and each one has its own compressor. */
  ghost predicate Packing(s: State) {
    InQueue(s) && PackersDiffer(s) && EachPacked(s)
  }

  ghost predicate PackersDiffer(s: State) {
    forall c, d :: 0 <= c < d < |s.compressors| && s.compressors[c].CPacking? && s.compressors[d].CPacking? ==>
      s.compressors[c].id != s.compressors[d].id
  }

  ghost predicate EachPacked(s: State) {
    forall k :: 0 <= k < |s.pending| && s.pending[k].inProgress ==>
      s.pending[k].compressed == 0 && PackedBySome(s, s.pending[k].id)
  }

  ghost predicate PackedBySome(s: State, id: nat) {
    exists c :: 0 <= c < |s.compressors| && s.compressors[c] == CPacking(id)
  }

  ghost predicate HasUnclaimed(s: State) {
    exists k :: 0 <= k < |s.pending| && s.pending[k].Unclaimed()
  }

  /** Some compressor will look at the queue again. */
  ghost predicate SomeAwake(s: State) {
    exists c :: 0 <= c < |s.compressors| && (s.compressors[c].CReady? || s.compressors[c].CPacking?)
  }

  /** Unclaimed work never meets only sleeping compressors. */
  ghost predicate WorkNoticed(s: State) {
    && (HasUnclaimed(s) ==> SomeAwake(s))
    && (s.keepGoing ==> forall c :: 0 <= c < |s.compressors| ==> !s.compressors[c].CDone?)
    && (!s.keepGoing ==> forall c :: 0 <= c < |s.compressors| ==> !s.compressors[c].CWaiting?)
    && (HasUnclaimed(s) ==> forall c :: 0 <= c < |s.compressors| ==> !s.compressors[c].CDone?)
  }

  /** A ready front never meets a sleeping writer. */
  ghost predicate WriteNoticed(s: State) {
    && (s.FrontReadyToWrite() ==> !s.writer.WWaiting?)
    && (s.writer.WDone? ==> !s.keepGoing)
    && (!s.keepGoing ==> !s.writer.WWaiting?)
    && (s.writer.WWriting? ==> forall k :: 0 <= k < |s.writer.batch| ==> s.writer.batch[k].Ready())
  }

  /** A producer waits only while the queue is full or the writer still writes. */
  ghost predicate RoomNoticed(s: State) {
    forall p :: 0 <= p < |s.producers| && s.producers[p].PWaiting? ==> !s.CanQueueWork() || s.writer.WWriting?
  }

  ghost predicate Phases(s: State) {
    && s.maxBytes > 0
    && (s.keepGoing <==> s.closer.KIdle?)
    && (s.closer.KIdle? || s.closer.KJoining? ==> |s.compressors| > 0)
    && (!s.keepGoing ==> AllIdle(s.producers))
    && (s.closer.KWriting? || s.closer.KClosed? ==> s.compressors == [] && s.writer.WDone? && s.pending == [])
  }

  ghost predicate Inv(s: State) {
    InOrder(s) && Accounted(s) && Packing(s) && WorkNoticed(s) && WriteNoticed(s) && RoomNoticed(s) && Phases(s)
  }

  lemma InitInv(compressors: nat, producers: nat, maxBytes: nat)
    requires compressors > 0 && maxBytes > 0
    ensures Inv(Init(compressors, producers, maxBytes))
  {
  }

  // ---------- sums ----------

  lemma {:induction false} CostsAppend(ws: seq<Work>, w: Work)
    ensures Costs(ws + [w]) == Costs(ws) + Cost(w)
    decreases |ws|
  {
    if ws == [] {
      assert [w][1..] == [];
    } else {
      CostsAppend(ws[1..], w);
      assert (ws + [w])[1..] == ws[1..] + [w];
    }
  }

  lemma {:induction false} CostsUpdate(ws: seq<Work>, k: nat, w: Work)
    requires k < |ws|
    ensures Costs(ws[k := w]) == Costs(ws) - Cost(ws[k]) + Cost(w)
    ensures Cost(ws[k]) <= Costs(ws)
    decreases |ws|
  {
    if k > 0 {
      CostsUpdate(ws[1..], k - 1, w);
      assert ws[k := w][1..] == ws[1..][k - 1 := w];
    } else {
      assert ws[0 := w][1..] == ws[1..];
    }
  }

  /** What leaves the queue ready counts for the same as before. */
  lemma {:induction false} CostsTake(ws: seq<Work>, n: nat)
    requires n <= |ws| && forall k :: 0 <= k < n ==> ws[k].Ready()
    ensures Costs(ws) == CompressedBytes(ws[..n]) + Costs(ws[n..])
    decreases n
  {
    if n > 0 {
      CostsTake(ws[1..], n - 1);
      assert ws[..n][1..] == ws[1..][..n - 1] && ws[n..] == ws[1..][n - 1..];
    } else {
      assert ws[0..] == ws;
    }
  }

  // ---------- order ----------

  /** Same numbers in the same places. */
  ghost predicate SameNumbers(s: State, t: State) {
    && t.accepted == s.accepted && t.written == s.written && t.Held() == s.Held() && |t.pending| == |s.pending|
    && forall k :: 0 <= k < |s.pending| ==> t.pending[k].id == s.pending[k].id
  }

  lemma OrderSame(s: State, t: State)
    requires InOrder(s) && SameNumbers(s, t)
    ensures InOrder(t)
  {
  }

  lemma OrderQueued(s: State, p: nat, size: nat, wake: nat)
    requires InOrder(s) && p < |s.producers|
    ensures InOrder(ApplyQueue(s, p, size, wake))
  {
    var t := ApplyQueue(s, p, size, wake);
    assert t.Held() == s.Held() && t.Base() == s.Base();
  }

  /** The ready front moves from the queue to its writer. */
  lemma OrderPopped(s: State, t: State, n: nat)
    requires InOrder(s) && s.Held() == [] && n <= |s.pending|
    requires t.pending == s.pending[n..] && t.Held() == s.pending[..n]
    requires t.accepted == s.accepted && t.written == s.written
    ensures InOrder(t)
  {
  }

  lemma OrderWritten(s: State, t: State)
    requires InOrder(s) && t.pending == s.pending && t.accepted == s.accepted
    requires t.Held() == [] && t.written == s.written + Ids(s.Held())
    ensures InOrder(t)
  {
  }

  lemma OrderWriteStep(s: State)
    requires Inv(s) && Enabled(s, WriteStep)
    ensures InOrder(ApplyWriteStep(s))
  {
    var t := ApplyWriteStep(s);
    if s.keepGoing && s.FrontReadyToWrite() {
      assert s.Held() == [];
      OrderPopped(s, t, ReadyCount(s.pending));
    } else {
      OrderSame(s, t);
    }
  }

  lemma OthersKeepNumbers(s: State, a: Action)
    requires Inv(s) && Enabled(s, a)
    requires !a.Queue? && !a.WriteStep? && !a.Joined? && !a.WriteDone? && !a.CloseDone?
    ensures SameNumbers(s, Apply(s, a))
  {
  }

  lemma OrderKept(s: State, a: Action)
    requires Inv(s) && Enabled(s, a)
    ensures InOrder(Apply(s, a))
  {
    if a.Queue? {
      OrderQueued(s, a.p, a.size, a.wake);
    } else if a.WriteStep? {
      OrderWriteStep(s);
    } else if a.Joined? {
      OrderJoined(s);
    } else if a.WriteDone? || a.CloseDone? {
      OrderBatchWritten(s, a);
    } else {
      OrderOther(s, a);
    }
  }

  lemma OrderJoined(s: State)
    requires Inv(s) && Enabled(s, Joined)
    ensures InOrder(ApplyJoined(s))
  {
    OrderPopped(s, ApplyJoined(s), ReadyCount(s.pending));
  }

  lemma OrderBatchWritten(s: State, a: Action)
    requires Inv(s) && Enabled(s, a) && (a.WriteDone? || a.CloseDone?)
    ensures InOrder(Apply(s, a))
  {
    OrderWritten(s, Apply(s, a));
  }

  lemma OrderOther(s: State, a: Action)
    requires Inv(s) && Enabled(s, a)
    requires !a.Queue? && !a.WriteStep? && !a.Joined? && !a.WriteDone? && !a.CloseDone?
    ensures InOrder(Apply(s, a))
  {
    OthersKeepNumbers(s, a);
    OrderSame(s, Apply(s, a));
  }

  // ---------- byte accounting ----------

  lemma BytesPopped(s: State, t: State, n: nat)
    requires Accounted(s) && s.Held() == [] && n <= |s.pending| && forall k :: 0 <= k < n ==> s.pending[k].Ready()
    requires t.pending == s.pending[n..] && t.Held() == s.pending[..n] && t.bytes == s.bytes
    ensures Accounted(t)
  {
    CostsTake(s.pending, n);
  }

  lemma BytesWriteStep(s: State)
    requires Inv(s) && Enabled(s, WriteStep)
    ensures Accounted(ApplyWriteStep(s))
  {
    if s.keepGoing && s.FrontReadyToWrite() {
      assert s.Held() == [];
      BytesPopped(s, ApplyWriteStep(s), ReadyCount(s.pending));
    }
  }

  lemma BytesScanned(s: State, c: nat)
    requires Inv(s) && Enabled(s, Scan(c))
    ensures Accounted(ApplyScan(s, c))
  {
    var k := FirstUnclaimed(s.pending);
    if k < |s.pending| {
      CostsUpdate(s.pending, k, s.pending[k].(inProgress := true));
    }
  }

  lemma BytesFinished(s: State, c: nat, n: nat)
    requires Inv(s) && Enabled(s, Finish(c, n))
    ensures Accounted(ApplyFinish(s, c, n))
  {
    var k := Place(s, c);
    CostsUpdate(s.pending, k, s.pending[k].(inProgress := false, compressed := n));
  }

  lemma BytesKept(s: State, a: Action)
    requires Inv(s) && Enabled(s, a)
    ensures Accounted(Apply(s, a))
  {
    match a {
      case Queue(p, size, wake) => CostsAppend(s.pending, Work(s.accepted, size, false, 0));
      case Scan(c) => BytesScanned(s, c);
      case Finish(c, n) => BytesFinished(s, c, n);
      case WriteStep => BytesWriteStep(s);
      case Joined => BytesPopped(s, ApplyJoined(s), ReadyCount(s.pending));
      case WriteDone => BytesWritten(s, a);
      case CloseDone => BytesWritten(s, a);
      case _ => BytesSame(s, a);
    }
  }

  lemma BytesWritten(s: State, a: Action)
    requires Inv(s) && Enabled(s, a) && (a.WriteDone? || a.CloseDone?)
    ensures Accounted(Apply(s, a))
  {
    assert s.Held() == if a.WriteDone? then s.writer.batch else s.closer.rest;
  }

  lemma BytesSame(s: State, a: Action)
    requires Inv(s) && Enabled(s, a)
    requires a.Recheck? || a.SetMax? || a.StartClose? || a.SpuriousWork? || a.SpuriousQueue? || a.SpuriousWrite?
    ensures Accounted(Apply(s, a))
  {
  }

  // ---------- who packs what ----------

  /** The first n entries, none of them in progress, leave the queue; others may join at its end; no compressor starts
      or stops packing. */
  ghost predicate Moved(s: State, t: State, n: nat) {
    && t.Base() == s.Base() + n && n <= |s.pending| && |s.pending| - n <= |t.pending|
    && |t.compressors| == |s.compressors|
    && (forall k :: 0 <= k < n ==> !s.pending[k].inProgress)
    && (forall k :: n <= k < |s.pending| ==> t.pending[k - n] == s.pending[k])
    && (forall k :: |s.pending| - n <= k < |t.pending| ==> !t.pending[k].inProgress)
    && (forall c :: 0 <= c < |s.compressors| ==>
          t.compressors[c] == s.compressors[c] || (!t.compressors[c].CPacking? && !s.compressors[c].CPacking?))
  }

  lemma PackerMoves(s: State, t: State, n: nat, c: nat)
    requires InQueue(s) && Moved(s, t, n) && c < |t.compressors|
    ensures PackerHere(t, c)
  {
    if t.compressors[c].CPacking? {
      assert PackerHere(s, c);
      var k := s.compressors[c].id - s.Base();
      assert t.pending[k - n] == s.pending[k];
    }
  }

  lemma PackedMoves(s: State, t: State, n: nat, k: nat)
    requires Packing(s) && Moved(s, t, n) && k < |t.pending| && t.pending[k].inProgress
    ensures PackedBySome(t, t.pending[k].id) && t.pending[k].compressed == 0
  {
    var id := s.pending[k + n].id;
    assert t.pending[k] == s.pending[k + n];
    var c :| 0 <= c < |s.compressors| && s.compressors[c] == CPacking(id);
    assert t.compressors[c] == CPacking(id);
  }

  lemma DifferMoved(s: State, t: State, n: nat)
    requires PackersDiffer(s) && Moved(s, t, n)
    ensures PackersDiffer(t)
  {
  }

  lemma PackersMoved(s: State, t: State, n: nat)
    requires InQueue(s) && Moved(s, t, n)
    ensures InQueue(t)
  {
    forall c | 0 <= c < |t.compressors|
      ensures PackerHere(t, c)
    {
      PackerMoves(s, t, n, c);
    }
  }

  lemma EachPackedMoved(s: State, t: State, n: nat)
    requires Packing(s) && Moved(s, t, n)
    ensures EachPacked(t)
  {
    forall k | 0 <= k < |t.pending| && t.pending[k].inProgress
      ensures t.pending[k].compressed == 0 && PackedBySome(t, t.pending[k].id)
    {
      PackedMoves(s, t, n, k);
    }
  }

  lemma PackingMoved(s: State, t: State, n: nat)
    requires Packing(s) && Moved(s, t, n)
    ensures Packing(t)
  {
    DifferMoved(s, t, n);
    PackersMoved(s, t, n);
    EachPackedMoved(s, t, n);
  }

  lemma PackingClaimed(s: State, c: nat, k: nat)
    requires InOrder(s) && Packing(s) && c < |s.compressors| && s.compressors[c].CReady?
    requires k < |s.pending| && s.pending[k].Unclaimed()
    ensures Packing(s.(pending := s.pending[k := s.pending[k].(inProgress := true)],
                       compressors := s.compressors[c := CPacking(s.pending[k].id)]))
  {
    var t := s.(pending := s.pending[k := s.pending[k].(inProgress := true)],
                compressors := s.compressors[c := CPacking(s.pending[k].id)]);
    forall d | 0 <= d < |s.compressors|
      ensures PackerHere(t, d) && (d != c && s.compressors[d].CPacking? ==> s.compressors[d].id != s.pending[k].id)
    {
      assert PackerHere(s, d);
    }
    forall j | 0 <= j < |t.pending| && t.pending[j].inProgress
      ensures PackedBySome(t, t.pending[j].id)
    {
      if j == k {
        assert t.compressors[c] == CPacking(t.pending[k].id);
      } else {
        var d :| 0 <= d < |s.compressors| && s.compressors[d] == CPacking(s.pending[j].id);
        assert t.compressors[d] == CPacking(t.pending[j].id);
      }
    }
  }

  lemma PackingFinished(s: State, c: nat, k: nat, n: nat)
    requires InOrder(s) && Packing(s) && c < |s.compressors| && s.compressors[c].CPacking? && n > 0
    requires k == Place(s, c)
    ensures Packing(s.(pending := s.pending[k := s.pending[k].(inProgress := false, compressed := n)],
                       compressors := s.compressors[c := CReady]))
  {
    var t := s.(pending := s.pending[k := s.pending[k].(inProgress := false, compressed := n)],
                compressors := s.compressors[c := CReady]);
    forall d | 0 <= d < |s.compressors|
      ensures PackerHere(t, d)
    {
      assert PackerHere(s, d);
    }
    forall j | 0 <= j < |t.pending| && t.pending[j].inProgress
      ensures PackedBySome(t, t.pending[j].id)
    {
      var d :| 0 <= d < |s.compressors| && s.compressors[d] == CPacking(s.pending[j].id);
      assert d != c;
      assert t.compressors[d] == CPacking(t.pending[j].id);
    }
  }

  ghost predicate AllAsleep(cs: seq<Compressor>) {
    forall c :: 0 <= c < |cs| ==> cs[c].CWaiting? || cs[c].CDone?
  }

  /** When no compressor is awake, everything in the queue is ready. */
  lemma AllReady(s: State)
    requires Inv(s) && AllAsleep(s.compressors)
    ensures forall k :: 0 <= k < |s.pending| ==> s.pending[k].Ready()
    ensures ReadyCount(s.pending) == |s.pending|
  {
    forall k | 0 <= k < |s.pending|
      ensures s.pending[k].Ready()
    {
      assert !PackedBySome(s, s.pending[k].id);
      assert !s.pending[k].Unclaimed();
    }
  }

  lemma PackingScanned(s: State, c: nat)
    requires Inv(s) && Enabled(s, Scan(c))
    ensures Packing(ApplyScan(s, c))
  {
    var k := FirstUnclaimed(s.pending);
    if k < |s.pending| {
      PackingClaimed(s, c, k);
      var claimed := s.(pending := s.pending[k := s.pending[k].(inProgress := true)],
                        compressors := s.compressors[c := CPacking(s.pending[k].id)]);
      PackingMoved(claimed, ApplyScan(s, c), 0);
    } else {
      PackingMoved(s, ApplyScan(s, c), 0);
    }
  }

  lemma PackingWriteStep(s: State)
    requires Inv(s) && Enabled(s, WriteStep)
    ensures Packing(ApplyWriteStep(s))
  {
    PackingMoved(s, ApplyWriteStep(s), if s.keepGoing && s.FrontReadyToWrite() then ReadyCount(s.pending) else 0);
  }

  lemma OthersMove(s: State, a: Action)
    requires Inv(s) && Enabled(s, a) && !a.Scan? && !a.Finish? && !a.WriteStep? && !a.Joined?
    ensures Moved(s, Apply(s, a), 0)
  {
  }

  lemma PackingAfterFinish(s: State, c: nat, n: nat)
    requires Inv(s) && Enabled(s, Finish(c, n))
    ensures Packing(ApplyFinish(s, c, n))
  {
    var k := Place(s, c);
    PackingFinished(s, c, k, n);
    var settled := Settled(s, c, n);
    PackingMoved(s.(pending := settled.pending, compressors := settled.compressors), ApplyFinish(s, c, n), 0);
  }

  lemma PackingKept(s: State, a: Action)
    requires Inv(s) && Enabled(s, a)
    ensures Packing(Apply(s, a))
  {
    if a.Scan? {
      PackingScanned(s, a.c);
    } else if a.Finish? {
      PackingAfterFinish(s, a.c, a.n);
    } else if a.WriteStep? {
      PackingWriteStep(s);
    } else if a.Joined? {
      AllReady(s);
    } else {
      OthersMove(s, a);
      PackingMoved(s, Apply(s, a), 0);
    }
  }

  // ---------- no lost wakeup ----------

  lemma WorkQueued(s: State, p: nat, size: nat, wake: nat)
    requires Inv(s) && Enabled(s, Queue(p, size, wake))
    ensures WorkNoticed(ApplyQueue(s, p, size, wake))
  {
    var t := ApplyQueue(s, p, size, wake);
    if SomeWaiting(s.compressors) {
      assert t.compressors[wake].CReady?;
    } else {
      assert !s.compressors[0].CWaiting? && t.compressors[0] == s.compressors[0];
    }
    assert SomeAwake(t);
  }

  lemma WorkScanned(s: State, c: nat)
    requires Inv(s) && Enabled(s, Scan(c))
    ensures WorkNoticed(ApplyScan(s, c))
  {
    var t, k := ApplyScan(s, c), FirstUnclaimed(s.pending);
    if k < |s.pending| {
      assert t.compressors[c].CPacking?;
      if HasUnclaimed(t) {
        assert s.pending[k].Unclaimed();
      }
    } else {
      assert !HasUnclaimed(t);
    }
  }

  lemma WorkFinished(s: State, c: nat, n: nat)
    requires Inv(s) && Enabled(s, Finish(c, n))
    ensures WorkNoticed(ApplyFinish(s, c, n))
  {
    var t, k := ApplyFinish(s, c, n), Place(s, c);
    assert t.compressors[c].CReady?;
    if j :| 0 <= j < |t.pending| && t.pending[j].Unclaimed() {
      assert j != k && s.pending[j].Unclaimed();
    }
  }

  /** Fewer entries, and compressors that only wake up. */
  lemma WorkSame(s: State, t: State)
    requires Inv(s) && (HasUnclaimed(t) ==> HasUnclaimed(s)) && |t.compressors| == |s.compressors|
    requires t.keepGoing ==> s.keepGoing
    requires forall c :: 0 <= c < |s.compressors| ==>
      t.compressors[c] == s.compressors[c] || (s.compressors[c].CWaiting? && t.compressors[c].CReady?)
    requires !t.keepGoing ==> forall c :: 0 <= c < |t.compressors| ==> !t.compressors[c].CWaiting?
    ensures WorkNoticed(t)
  {
    if HasUnclaimed(t) {
      var c :| 0 <= c < |s.compressors| && (s.compressors[c].CReady? || s.compressors[c].CPacking?);
      assert t.compressors[c] == s.compressors[c];
    }
  }

  lemma UnclaimedBehind(s: State, t: State, n: nat)
    requires n <= |s.pending| && t.pending == s.pending[n..] && HasUnclaimed(t)
    ensures HasUnclaimed(s)
  {
    var k :| 0 <= k < |t.pending| && t.pending[k].Unclaimed();
    assert s.pending[k + n].Unclaimed();
  }

  lemma WorkKept(s: State, a: Action)
    requires Inv(s) && Enabled(s, a)
    ensures WorkNoticed(Apply(s, a))
  {
    var t := Apply(s, a);
    match a {
      case Queue(p, size, wake) => WorkQueued(s, p, size, wake);
      case Scan(c) => WorkScanned(s, c);
      case Finish(c, n) => WorkFinished(s, c, n);
      case WriteStep =>
        if HasUnclaimed(t) {
          if s.keepGoing && s.FrontReadyToWrite() {
            UnclaimedBehind(s, t, ReadyCount(s.pending));
          }
        }
        WorkSame(s, t);
      case Joined => AllReady(s);
      case _ => WorkSame(s, t);
    }
  }

  lemma WriteKept(s: State, a: Action)
    requires Inv(s) && Enabled(s, a)
    ensures WriteNoticed(Apply(s, a))
  {
  }

  lemma RoomKept(s: State, a: Action)
    requires Inv(s) && Enabled(s, a)
    ensures RoomNoticed(Apply(s, a))
  {
  }

  lemma PhasesJoined(s: State)
    requires Inv(s) && Enabled(s, Joined)
    ensures Phases(ApplyJoined(s))
  {
    AllReady(s);
  }

  lemma PhasesStart(s: State)
    requires Inv(s) && Enabled(s, StartClose)
    ensures Phases(Apply(s, StartClose))
  {
  }

  lemma PhasesSame(s: State, t: State)
    requires Phases(s) && t.keepGoing == s.keepGoing && t.closer == s.closer && t.maxBytes > 0
    requires |t.compressors| == |s.compressors|
    requires s.writer.WDone? ==> t.writer.WDone?
    requires s.closer.KWriting? || s.closer.KClosed? ==> t.pending == []
    requires !s.keepGoing ==> t.producers == s.producers
    ensures Phases(t)
  {
  }

  lemma PhasesKept(s: State, a: Action)
    requires Inv(s) && Enabled(s, a)
    ensures Phases(Apply(s, a))
  {
    if a.Joined? {
      PhasesJoined(s);
    } else if a.StartClose? {
      PhasesStart(s);
    } else if a.CloseDone? {
      assert Apply(s, a).producers == s.producers;
    } else {
      OthersKeepPhases(s, a);
      PhasesSame(s, Apply(s, a));
    }
  }

  lemma OthersKeepPhases(s: State, a: Action)
    requires Inv(s) && Enabled(s, a) && !a.Joined? && !a.StartClose? && !a.CloseDone?
    ensures var t := Apply(s, a);
            && t.keepGoing == s.keepGoing && t.closer == s.closer && t.maxBytes > 0
            && |t.compressors| == |s.compressors| && (s.writer.WDone? ==> t.writer.WDone?)
            && (s.closer.KWriting? || s.closer.KClosed? ==> t.pending == [])
            && (!s.keepGoing ==> t.producers == s.producers)
  {
  }
}
