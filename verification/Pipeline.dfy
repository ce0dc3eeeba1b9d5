/** The threads of DataSeriesSink as a step system (src/base/DataSeriesSink.cpp:40-102, 326-563): producers queue extents,
    compressors claim and pack them, one writer writes them out in order, and close drains everything.

    Every action is one stretch of code that runs with the mutex held, between two places where it is released.  Waking
    up without a signal is an action of its own, so condition variables promise no more than POSIX does. */
module Pipeline {

  // ---------- state ----------

  /** ToCompress: compressed is the size of the packed bytes, 0 until they exist. */
  datatype Work = Work(id: nat, size: nat, inProgress: bool, compressed: nat)
  {
    predicate Unclaimed() {
      !inProgress && compressed == 0
    }

    /** readyToWrite */
    predicate Ready() {
      compressed > 0 && !inProgress
    }
  }

  datatype Compressor = CReady | CWaiting | CPacking(id: nat) | CDone

  datatype Writer = WReady | WWaiting | WWriting(batch: seq<Work>) | WDone

  datatype Producer = PIdle | PReady | PWaiting

  datatype Closer = KIdle | KJoining | KWriting(rest: seq<Work>) | KClosed

  /** accepted counts the extents queued so far, which are numbered in queueing order; written lists the numbers in the
      order in which their bytes went to the file. */
  datatype State = State(
    keepGoing: bool,
    bytes: int,
    maxBytes: nat,
    pending: seq<Work>,
    compressors: seq<Compressor>,
    writer: Writer,
    producers: seq<Producer>,
    closer: Closer,
    accepted: nat,
    written: seq<nat>)
  {
    predicate CanQueueWork() {
      bytes < maxBytes && |pending| < 2 * |compressors|
    }

    predicate FrontReadyToWrite() {
      pending != [] && pending[0].Ready()
    }

    /** The number of the first pending extent. */
    function Base(): int {
      accepted - |pending|
    }

    /** What has left the queue and is not written yet. */
    function Held(): seq<Work> {
      (if closer.KWriting? then closer.rest else []) + (if writer.WWriting? then writer.batch else [])
    }
  }

  function Init(compressors: nat, producers: nat, maxBytes: nat): State {
    State(true, 0, maxBytes, [], seq(compressors, _ => CReady), WReady, seq(producers, _ => PIdle), KIdle, 0, [])
  }

  // ---------- queues and condition variables ----------

  /** How many entries at the front can be written. */
  function ReadyCount(ws: seq<Work>): (n: nat)
    ensures n <= |ws|
    ensures forall k :: 0 <= k < n ==> ws[k].Ready()
    ensures n < |ws| ==> !ws[n].Ready()
  {
    if ws == [] || !ws[0].Ready() then 0 else 1 + ReadyCount(ws[1..])
  }

  /** The first entry that no compressor has claimed, or the length. */
  function FirstUnclaimed(ws: seq<Work>): (k: nat)
    ensures k <= |ws|
    ensures forall i :: 0 <= i < k ==> !ws[i].Unclaimed()
    ensures k < |ws| ==> ws[k].Unclaimed()
  {
    if ws == [] || ws[0].Unclaimed() then 0 else 1 + FirstUnclaimed(ws[1..])
  }

  /** pthread_cond_signal on available_work_cond reaches the given waiter. */
  function SignalWork(cs: seq<Compressor>, wake: nat): (r: seq<Compressor>)
    ensures |r| == |cs|
  {
    if wake < |cs| && cs[wake].CWaiting? then cs[wake := CReady] else cs
  }

  function BroadcastWork(cs: seq<Compressor>): (r: seq<Compressor>)
    ensures |r| == |cs|
  {
    seq(|cs|, i requires 0 <= i < |cs| => if cs[i].CWaiting? then CReady else cs[i])
  }

  function BroadcastQueue(ps: seq<Producer>): (r: seq<Producer>)
    ensures |r| == |ps|
  {
    seq(|ps|, i requires 0 <= i < |ps| => if ps[i].PWaiting? then PReady else ps[i])
  }

  function WakeWriter(w: Writer): Writer {
    if w.WWaiting? then WReady else w
  }

  function Ids(ws: seq<Work>): (r: seq<nat>)
    ensures |r| == |ws|
  {
    seq(|ws|, i requires 0 <= i < |ws| => ws[i].id)
  }

  function CompressedBytes(ws: seq<Work>): (n: nat) {
    if ws == [] then 0 else ws[0].compressed + CompressedBytes(ws[1..])
  }

  // ---------- actions ----------

  datatype Action =
    | Queue(p: nat, size: nat, wake: nat)     // queueWriteExtent up to its first wait
    | Recheck(p: nat)                         // its loop, after a wakeup
    | Scan(c: nat)                            // compressorThread: look for work, claim it or wait
    | Finish(c: nat, n: nat)                  // compressorThread: packing is done, n bytes
    | WriteStep                               // writerThread: take what is ready, or wait
    | WriteDone                               // the bytes are in the file
    | SetMax(max: nat)                        // setMaxBytesInProgress
    | StartClose                              // close up to joining the threads
    | Joined                                  // close: all threads have ended
    | CloseDone                               // close: the rest is written
    | SpuriousWork(c: nat)
    | SpuriousQueue(p: nat)
    | SpuriousWrite

  predicate SomeWaiting(cs: seq<Compressor>) {
    exists i :: 0 <= i < |cs| && cs[i].CWaiting?
  }

  predicate AllDone(cs: seq<Compressor>) {
    forall i :: 0 <= i < |cs| ==> cs[i].CDone?
  }

  predicate AllIdle(ps: seq<Producer>) {
    forall i :: 0 <= i < |ps| ==> ps[i].PIdle?
  }

  /** Nobody calls the sink while close runs. */
  predicate Enabled(s: State, a: Action) {
    match a
    case Queue(p, _, wake) =>
      && s.keepGoing && p < |s.producers| && s.producers[p].PIdle?
      && (SomeWaiting(s.compressors) ==> wake < |s.compressors| && s.compressors[wake].CWaiting?)
    case Recheck(p) => p < |s.producers| && s.producers[p].PReady?
    case Scan(c) => c < |s.compressors| && s.compressors[c].CReady?
    case Finish(c, n) => c < |s.compressors| && s.compressors[c].CPacking? && n > 0
    case WriteStep => s.writer.WReady?
    case WriteDone => s.writer.WWriting?
    case SetMax(max) => s.keepGoing && max > 0
    case StartClose => s.closer.KIdle? && AllIdle(s.producers)
    case Joined => s.closer.KJoining? && AllDone(s.compressors) && s.writer.WDone?
    case CloseDone => s.closer.KWriting?
    case SpuriousWork(c) => c < |s.compressors| && s.compressors[c].CWaiting?
    case SpuriousQueue(p) => p < |s.producers| && s.producers[p].PWaiting?
    case SpuriousWrite => s.writer.WWaiting?
  }

  /** The wait loop of a producer: it leaves when there is room. */
  function WaitForRoom(s: State, p: nat): State
    requires p < |s.producers|
  {
    s.(producers := s.producers[p := if s.CanQueueWork() then PIdle else PWaiting])
  }

  function ApplyQueue(s: State, p: nat, size: nat, wake: nat): State
    requires p < |s.producers|
  {
    WaitForRoom(s.(bytes := s.bytes + size,
                   pending := s.pending + [Work(s.accepted, size, false, 0)],
                   accepted := s.accepted + 1,
                   compressors := SignalWork(s.compressors, wake)), p)
  }

  /** Claiming counts the size a second time: packing may hold two copies. */
  function ApplyScan(s: State, c: nat): State
    requires c < |s.compressors|
  {
    var k := FirstUnclaimed(s.pending);
    if k < |s.pending| then
      s.(pending := s.pending[k := s.pending[k].(inProgress := true)],
         bytes := s.bytes + s.pending[k].size,
         compressors := s.compressors[c := CPacking(s.pending[k].id)])
    else
      s.(compressors := s.compressors[c := if s.keepGoing then CWaiting else CDone])
  }

  /** What the compressor packs is in the queue, and marked so. */
  predicate PackerHere(s: State, c: nat)
    requires c < |s.compressors|
  {
    s.compressors[c].CPacking? ==>
      var k := s.compressors[c].id - s.Base();
      0 <= k < |s.pending| && s.pending[k].inProgress
  }

  /** Where in the queue that is. */
  function Place(s: State, c: nat): (k: nat)
    requires c < |s.compressors| && s.compressors[c].CPacking? && PackerHere(s, c)
    ensures k < |s.pending| && s.pending[k].inProgress
  {
    s.compressors[c].id - s.Base()
  }

  /** Room or a ready front is announced after the sizes are settled. */
  function Announce(s: State): State {
    s.(producers := if s.CanQueueWork() then BroadcastQueue(s.producers) else s.producers,
       writer := if s.FrontReadyToWrite() then WakeWriter(s.writer) else s.writer)
  }

  /** The entry and the sizes once packing is done. */
  function Settled(s: State, c: nat, n: nat): State
    requires c < |s.compressors| && s.compressors[c].CPacking? && PackerHere(s, c)
  {
    var k := Place(s, c);
    s.(pending := s.pending[k := s.pending[k].(inProgress := false, compressed := n)],
       bytes := s.bytes - 2 * s.pending[k].size + n,
       compressors := s.compressors[c := CReady])
  }

  function ApplyFinish(s: State, c: nat, n: nat): State
    requires c < |s.compressors| && s.compressors[c].CPacking? && PackerHere(s, c)
  {
    Announce(Settled(s, c, n))
  }

  function ApplyWriteStep(s: State): State {
    if !s.keepGoing then s.(writer := WDone)
    else if s.FrontReadyToWrite() then
      var n := ReadyCount(s.pending);
      s.(pending := s.pending[n..], writer := WWriting(s.pending[..n]))
    else s.(writer := WWaiting)
  }

  /** The end of writeOutPending: the space is given back once the bytes are in the file. */
  function Written(s: State, batch: seq<Work>): State {
    var t := s.(written := s.written + Ids(batch), bytes := s.bytes - CompressedBytes(batch));
    t.(producers := if t.CanQueueWork() then BroadcastQueue(t.producers) else t.producers)
  }

  function ApplySetMax(s: State, max: nat): State {
    if max > s.maxBytes then
      s.(maxBytes := max, compressors := BroadcastWork(s.compressors), producers := BroadcastQueue(s.producers))
    else s.(maxBytes := max)
  }

  function ApplyJoined(s: State): State {
    var n := ReadyCount(s.pending);
    s.(compressors := [], pending := s.pending[n..], closer := KWriting(s.pending[..n]))
  }

  /** What Finish relies on. */
  predicate InQueue(s: State) {
    forall c :: 0 <= c < |s.compressors| ==> PackerHere(s, c)
  }

  function Apply(s: State, a: Action): State
    requires Enabled(s, a) && InQueue(s)
  {
    match a
    case Queue(p, size, wake) => ApplyQueue(s, p, size, wake)
    case Recheck(p) => WaitForRoom(s, p)
    case Scan(c) => ApplyScan(s, c)
    case Finish(c, n) => ApplyFinish(s, c, n)
    case WriteStep => ApplyWriteStep(s)
    case WriteDone => Written(s.(writer := WReady), s.writer.batch)
    case SetMax(max) => ApplySetMax(s, max)
    case StartClose =>
      s.(keepGoing := false, compressors := BroadcastWork(s.compressors), writer := WakeWriter(s.writer),
         closer := KJoining)
    case Joined => ApplyJoined(s)
    case CloseDone => Written(s.(closer := KClosed), s.closer.rest)
    case SpuriousWork(c) => s.(compressors := s.compressors[c := CReady])
    case SpuriousQueue(p) => s.(producers := s.producers[p := PReady])
    case SpuriousWrite => s.(writer := WReady)
  }
}
