/** The writer pipeline over whole runs: safety in every interleaving, and progress. */
module PipelineRuns {
  import opened Pipeline
  import opened PipelineInvariant

  /** Every action keeps the invariant. */
  lemma StepKeepsInv(s: State, a: Action)
    requires Inv(s) && Enabled(s, a)
    ensures Inv(Apply(s, a))
  {
    OrderKept(s, a);
    BytesKept(s, a);
    PackingKept(s, a);
    WorkKept(s, a);
    WriteKept(s, a);
    RoomKept(s, a);
    PhasesKept(s, a);
  }

  /** The assertions that the code makes about sizes and queues around the action. */
  ghost predicate ChecksPass(s: State, a: Action)
    requires Enabled(s, a) && InQueue(s)
  {
    match a
    case Scan(c) =>
      var k := FirstUnclaimed(s.pending);
      k < |s.pending| ==> s.bytes >= s.pending[k].size
    case Finish(c, n) =>
      var k := Place(s, c);
      s.pending[k].inProgress && s.bytes >= 2 * s.pending[k].size && Apply(s, a).pending != []
    case WriteDone => s.bytes >= CompressedBytes(s.writer.batch)
    case CloseDone =>
      s.bytes >= CompressedBytes(s.closer.rest) && Apply(s, a).pending == [] && Apply(s, a).bytes == 0
    case _ => true
  }

  lemma ChecksAlwaysPass(s: State, a: Action)
    requires Inv(s) && Enabled(s, a)
    ensures ChecksPass(s, a)
  {
    match a {
      case Scan(c) =>
        var k := FirstUnclaimed(s.pending);
        if k < |s.pending| {
          CostsUpdate(s.pending, k, s.pending[k]);
        }
      case Finish(c, n) =>
        var k := Place(s, c);
        CostsUpdate(s.pending, k, s.pending[k]);
      case WriteDone => assert s.Held() == s.writer.batch;
      case CloseDone => assert s.Held() == s.closer.rest;
      case _ =>
    }
  }

  // ---------- whole runs ----------

  ghost predicate Run(s: State, actions: seq<Action>)
    decreases |actions|
  {
    actions == [] || (Enabled(s, actions[0]) && InQueue(s) && Run(Apply(s, actions[0]), actions[1..]))
  }

  ghost function After(s: State, actions: seq<Action>): State
    requires Run(s, actions)
    decreases |actions|
  {
    if actions == [] then s else After(Apply(s, actions[0]), actions[1..])
  }

  lemma {:induction false} RunKeepsInv(s: State, actions: seq<Action>)
    requires Inv(s) && Run(s, actions)
    ensures Inv(After(s, actions))
    decreases |actions|
  {
    if actions != [] {
      StepKeepsInv(s, actions[0]);
      RunKeepsInv(Apply(s, actions[0]), actions[1..]);
    }
  }

  /** In every interleaving: the file holds a prefix of the queueing order, what is being packed is still in the queue,
      the byte count is the sum the design gives it, and once closed everything queued is in the file and no bytes are
      left. */
  lemma EveryRun(compressors: nat, producers: nat, maxBytes: nat, actions: seq<Action>)
    requires compressors > 0 && maxBytes > 0
    requires Run(Init(compressors, producers, maxBytes), actions)
    ensures var s := After(Init(compressors, producers, maxBytes), actions);
            && |s.written| <= s.accepted && (forall i :: 0 <= i < |s.written| ==> s.written[i] == i)
            && InQueue(s)
            && s.bytes == Costs(s.pending) + CompressedBytes(s.Held()) >= 0
            && (s.closer.KClosed? ==> |s.written| == s.accepted && s.bytes == 0 && s.pending == [])
  {
    InitInv(compressors, producers, maxBytes);
    RunKeepsInv(Init(compressors, producers, maxBytes), actions);
  }

  // ---------- progress ----------

  /** Steps of the compressors, the writer, and close once it has begun. */
  predicate WorkerAction(a: Action) {
    a.Scan? || a.Finish? || a.WriteStep? || a.WriteDone? || a.Joined? || a.CloseDone?
  }

  /** What is left to do for an entry. */
  function Effort(w: Work): nat {
    if w.compressed > 0 then 2 else 5
  }

  function Efforts(ws: seq<Work>): nat {
    if ws == [] then 0 else Effort(ws[0]) + Efforts(ws[1..])
  }

  function Awake(cs: seq<Compressor>): nat {
    if cs == [] then 0 else (if cs[0].CReady? then 1 else 0) + Awake(cs[1..])
  }

  function Rank(s: State): nat {
    Efforts(s.pending) + Awake(s.compressors)
      + (if s.writer.WReady? then 1 else if s.writer.WWriting? then 2 else 0)
      + (if s.closer.KJoining? then 2 else if s.closer.KWriting? then 1 else 0)
  }

  lemma {:induction false} EffortsUpdate(ws: seq<Work>, k: nat, w: Work)
    requires k < |ws|
    ensures Efforts(ws[k := w]) == Efforts(ws) - Effort(ws[k]) + Effort(w)
    decreases |ws|
  {
    if k > 0 {
      EffortsUpdate(ws[1..], k - 1, w);
      assert ws[k := w][1..] == ws[1..][k - 1 := w];
    } else {
      assert ws[0 := w][1..] == ws[1..];
    }
  }

  lemma {:induction false} EffortsTake(ws: seq<Work>, n: nat)
    requires n <= |ws|
    ensures Efforts(ws) >= Efforts(ws[n..]) + 2 * n
    decreases n
  {
    if n > 0 {
      EffortsTake(ws[1..], n - 1);
      assert ws[n..] == ws[1..][n - 1..];
    } else {
      assert ws[0..] == ws;
    }
  }

  lemma {:induction false} AwakeUpdate(cs: seq<Compressor>, c: nat, x: Compressor)
    requires c < |cs|
    ensures Awake(cs[c := x]) == Awake(cs) - (if cs[c].CReady? then 1 else 0) + if x.CReady? then 1 else 0
    decreases |cs|
  {
    if c > 0 {
      AwakeUpdate(cs[1..], c - 1, x);
      assert cs[c := x][1..] == cs[1..][c - 1 := x];
    } else {
      assert cs[0 := x][1..] == cs[1..];
    }
  }

  lemma ScanDescends(s: State, c: nat)
    requires Inv(s) && Enabled(s, Scan(c))
    ensures Rank(ApplyScan(s, c)) < Rank(s)
  {
    var k := FirstUnclaimed(s.pending);
    if k < |s.pending| {
      EffortsUpdate(s.pending, k, s.pending[k].(inProgress := true));
      AwakeUpdate(s.compressors, c, CPacking(s.pending[k].id));
    } else {
      AwakeUpdate(s.compressors, c, if s.keepGoing then CWaiting else CDone);
    }
  }

  lemma FinishDescends(s: State, c: nat, n: nat)
    requires Inv(s) && Enabled(s, Finish(c, n))
    ensures Rank(ApplyFinish(s, c, n)) < Rank(s)
  {
    var k := Place(s, c);
    EffortsUpdate(s.pending, k, s.pending[k].(inProgress := false, compressed := n));
    AwakeUpdate(s.compressors, c, CReady);
  }

  /** Every step of a worker comes closer to having nothing left to do. */
  lemma WorkerDescends(s: State, a: Action)
    requires Inv(s) && Enabled(s, a) && WorkerAction(a)
    ensures Rank(Apply(s, a)) < Rank(s)
  {
    match a {
      case Scan(c) => ScanDescends(s, c);
      case Finish(c, n) => FinishDescends(s, c, n);
      case _ => EffortsTake(s.pending, ReadyCount(s.pending));
    }
  }

  /** So without new work, any run of worker steps is at most this long. */
  lemma {:induction false} WorkerRunsEnd(s: State, actions: seq<Action>)
    requires Inv(s) && Run(s, actions) && forall i :: 0 <= i < |actions| ==> WorkerAction(actions[i])
    ensures |actions| + Rank(After(s, actions)) <= Rank(s)
    decreases |actions|
  {
    if actions != [] {
      WorkerDescends(s, actions[0]);
      StepKeepsInv(s, actions[0]);
      WorkerRunsEnd(Apply(s, actions[0]), actions[1..]);
    }
  }

  /** Something is still to be written, or somebody waits for the pipeline. */
  ghost predicate Unfinished(s: State) {
    || s.pending != [] || s.Held() != [] || s.closer.KJoining?
    || exists p :: 0 <= p < |s.producers| && s.producers[p].PWaiting?
  }

  ghost predicate Stuck(s: State) {
    && AllAsleep(s.compressors)
    && (s.writer.WWaiting? || s.writer.WDone?)
    && !Enabled(s, Joined) && !s.closer.KWriting?
  }

  lemma StuckIsFinished(s: State)
    requires Inv(s) && Stuck(s)
    ensures !Unfinished(s)
  {
    AllReady(s);
    assert s.pending == [] && s.Held() == [];
  }

  /** No wakeup is ever lost: while anything is unfinished, some worker has a step to take. */
  lemma SomeWorkerCanStep(s: State) returns (a: Action)
    requires Inv(s) && Unfinished(s)
    ensures WorkerAction(a) && Enabled(s, a)
  {
    if c :| 0 <= c < |s.compressors| && s.compressors[c].CReady? {
      a := Scan(c);
    } else if c :| 0 <= c < |s.compressors| && s.compressors[c].CPacking? {
      a := Finish(c, 1);
    } else if s.writer.WReady? {
      a := WriteStep;
    } else if s.writer.WWriting? {
      a := WriteDone;
    } else if s.closer.KWriting? {
      a := CloseDone;
    } else {
      a := Joined;
      if !Enabled(s, Joined) {
        StuckIsFinished(s);
      }
    }
  }
}
