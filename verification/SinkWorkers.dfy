/** The code of DataSeriesSink between taking and releasing the mutex (src/base/DataSeriesSink.cpp:70-102, 326-431,
    458-563), on the fields it updates.  Each method is one action of Pipeline. */
module SinkWorkers {
  import opened Pipeline
  import opened PipelineInvariant
  import opened PipelineRuns

  class DataSeriesSink {
    var keepGoing: bool
    var bytesInProgress: int
    var maxBytesInProgress: nat
    var pendingWork: seq<Work>
    var compressors: seq<Compressor>
    var writer: Writer
    var producers: seq<Producer>
    var closer: Closer
    var accepted: nat
    var written: seq<nat>

    function Now(): State
      reads this
    {
      State(keepGoing, bytesInProgress, maxBytesInProgress, pendingWork, compressors, writer, producers, closer,
            accepted, written)
    }

    constructor (compressorCount: nat, producerCount: nat, maxBytes: nat)
      requires compressorCount > 0 && maxBytes > 0
      ensures Now() == Init(compressorCount, producerCount, maxBytes) && Inv(Now())
    {
      keepGoing, bytesInProgress, maxBytesInProgress, pendingWork := true, 0, maxBytes, [];
      compressors := seq(compressorCount, _ => CReady);
      writer := WReady;
      producers := seq(producerCount, _ => PIdle);
      closer, accepted, written := KIdle, 0, [];
      new;
      InitInv(compressorCount, producerCount, maxBytes);
    }

    predicate CanQueueWork()
      reads this
    {
      bytesInProgress < maxBytesInProgress && |pendingWork| < 2 * |compressors|
    }

    predicate FrontReadyToWrite()
      reads this
    {
      if pendingWork == [] then false else pendingWork[0].Ready()
    }

    // ---------- producers ----------

    /** One look of the wait loop: the producer leaves when there is room. */
    method AwaitRoom(p: nat)
      requires p < |producers|
      modifies `producers
      ensures Now() == WaitForRoom(old(Now()), p)
      ensures producers[p] == if bytesInProgress < maxBytesInProgress && |pendingWork| < 2 * |compressors|
                              then PIdle else PWaiting
    {
      if CanQueueWork() {
        producers := producers[p := PIdle];
      } else {
        producers := producers[p := PWaiting];
      }
    }

    method QueueWriteExtent(p: nat, size: nat, wake: nat)
      requires Inv(Now()) && Enabled(Now(), Queue(p, size, wake))
      modifies this
      ensures Now() == Apply(old(Now()), Queue(p, size, wake)) && Inv(Now())
      ensures producers[p] == if bytesInProgress < maxBytesInProgress && |pendingWork| < 2 * |compressors|
                              then PIdle else PWaiting
    {
      StepKeepsInv(Now(), Queue(p, size, wake));
      bytesInProgress := bytesInProgress + size;
      pendingWork := pendingWork + [Work(accepted, size, false, 0)];
      accepted := accepted + 1;
      compressors := SignalWork(compressors, wake);
      AwaitRoom(p);
    }

    method SetMaxBytesInProgress(nbytes: nat)
      requires Inv(Now()) && Enabled(Now(), SetMax(nbytes))
      modifies this
      ensures Now() == Apply(old(Now()), SetMax(nbytes)) && Inv(Now())
    {
      StepKeepsInv(Now(), SetMax(nbytes));
      if nbytes > maxBytesInProgress {
        compressors := BroadcastWork(compressors);
        producers := BroadcastQueue(producers);
      }
      maxBytesInProgress := nbytes;
    }

    // ---------- compressors ----------

    /** The search through the queue. */
    method FindUnclaimed() returns (k: nat)
      ensures k == FirstUnclaimed(pendingWork)
    {
      k := 0;
      assert pendingWork[0..] == pendingWork;
      while k < |pendingWork|
        invariant k <= |pendingWork|
        invariant FirstUnclaimed(pendingWork) == k + FirstUnclaimed(pendingWork[k..])
      {
        if pendingWork[k].inProgress == false && pendingWork[k].compressed == 0 {
          return;
        }
        assert pendingWork[k..][1..] == pendingWork[k + 1..];
        k := k + 1;
      }
    }

    /** The loop of compressorThread up to the point where the mutex is released, to pack or to wait. */
    method CompressorScan(c: nat)
      requires Inv(Now()) && Enabled(Now(), Scan(c))
      modifies this
      ensures Now() == Apply(old(Now()), Scan(c)) && Inv(Now())
    {
      StepKeepsInv(Now(), Scan(c));
      ChecksAlwaysPass(Now(), Scan(c));
      var k := FindUnclaimed();
      if k < |pendingWork| {
        var work := pendingWork[k];
        pendingWork := pendingWork[k := work.(inProgress := true)];
        assert bytesInProgress >= work.size;
        bytesInProgress := bytesInProgress + work.size;
        compressors := compressors[c := CPacking(work.id)];
      } else if !keepGoing {
        compressors := compressors[c := CDone];
      } else {
        compressors := compressors[c := CWaiting];
      }
    }

    /** lockedProcessToCompress after packing into n bytes. */
    method LockedProcessDone(c: nat, n: nat)
      requires c < |compressors| && compressors[c].CPacking? && PackerHere(Now(), c)
      requires bytesInProgress >= 2 * pendingWork[Place(Now(), c)].size
      modifies this
      ensures Now() == Settled(old(Now()), c, n)
    {
      var k := Place(Now(), c);
      var work := pendingWork[k];
      assert work.inProgress;
      pendingWork := pendingWork[k := work.(inProgress := false, compressed := n)];
      bytesInProgress := bytesInProgress - 2 * work.size;
      bytesInProgress := bytesInProgress + n;
      compressors := compressors[c := CReady];
    }

    /** What compressorThread announces after that. */
    method AnnounceProgress()
      requires pendingWork != []
      modifies this
      ensures Now() == Announce(old(Now()))
    {
      if CanQueueWork() {
        producers := BroadcastQueue(producers);
      }
      if FrontReadyToWrite() {
        writer := WakeWriter(writer);
      }
    }

    method CompressorFinish(c: nat, n: nat)
      requires Inv(Now()) && Enabled(Now(), Finish(c, n))
      modifies this
      ensures Now() == Apply(old(Now()), Finish(c, n)) && Inv(Now())
    {
      StepKeepsInv(Now(), Finish(c, n));
      ChecksAlwaysPass(Now(), Finish(c, n));
      assert PackerHere(Now(), c);
      LockedProcessDone(c, n);
      AnnounceProgress();
    }

    // ---------- the writer ----------

    /** The loop that moves everything ready from the front of the queue to a list of its own. */
    method CollectReady() returns (toWrite: seq<Work>)
      modifies `pendingWork
      ensures var n := ReadyCount(old(pendingWork));
              toWrite == old(pendingWork)[..n] && pendingWork == old(pendingWork)[n..]
    {
      toWrite := [];
      while FrontReadyToWrite()
        invariant toWrite + pendingWork == old(pendingWork)
        invariant ReadyCount(old(pendingWork)) == |toWrite| + ReadyCount(pendingWork)
        decreases |pendingWork|
      {
        toWrite := toWrite + [pendingWork[0]];
        pendingWork := pendingWork[1..];
      }
      assert ReadyCount(pendingWork) == 0;
    }

    /** The loop that writes them, without the mutex, and counts the bytes. */
    method WriteBatch(toWrite: seq<Work>) returns (bytesWritten: nat)
      modifies `written
      ensures written == old(written) + Ids(toWrite) && bytesWritten == CompressedBytes(toWrite)
    {
      bytesWritten := 0;
      var i := 0;
      assert toWrite[0..] == toWrite;
      while i < |toWrite|
        invariant i <= |toWrite|
        invariant written == old(written) + Ids(toWrite[..i])
        invariant bytesWritten + CompressedBytes(toWrite[i..]) == CompressedBytes(toWrite)
      {
        var tc := toWrite[i];
        assert toWrite[i..][1..] == toWrite[i + 1..];
        assert Ids(toWrite[..i + 1]) == Ids(toWrite[..i]) + [tc.id];
        written := written + [tc.id];
        bytesWritten := bytesWritten + tc.compressed;
        i := i + 1;
      }
      assert toWrite[..i] == toWrite;
    }

    /** The loop of writerThread up to the point where the mutex is released, to write or to wait. */
    method WriterThreadStep()
      requires Inv(Now()) && Enabled(Now(), WriteStep)
      modifies this
      ensures Now() == Apply(old(Now()), WriteStep) && Inv(Now())
    {
      StepKeepsInv(Now(), WriteStep);
      if !keepGoing {
        writer := WDone;
      } else if FrontReadyToWrite() {
        var toWrite := CollectReady();
        writer := WWriting(toWrite);
      } else {
        writer := WWaiting;
      }
    }

    /** The rest of writeOutPending: writes the batch, then gives the space back and announces it. */
    method FinishBatch(toWrite: seq<Work>)
      requires bytesInProgress >= CompressedBytes(toWrite)
      modifies `written, `bytesInProgress, `producers
      ensures Now() == Written(old(Now()), toWrite)
    {
      var bytesWritten := WriteBatch(toWrite);
      bytesInProgress := bytesInProgress - bytesWritten;
      if CanQueueWork() {
        producers := BroadcastQueue(producers);
      }
    }

    method WriterThreadDone()
      requires Inv(Now()) && Enabled(Now(), WriteDone)
      modifies this
      ensures Now() == Apply(old(Now()), WriteDone) && Inv(Now())
    {
      StepKeepsInv(Now(), WriteDone);
      ChecksAlwaysPass(Now(), WriteDone);
      var toWrite := writer.batch;
      writer := WReady;
      FinishBatch(toWrite);
    }

    /** One turn of the loop, when nobody else comes in between: the ready front of the queue goes to the file. */
    method WriterTurn()
      requires Inv(Now()) && Enabled(Now(), WriteStep)
      modifies this
      ensures Inv(Now()) && (keepGoing ==> !writer.WDone? && !FrontReadyToWrite())
      ensures var n := if old(keepGoing) then ReadyCount(old(pendingWork)) else 0;
              pendingWork == old(pendingWork)[n..] && written == old(written) + Ids(old(pendingWork)[..n])
    {
      WriterThreadStep();
      if writer.WWriting? {
        WriterThreadDone();
      }
    }

    // ---------- close ----------

    method StopThreads()
      requires Inv(Now()) && Enabled(Now(), StartClose)
      modifies this
      ensures Now() == Apply(old(Now()), StartClose) && Inv(Now())
    {
      StepKeepsInv(Now(), StartClose);
      keepGoing := false;
      compressors := BroadcastWork(compressors);
      writer := WakeWriter(writer);
      closer := KJoining;
    }

    /** All threads have ended: close collects what the writer has left. */
    method ThreadsJoined()
      requires Inv(Now()) && Enabled(Now(), Joined)
      modifies this
      ensures Now() == Apply(old(Now()), Joined) && Inv(Now())
    {
      StepKeepsInv(Now(), Joined);
      compressors := [];
      var toWrite := CollectReady();
      closer := KWriting(toWrite);
    }

    /** After this, nothing is pending, no bytes are in progress, and every extent is written. */
    method CloseRest()
      requires Inv(Now()) && Enabled(Now(), CloseDone)
      modifies this
      ensures Now() == Apply(old(Now()), CloseDone) && Inv(Now())
      ensures closer.KClosed? && pendingWork == [] && bytesInProgress == 0
      ensures accepted == old(accepted) && |written| == accepted && forall i :: 0 <= i < accepted ==> written[i] == i
    {
      ghost var s := Now();
      NothingLeft(s);
      var toWrite := closer.rest;
      closer := KClosed;
      ghost var mid, end := Now(), Apply(s, CloseDone);
      assert mid == s.(closer := KClosed) && end == Written(mid, toWrite);
      FinishBatch(toWrite);
      assert Now() == end && Inv(end);
    }

    /** The index is packed and written by close itself, on the same account; every check on it passes. */
    method WriteIndex(size: nat, n: nat)
      requires closer.KClosed? && pendingWork == [] && bytesInProgress == 0 && n > 0
      modifies `pendingWork, `bytesInProgress, `accepted, `written, `producers
      ensures pendingWork == [] && bytesInProgress == 0
      ensures accepted == old(accepted) + 1 && written == old(written) + [old(accepted)]
    {
      var work := Work(accepted, size, true, 0);
      bytesInProgress, accepted := bytesInProgress + size, accepted + 1;
      assert bytesInProgress >= size;
      bytesInProgress := bytesInProgress + size;
      work := work.(inProgress := false, compressed := n);
      assert bytesInProgress >= 2 * size;
      bytesInProgress := bytesInProgress - 2 * size;
      bytesInProgress := bytesInProgress + n;
      pendingWork := [work];
      assert bytesInProgress == work.compressed && work.Ready();
      assert ReadyCount([work]) == 1 && [work][..1] == [work] && [work][1..] == [];
      assert CompressedBytes([work]) == n;
      var toWrite := CollectReady();
      FinishBatch(toWrite);
      assert Ids([work]) == [work.id];
    }

    /** close from the end of the threads on: all extents, and the index behind them, are written once, in order. */
    method CloseJoined(indexSize: nat, indexPacked: nat)
      requires Inv(Now()) && Enabled(Now(), Joined) && indexPacked > 0
      modifies this
      ensures closer.KClosed? && pendingWork == [] && bytesInProgress == 0
      ensures accepted == old(accepted) + 1 && |written| == accepted
      ensures forall i :: 0 <= i < accepted ==> written[i] == i
    {
      ThreadsJoined();
      CloseRest();
      WriteIndex(indexSize, indexPacked);
    }
  }

  /** Once the rest is written, everything is, in order, and nothing is left on the account. */
  lemma NothingLeft(s: State)
    requires Inv(s) && Enabled(s, CloseDone)
    ensures s.bytes >= CompressedBytes(s.closer.rest)
    ensures var t := Apply(s, CloseDone);
            && Inv(t) && t.pending == [] && t.bytes == 0 && |t.written| == t.accepted
            && forall i :: 0 <= i < t.accepted ==> t.written[i] == i
  {
    StepKeepsInv(s, CloseDone);
    ChecksAlwaysPass(s, CloseDone);
  }
}
