/** RotatingFileSink (src/base/RotatingFileSink.cpp:56-209): callers write extents and ask for rotations, a worker thread
    opens, swaps and closes the sinks, under two mutexes.  An action is a stretch of code under one of them. */
module Rotation {
  import opened Bytes

  /** closed_filename: a rotation to it closes the current sink and opens none. */
  const CLOSED_FILENAME := "/"

  /** Where the worker is: at the top of its loop, asleep, before and after it has taken the mutex that guards the
      current sink, with the old sink deleted, or gone. */
  datatype Stage =
    | Top | Asleep
    | Opening(name: string) | Nullifying
    | Deleting(retired: Option<nat>) | Deleted
    | Exited

  datatype Waiter = Away | Checking | Waiting

  /** A sink: its name, and the numbers of the extents given to it. */
  datatype File = File(name: string, extents: seq<nat>)

  /** Sinks are numbered in the order in which they became current; closed lists them as they are deleted.  request is
      new_filename, empty when no rotation is under way.  accepted counts the extents, granted lists the names for which
      changeFile has returned true, and carriedOut the rotations completed. */
  datatype State = State(
    accepted: nat,
    pending: seq<nat>,
    files: seq<File>,
    current: Option<nat>,
    closed: seq<nat>,
    request: string,
    continues: bool,
    stage: Stage,
    waiters: seq<Waiter>,
    granted: seq<string>,
    carriedOut: seq<string>)

  function Init(waiters: nat): State {
    State(0, [], [], None, [], "", true, Top, seq(waiters, _ => Away), [], [])
  }

  // ---------- actions ----------

  datatype Action =
    | WriteExtent
    | ChangeFile(name: string)
    | Loop            // the worker looks at new_filename
    | Swap            // stage 2: the new sink becomes current and takes what is pending
    | Nullify         // workerNullifyCurrent, under the mutex
    | Delete          // the old sink is closed, nothing locked
    | Complete        // new_filename is cleared
    | Wait(w: nat)    // waitForCanChange: one look at new_filename
    | Wake(w: nat)    // without a signal
    | WakeWorker
    | Stop            // the destructor, once its close has returned

  predicate Enabled(s: State, a: Action) {
    match a
    case WriteExtent => s.continues
    case ChangeFile(_) => true
    case Loop => s.stage.Top?
    case Swap => s.stage.Opening?
    case Nullify => s.stage.Nullifying?
    case Delete => s.stage.Deleting?
    case Complete => s.stage.Deleted?
    case Wait(w) => w < |s.waiters| && !s.waiters[w].Waiting? && s.continues
    case Wake(w) => w < |s.waiters| && s.waiters[w].Waiting?
    case WakeWorker => s.stage.Asleep?
    case Stop => s.request == "" && s.continues && s.current.None?
                 && forall w :: 0 <= w < |s.waiters| ==> s.waiters[w].Away?
  }

  function WakeAll(ws: seq<Waiter>): (r: seq<Waiter>)
    ensures |r| == |ws|
  {
    seq(|ws|, i requires 0 <= i < |ws| => if ws[i].Waiting? then Checking else ws[i])
  }

  function Rouse(stage: Stage): Stage {
    if stage.Asleep? then Top else stage
  }

  /** Broadcast on cond reaches the worker and the waiters. */
  function Broadcast(s: State): State {
    s.(stage := Rouse(s.stage), waiters := WakeAll(s.waiters))
  }

  function ApplyWrite(s: State): State {
    var next := s.(accepted := s.accepted + 1);
    if s.current.Some? && s.current.value < |s.files| then
      var f := s.files[s.current.value];
      next.(files := s.files[s.current.value := f.(extents := f.extents + [s.accepted])])
    else next.(pending := s.pending + [s.accepted])
  }

  /** changeFile succeeds. */
  predicate CanChange(s: State) {
    s.continues && s.request == ""
  }

  /** Whatever the name, the empty one included, the caller is told that the rotation is accepted. */
  function ApplyChange(s: State, name: string): State {
    if CanChange(s) then Broadcast(s.(request := name, granted := s.granted + [name])) else s
  }

  function ApplyLoop(s: State): State {
    if !s.continues then s.(stage := Exited)
    else if s.request == "" then s.(stage := Asleep)
    else if s.request == CLOSED_FILENAME then s.(stage := Nullifying)
    else s.(stage := Opening(s.request))
  }

  function ApplySwap(s: State): State
    requires s.stage.Opening?
  {
    s.(files := s.files + [File(s.stage.name, s.pending)],
       pending := [],
       current := Some(|s.files|),
       stage := Deleting(s.current))
  }

  function ApplyDelete(s: State): State
    requires s.stage.Deleting?
  {
    s.(closed := if s.stage.retired.Some? then s.closed + [s.stage.retired.value] else s.closed, stage := Deleted)
  }

  function ApplyComplete(s: State): State {
    s.(request := "", stage := Top, waiters := WakeAll(s.waiters), carriedOut := s.carriedOut + [s.request])
  }

  function Apply(s: State, a: Action): State
    requires Enabled(s, a)
  {
    match a
    case WriteExtent => ApplyWrite(s)
    case ChangeFile(name) => ApplyChange(s, name)
    case Loop => ApplyLoop(s)
    case Swap => ApplySwap(s)
    case Nullify => s.(current := None, stage := Deleting(s.current))
    case Delete => ApplyDelete(s)
    case Complete => ApplyComplete(s)
    case Wait(w) => s.(waiters := s.waiters[w := if s.request != "" then Waiting else Away])
    case Wake(w) => s.(waiters := s.waiters[w := Checking])
    case WakeWorker => s.(stage := Top)
    case Stop => Broadcast(s.(continues := false))
  }

  // ---------- the invariant ----------

  function Contents(files: seq<File>): (c: seq<nat>) {
    if files == [] then [] else Contents(files[..|files| - 1]) + files[|files| - 1].extents
  }

  ghost predicate Counting(s: seq<nat>, n: nat) {
    |s| == n && forall i :: 0 <= i < n ==> s[i] == i
  }

  /** The files in rotation order, and then what is pending, hold the accepted extents in order, each one once. */
  ghost predicate NothingLost(s: State) {
    Counting(Contents(s.files) + s.pending, s.accepted)
  }

  /** The current sink is the newest, and while there is one nothing is pending. */
  ghost predicate CurrentIsLast(s: State) {
    s.current.Some? ==> s.current.value == |s.files| - 1 && s.files != [] && s.pending == []
  }

  function Names(files: seq<File>): (r: seq<string>)
    ensures |r| == |files|
  {
    seq(|files|, i requires 0 <= i < |files| => files[i].name)
  }

  /** The names that are passed on to the worker: an empty one looks like no request at all. */
  function Requests(granted: seq<string>): (r: seq<string>) {
    if granted == [] then []
    else
      var front, name := Requests(granted[..|granted| - 1]), granted[|granted| - 1];
      if name != "" then front + [name] else front
  }

  /** The files that a run of rotations opens, in order. */
  function Opens(rotations: seq<string>): (r: seq<string>) {
    if rotations == [] then []
    else
      var front, name := Opens(rotations[..|rotations| - 1]), rotations[|rotations| - 1];
      if name != CLOSED_FILENAME then front + [name] else front
  }

  /** The rotations carried out, and the one under way. */
  function UnderWay(s: State): (r: seq<string>) {
    if s.request == "" then s.carriedOut else s.carriedOut + [s.request]
  }

  /** The worker has already put the request into effect. */
  predicate InEffect(s: State) {
    s.stage.Deleting? || s.stage.Deleted?
  }

  predicate Busy(s: State) {
    s.stage.Opening? || s.stage.Nullifying? || InEffect(s)
  }

  /** The rotations granted with a name are carried out one after the other, and the sinks are those they open. */
  ghost predicate OneAtATime(s: State) {
    && Requests(s.granted) == UnderWay(s)
    && (Busy(s) ==> s.request != "")
    && (s.stage.Opening? ==> s.request == s.stage.name != CLOSED_FILENAME)
    && (s.stage.Nullifying? ==> s.request == CLOSED_FILENAME)
    && Names(s.files) == Opens(if InEffect(s) then UnderWay(s) else s.carriedOut)
    && (InEffect(s) ==> (s.current.None? <==> s.request == CLOSED_FILENAME))
  }

  /** Sinks that were current and are not any more. */
  function Retired(s: State): nat {
    if s.current.Some? && |s.files| > 0 then |s.files| - 1 else |s.files|
  }

  /** Sinks are closed in order, each one once; only the one being deleted is still to be closed. */
  ghost predicate ClosedOnce(s: State) {
    if s.stage.Deleting? && s.stage.retired.Some? then
      s.stage.retired.value + 1 == Retired(s) && Counting(s.closed, Retired(s) - 1)
    else Counting(s.closed, Retired(s))
  }

  /** Nobody sleeps through what they wait for. */
  ghost predicate NoLostWakeup(s: State) {
    && (s.request != "" ==> !s.stage.Asleep? && !s.stage.Exited?)
    && (!s.continues ==> !s.stage.Asleep? && s.request == "" && s.current.None?)
    && (s.stage.Exited? ==> !s.continues)
    && forall w :: 0 <= w < |s.waiters| && s.waiters[w].Waiting? ==> s.request != ""
  }

  ghost predicate Inv(s: State) {
    NothingLost(s) && CurrentIsLast(s) && OneAtATime(s) && ClosedOnce(s) && NoLostWakeup(s)
  }

  lemma InitInv(waiters: nat)
    ensures Inv(Init(waiters))
  {
  }

  // ---------- each action keeps it ----------

  lemma ContentsAppend(files: seq<File>, f: File)
    ensures Contents(files + [f]) == Contents(files) + f.extents
  {
    assert (files + [f])[..|files|] == files;
  }

  /** Writing to the last file writes behind everything. */
  lemma ContentsGrow(files: seq<File>, x: nat)
    requires files != []
    ensures var n := |files| - 1;
            var f := files[n];
            var more := files[n := f.(extents := f.extents + [x])];
            Contents(more) == Contents(files) + [x] && Names(more) == Names(files)
  {
    var n := |files| - 1;
    var f := files[n];
    var more := files[n := f.(extents := f.extents + [x])];
    assert more[..n] == files[..n];
    assert Contents(files[..n]) + (f.extents + [x]) == Contents(files[..n]) + f.extents + [x];
  }

  lemma CountingAppend(s: seq<nat>, n: nat)
    requires Counting(s, n)
    ensures Counting(s + [n], n + 1)
  {
  }

  lemma WriteLosesNothing(s: State)
    requires NothingLost(s) && CurrentIsLast(s)
    ensures NothingLost(ApplyWrite(s))
  {
    var t, all := ApplyWrite(s), Contents(s.files) + s.pending;
    CountingAppend(all, s.accepted);
    assert Contents(t.files) + t.pending == all + [s.accepted] by {
      if s.current.Some? {
        ContentsGrow(s.files, s.accepted);
        assert all == Contents(s.files);
      }
    }
  }

  lemma WriteKeeps(s: State)
    requires Inv(s)
    ensures Inv(ApplyWrite(s))
  {
    var t := ApplyWrite(s);
    WriteLosesNothing(s);
    assert Names(t.files) == Names(s.files) by {
      if s.current.Some? {
        ContentsGrow(s.files, s.accepted);
      }
    }
  }

  lemma OpensAppend(rotations: seq<string>, name: string)
    ensures Opens(rotations + [name]) == if name != CLOSED_FILENAME then Opens(rotations) + [name] else Opens(rotations)
  {
    assert (rotations + [name])[..|rotations|] == rotations;
  }

  lemma RequestsAppend(granted: seq<string>, name: string)
    ensures Requests(granted + [name]) == if name != "" then Requests(granted) + [name] else Requests(granted)
  {
    assert (granted + [name])[..|granted|] == granted;
  }

  lemma NamesAppend(files: seq<File>, f: File)
    ensures Names(files + [f]) == Names(files) + [f.name]
  {
  }

  lemma SwapKeepsNames(s: State)
    requires OneAtATime(s) && Enabled(s, Swap)
    ensures OneAtATime(ApplySwap(s))
  {
    OpensAppend(s.carriedOut, s.request);
    NamesAppend(s.files, File(s.stage.name, s.pending));
  }

  lemma LastFilled(files: seq<File>, name: string, pending: seq<nat>)
    ensures var more := files + [File(name, [])];
            var f := more[|files|];
            more[|files| := f.(extents := f.extents + pending)] == files + [File(name, pending)]
  {
    assert [] + pending == pending;
  }

  lemma SwapLosesNothing(s: State)
    requires NothingLost(s) && Enabled(s, Swap)
    ensures NothingLost(ApplySwap(s))
  {
    var t := ApplySwap(s);
    ContentsAppend(s.files, File(s.stage.name, s.pending));
    assert Contents(t.files) + [] == Contents(s.files) + s.pending;
  }

  lemma SwapRetires(s: State)
    requires CurrentIsLast(s) && ClosedOnce(s) && Enabled(s, Swap)
    ensures CurrentIsLast(ApplySwap(s)) && ClosedOnce(ApplySwap(s))
  {
  }

  lemma SwapKeeps(s: State)
    requires Inv(s) && Enabled(s, Swap)
    ensures Inv(ApplySwap(s))
  {
    SwapLosesNothing(s);
    SwapKeepsNames(s);
    SwapRetires(s);
  }

  lemma NullifyKeeps(s: State)
    requires Inv(s) && Enabled(s, Nullify)
    ensures Inv(Apply(s, Nullify))
  {
    OpensAppend(s.carriedOut, s.request);
  }

  lemma ChangeKeeps(s: State, name: string)
    requires Inv(s)
    ensures Inv(ApplyChange(s, name))
  {
    RequestsAppend(s.granted, name);
  }

  lemma CompleteKeeps(s: State)
    requires Inv(s) && Enabled(s, Complete)
    ensures Inv(ApplyComplete(s))
  {
  }

  lemma LoopKeeps(s: State)
    requires Inv(s) && Enabled(s, Loop)
    ensures Inv(ApplyLoop(s))
  {
  }

  lemma DeleteKeeps(s: State)
    requires Inv(s) && Enabled(s, Delete)
    ensures Inv(ApplyDelete(s))
  {
    if s.stage.retired.Some? {
      CountingAppend(s.closed, s.stage.retired.value);
    }
  }

  lemma CallersKeep(s: State, a: Action)
    requires Inv(s) && Enabled(s, a) && (a.Wait? || a.Wake? || a.WakeWorker?)
    ensures Inv(Apply(s, a))
  {
  }

  lemma StopKeeps(s: State)
    requires Inv(s) && Enabled(s, Stop)
    ensures Inv(Apply(s, Stop))
  {
  }

  /** Every action keeps the invariant. */
  lemma StepKeepsInv(s: State, a: Action)
    requires Inv(s) && Enabled(s, a)
    ensures Inv(Apply(s, a))
  {
    if a.WriteExtent? {
      WriteKeeps(s);
    } else if a.Swap? {
      SwapKeeps(s);
    } else if a.Nullify? {
      NullifyKeeps(s);
    } else if a.ChangeFile? {
      ChangeKeeps(s, a.name);
    } else if a.Complete? {
      CompleteKeeps(s);
    } else if a.Loop? {
      LoopKeeps(s);
    } else if a.Delete? {
      DeleteKeeps(s);
    } else if a.Stop? {
      StopKeeps(s);
    } else {
      CallersKeep(s, a);
    }
  }

  // ---------- whole runs ----------

  ghost predicate Run(s: State, actions: seq<Action>)
    decreases |actions|
  {
    actions == [] || (Enabled(s, actions[0]) && Run(Apply(s, actions[0]), actions[1..]))
  }

  ghost function After(s: State, actions: seq<Action>): State
    requires Run(s, actions)
    decreases |actions|
  {
    if actions == [] then s else After(Apply(s, actions[0]), actions[1..])
  }

  lemma {:induction false} RunKeepsInv(s: State, actions: seq<Action>)
    requires Inv(s) && Run(s, actions)
    ensures Inv(After(s, actions))
    decreases |actions|
  {
    if actions != [] {
      StepKeepsInv(s, actions[0]);
      RunKeepsInv(Apply(s, actions[0]), actions[1..]);
    }
  }

  /** In every interleaving: nothing is lost or reordered, extents are pending only while no sink is current, and the
      rotations granted with a name are carried out one after the other, each one once, up to one that is still under
      way; the sinks are the files that those rotations open. */
  lemma EveryRun(waiters: nat, actions: seq<Action>)
    requires Run(Init(waiters), actions)
    ensures var s := After(Init(waiters), actions);
            && Counting(Contents(s.files) + s.pending, s.accepted)
            && (s.pending != [] ==> s.current.None?)
            && Requests(s.granted) == UnderWay(s)
            && (s.request == "" ==> Names(s.files) == Opens(Requests(s.granted)))
            && (s.stage.Exited? ==> s.current.None? && Counting(s.closed, |s.files|))
  {
    InitInv(waiters);
    RunKeepsInv(Init(waiters), actions);
  }

  /** changeFile says yes to any name while no rotation is under way.  Until it does so again, the rotation is carried
      out, once, if and only if the name is not empty. */
  lemma CarriedOutIfNamed(s: State, name: string, actions: seq<Action>)
    requires Inv(s) && CanChange(s) && Run(Apply(s, ChangeFile(name)), actions)
    ensures var t, u := Apply(s, ChangeFile(name)), After(Apply(s, ChangeFile(name)), actions);
            && t.granted == s.granted + [name] && (CanChange(t) <==> name == "")
            && (CanChange(u) && u.granted == t.granted ==>
                  (u.carriedOut == s.carriedOut + [name] <==> name != "")
                  && (name == "" ==> u.carriedOut == s.carriedOut && Names(u.files) == Names(s.files)))
  {
    var t := Apply(s, ChangeFile(name));
    StepKeepsInv(s, ChangeFile(name));
    RunKeepsInv(t, actions);
    RequestsAppend(s.granted, name);
  }

  /** The empty name: accepted, looked at by the worker, which goes back to sleep, and accepted again. */
  lemma EmptyNameForgotten()
    ensures var s := Apply(Apply(Apply(Init(0), Loop), ChangeFile("")), Loop);
            && s.granted == [""] && s.stage.Asleep? && CanChange(s)
            && s.carriedOut == [] && s.files == [] && s.current.None?
  {
  }

  // ---------- progress ----------

  predicate WorkerAction(a: Action) {
    a.Loop? || a.Swap? || a.Nullify? || a.Delete? || a.Complete?
  }

  /** Steps until the request is carried out, or until the worker sleeps or ends. */
  function Rank(s: State): nat {
    match s.stage
    case Top => if s.request != "" then 6 else 1
    case Opening(_) => 5
    case Nullifying => 5
    case Deleting(_) => 4
    case Deleted => 3
    case Asleep => 0
    case Exited => 0
  }

  /** A rotation under way always leaves the worker a step, and each step brings its end closer; without one, the worker
      has at most one look left before it sleeps or ends.  Whoever waits, waits for a rotation under way. */
  lemma RotationProceeds(s: State, a: Action)
    requires Inv(s)
    ensures s.request != "" ==> exists b :: WorkerAction(b) && Enabled(s, b)
    ensures s.request != "" <==> Rank(s) > 1
    ensures Enabled(s, a) && WorkerAction(a) ==> Rank(Apply(s, a)) < Rank(s)
    ensures (exists w :: 0 <= w < |s.waiters| && s.waiters[w].Waiting?) ==> s.request != ""
  {
    if s.request != "" {
      var b := match s.stage
        case Top => Loop
        case Opening(_) => Swap
        case Nullifying => Nullify
        case Deleting(_) => Delete
        case _ => Complete;
      assert WorkerAction(b) && Enabled(s, b);
    }
  }

  /** waitForCanChange: it returns from a look at new_filename if and only if no rotation is under way, and otherwise sleeps;
      nothing but such a look lets a caller go who waits. */
  lemma WaitsForChange(s: State, a: Action, w: nat)
    requires Enabled(s, a) && w < |s.waiters|
    ensures var t := Apply(s, a);
            && |t.waiters| == |s.waiters|
            && (a == Wait(w) ==> t.waiters[w] == if s.request == "" then Away else Waiting)
            && (a == Wait(w) ==> t == s.(waiters := t.waiters))
            && (a != Wait(w) ==> (t.waiters[w].Away? <==> s.waiters[w].Away?))
  {
  }

  /** What the worker does from the top of its loop to the next time it gets there, sleeps or ends. */
  function TurnOf(s: State): (actions: seq<Action>) {
    if !s.continues || s.request == "" then [Loop]
    else if s.request == CLOSED_FILENAME then [Loop, Nullify, Delete, Complete]
    else [Loop, Swap, Delete, Complete]
  }

  lemma RunStep(s: State, a: Action, rest: seq<Action>)
    requires Enabled(s, a) && Run(Apply(s, a), rest)
    ensures Run(s, [a] + rest) && After(s, [a] + rest) == After(Apply(s, a), rest)
  {
    assert ([a] + rest)[1..] == rest;
  }

  lemma TailRuns(s: State)
    requires s.stage.Deleting?
    ensures Run(s, [Delete, Complete]) && After(s, [Delete, Complete]) == ApplyComplete(ApplyDelete(s))
  {
    RunStep(ApplyDelete(s), Complete, []);
    RunStep(s, Delete, [Complete]);
  }

  lemma TurnRuns(s: State)
    requires Enabled(s, Loop)
    ensures Run(s, TurnOf(s))
    ensures var t, end := ApplyLoop(s), After(s, TurnOf(s));
            && (!s.continues || s.request == "" ==> end == t)
            && (t.stage.Nullifying? ==> end == ApplyComplete(ApplyDelete(Apply(t, Nullify))))
            && (t.stage.Opening? ==> end == ApplyComplete(ApplyDelete(ApplySwap(t))))
  {
    var t := ApplyLoop(s);
    if s.continues && s.request != "" {
      var step := if s.request == CLOSED_FILENAME then Nullify else Swap;
      TailRuns(Apply(t, step));
      RunStep(t, step, [Delete, Complete]);
      RunStep(s, Loop, [step, Delete, Complete]);
    }
  }

  // ---------- the code ----------

  class RotatingFileSink {
    var accepted: nat
    var pending: seq<nat>
    var files: seq<File>
    var currentSink: Option<nat>
    var closed: seq<nat>
    var newFilename: string
    var workerContinue: bool
    var stage: Stage
    var waiters: seq<Waiter>
    ghost var granted: seq<string>
    ghost var carriedOut: seq<string>

    ghost function Now(): State
      reads this
    {
      State(accepted, pending, files, currentSink, closed, newFilename, workerContinue, stage, waiters, granted,
            carriedOut)
    }

    constructor (waiterCount: nat)
      ensures Now() == Init(waiterCount) && Inv(Now())
    {
      accepted, pending, files, currentSink, closed := 0, [], [], None, [];
      newFilename, workerContinue, stage := "", true, Top;
      waiters := seq(waiterCount, _ => Away);
      granted, carriedOut := [], [];
      new;
      InitInv(waiterCount);
    }

    method GiveToCurrent(x: nat)
      requires currentSink.Some? && currentSink.value < |files|
      modifies `files
      ensures files == var f := old(files)[currentSink.value];
                       old(files)[currentSink.value := f.(extents := f.extents + [x])]
    {
      var f := files[currentSink.value];
      files := files[currentSink.value := f.(extents := f.extents + [x])];
    }

    method Write()
      requires Inv(Now()) && Enabled(Now(), WriteExtent)
      modifies this
      ensures Now() == Apply(old(Now()), WriteExtent) && Inv(Now())
    {
      StepKeepsInv(Now(), WriteExtent);
      if currentSink.Some? {
        GiveToCurrent(accepted);
      } else {
        pending := pending + [accepted];
      }
      accepted := accepted + 1;
    }

    /** Accepted exactly when no rotation is under way; then one is, unless the name is empty. */
    method Change(name: string) returns (ok: bool)
      requires Inv(Now())
      modifies this
      ensures Now() == Apply(old(Now()), ChangeFile(name)) && Inv(Now())
      ensures ok <==> old(workerContinue && newFilename == "")
      ensures ok ==> granted == old(granted) + [name] && newFilename == name
      ensures !ok ==> Now() == old(Now())
    {
      StepKeepsInv(Now(), ChangeFile(name));
      if workerContinue && newFilename == "" {
        newFilename := name;
        granted := granted + [name];
        stage := Rouse(stage);
        waiters := WakeAll(waiters);
        return true;
      }
      ok := false;
    }

    /** The loop that gives everything pending to the current sink, one after the other. */
    method GivePending()
      requires currentSink.Some? && currentSink.value < |files|
      modifies `files, `pending
      ensures pending == []
      ensures files == var f := old(files)[currentSink.value];
                       old(files)[currentSink.value := f.(extents := f.extents + old(pending))]
    {
      ghost var c, was, all, moved: seq<nat> := currentSink.value, files, pending, [];
      assert was[c].extents + [] == was[c].extents;
      while pending != []
        invariant c < |files| && moved + pending == all
        invariant files == was[c := was[c].(extents := was[c].extents + moved)]
        decreases |pending|
      {
        var front := pending[0];
        assert moved + [front] + pending[1..] == moved + pending;
        assert was[c].extents + (moved + [front]) == was[c].extents + moved + [front];
        GiveToCurrent(front);
        pending := pending[1..];
        moved := moved + [front];
      }
      assert moved + [] == moved;
    }

    /** Stage 2 of the worker: the new sink becomes current and takes everything that is pending. */
    method SwapIn()
      requires Inv(Now()) && Enabled(Now(), Swap)
      modifies this
      ensures Now() == Apply(old(Now()), Swap) && Inv(Now())
    {
      ghost var s := Now();
      StepKeepsInv(s, Swap);
      var oldSink, name := currentSink, stage.name;
      files := files + [File(name, [])];
      currentSink := Some(|files| - 1);
      LastFilled(s.files, name, s.pending);
      GivePending();
      stage := Deleting(oldSink);
      assert Now() == ApplySwap(s);
    }

    method NullifyCurrent()
      requires Inv(Now()) && Enabled(Now(), Nullify)
      modifies this
      ensures Now() == Apply(old(Now()), Nullify) && Inv(Now())
    {
      StepKeepsInv(Now(), Nullify);
      var oldSink := currentSink;
      currentSink := None;
      stage := Deleting(oldSink);
    }

    method DeleteOld()
      requires Inv(Now()) && Enabled(Now(), Delete)
      modifies this
      ensures Now() == ApplyDelete(old(Now())) && Inv(Now())
    {
      StepKeepsInv(Now(), Delete);
      if stage.retired.Some? {
        closed := closed + [stage.retired.value];
      }
      stage := Deleted;
    }

    method CompleteChange()
      requires Inv(Now()) && Enabled(Now(), Complete)
      modifies this
      ensures Now() == ApplyComplete(old(Now())) && Inv(Now())
    {
      StepKeepsInv(Now(), Complete);
      carriedOut := carriedOut + [newFilename];
      newFilename, stage, waiters := "", Top, WakeAll(waiters);
    }

    /** One turn of the worker's loop, when nobody else comes in between. */
    method Turn()
      requires Inv(Now()) && Enabled(Now(), Loop)
      modifies this
      ensures Inv(Now()) && Run(old(Now()), TurnOf(old(Now()))) && Now() == After(old(Now()), TurnOf(old(Now())))
      ensures old(workerContinue && newFilename != "") ==>
        newFilename == "" && stage.Top? && carriedOut == old(carriedOut) + [old(newFilename)]
    {
      StepKeepsInv(Now(), Loop);
      ghost var s := Now();
      if !workerContinue {
        stage := Exited;
      } else if newFilename == "" {
        stage := Asleep;
      } else if newFilename == CLOSED_FILENAME {
        stage := Nullifying;
        NullifyCurrent();
        DeleteOld();
        CompleteChange();
      } else {
        stage := Opening(newFilename);
        SwapIn();
        DeleteOld();
        CompleteChange();
      }
      TurnRuns(s);
    }
  }
}
