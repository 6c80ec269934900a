/** What the upload session shows of itself: its two statuses and the files that failed (src/ndm_client.ts). */
module NdmStatus {
  import opened Wrappers
  import opened NdmSession
  import opened NdmTransfers

  // ---- the statuses

  /** The two statuses belong together; `ready` says whether anything had to be sent. */
  predicate StatusesAgree(s: Session) {
    match s.objectStatus
    case ObjPending => s.uploadStatus == NotStarted || s.uploadStatus == InProgress
    case Finalizing => s.uploadStatus == InProgress
    case Ready => s.uploadStatus == if s.transmittedBytes == 0 then NotRequired else UploadCompleted
    case ObjFailed => s.uploadStatus == UploadFailed
    case ObjCancelled => s.uploadStatus == UploadCancelled
  }

  /** The status while a run is at a phase; a cancelled one has its signal aborted. */
  predicate PhaseShows(s: Session, phase: Phase) {
    match phase
    case Transferring => s.uploadStatus == InProgress && s.objectStatus == ObjPending
    case Registering => s.uploadStatus == InProgress && s.objectStatus == Finalizing
    case Threw => s.uploadStatus == InProgress && s.objectStatus != Ready
    case Returned => s.objectStatus == Ready
    case Caught => s.objectStatus == ObjFailed
    case Settled => true
  }

  ghost predicate ActiveShows(s: Session) {
    s.uploadPromise.Some? && s.uploadPromise.value in s.runs ==>
      var run := s.runs[s.uploadPromise.value];
      PhaseShows(s, run.phase) || (s.objectStatus == ObjCancelled && run.controller in s.aborted)
  }

  ghost predicate StatusInv(s: Session) {
    StatusesAgree(s) && ActiveShows(s) && (s.uploadStatus == NotStarted ==> s.controllers == 0)
  }

  /** A worker's step touches files and its own run, not that run's phase or controller. */
  ghost predicate Touches(s: Session, t: Session, r: nat) {
    && r in s.runs && r in t.runs && t == s.(files := t.files, runs := s.runs[r := t.runs[r]])
    && t.runs[r].phase == s.runs[r].phase && t.runs[r].controller == s.runs[r].controller
  }

  lemma LoopTouches(s: Session, r: nat, w: nat)
    requires HasWorker(s, r, w) && s.runs[r].workers[w].Looping?
    ensures Touches(s, LoopStep(s, r, s.runs[r], w), r)
  {
    hide IsAborted;
  }

  lemma ChunkTouches(s: Session, r: nat, w: nat)
    requires HasWorker(s, r, w) && s.runs[r].workers[w].AtChunk?
    ensures Touches(s, ChunkStep(s, r, s.runs[r], w), r)
  {
    hide IsAborted;
    var t := ChunkStep(s, r, s.runs[r], w);
    assert t.runs == s.runs[r := t.runs[r]];
  }

  lemma ResumeTouches(s: Session, r: nat, w: nat)
    requires HasWorker(s, r, w) && s.runs[r].workers[w].Awaiting?
    ensures Touches(s, ResumeStep(s, r, s.runs[r], w), r)
  {
    hide SumUploaded;
    var t := ResumeStep(s, r, s.runs[r], w);
    assert t.runs == s.runs[r := t.runs[r]];
  }

  predicate WorkerEvent(e: Event) { e.Loop? || e.NextChunk? || e.Resume? }

  lemma WorkerTouches(s: Session, e: Event)
    requires WorkerEvent(e)
    ensures Step(s, e) == s || (HasWorker(s, e.run, e.worker) && Touches(s, Step(s, e), e.run))
  {
    hide LoopStep, ChunkStep, ResumeStep, Touches;
    match e {
      case Loop(r, w) => if HasWorker(s, r, w) && s.runs[r].workers[w].Looping? { LoopTouches(s, r, w); }
      case NextChunk(r, w) => if HasWorker(s, r, w) && s.runs[r].workers[w].AtChunk? { ChunkTouches(s, r, w); }
      case Resume(r, w) => if HasWorker(s, r, w) && s.runs[r].workers[w].Awaiting? { ResumeTouches(s, r, w); }
    }
  }

  lemma SettleStatus(s: Session, r: nat, id: nat, ok: bool, sent: bool)
    requires InPhase(s, r, Transferring) && Inv(s) && StatusInv(s)
    ensures StatusInv(SettleStep(s, r, s.runs[r], id, ok, sent))
  {
    assert ActiveTransfer(s, r);
    ActiveFacts(s, r);
    hide Inv;
  }

  lemma PhaseStatus(s: Session, e: Event)
    requires Inv(s) && StatusInv(s)
    requires (e.WorkersDone? || e.Registered? || e.RegisterFails? || e.CatchError? || e.Finally?)
    ensures StatusInv(Step(s, e))
  {
    hide StatusInv;
    if e.WorkersDone? {
      JoinStatus(s, e);
    } else if e.Registered? || e.RegisterFails? {
      RegisterStatus(s, e);
    } else {
      EndStatus(s, e);
    }
  }

  lemma JoinStatus(s: Session, e: Event)
    requires Inv(s) && StatusInv(s) && e.WorkersDone?
    ensures StatusInv(Step(s, e))
  {
    hide Transfer, FilesSound, AllCompleted;
  }

  lemma RegisterStatus(s: Session, e: Event)
    requires Inv(s) && StatusInv(s) && (e.Registered? || e.RegisterFails?)
    ensures StatusInv(Step(s, e))
  {
    hide AllConfirmed, Transfer, FilesSound, AllCompleted;
  }

  lemma EndStatus(s: Session, e: Event)
    requires Inv(s) && StatusInv(s) && (e.CatchError? || e.Finally?)
    ensures StatusInv(Step(s, e))
  {
    hide Transfer, FilesSound, AllCompleted;
  }

  lemma OtherStatus(s: Session, e: Event)
    requires Inv(s) && StatusInv(s) && (e.Start? || e.Cancel? || e.SignalAborts? || e.Progress? || e.LateReport?)
    ensures StatusInv(Step(s, e))
  {
    hide SumUploaded, Transfer, FilesSound, AllCompleted;
  }

  lemma StepStatus(s: Session, e: Event)
    requires Inv(s) && StatusInv(s)
    ensures StatusInv(Step(s, e))
  {
    if WorkerEvent(e) {
      WorkerTouches(s, e);
      hide Step, Inv;
    } else if e.TaskSettles? {
      hide SettleStep, Inv, StatusInv;
      if InPhase(s, e.run, Transferring) { SettleStatus(s, e.run, e.id, e.success, e.sent); }
    } else {
      hide Step, Inv, StatusInv;
      if e.WorkersDone? || e.Registered? || e.RegisterFails? || e.CatchError? || e.Finally? { PhaseStatus(s, e); }
      else { OtherStatus(s, e); }
    }
  }

  /** In every run of a session the statuses belong together, and show what its upload is at. */
  lemma {:induction false} RunStatus(s: Session, events: seq<Event>)
    requires Inv(s) && StatusInv(s)
    ensures StatusInv(Execute(s, events))
    decreases |events|
  {
    hide Step, Inv, StatusInv;
    if events != [] {
      StepInv(s, events[0]);
      StepStatus(s, events[0]);
      RunStatus(Step(s, events[0]), events[1..]);
    }
  }

  lemma InitStatus(s: Session)
    requires Initial(s)
    ensures StatusInv(s)
  {}

  /** A start takes effect exactly when the session is not ready or being uploaded and the call is in order. */
  lemma StartIff(s: Session, e: Event)
    requires e.Start?
    ensures Step(s, e) == s
       <==> s.objectStatus == Ready || s.uploadPromise.Some? || e.concurrency < 1 || e.signalAborted || !e.endpointKnown
  {}

  // ---- shown as uploading, while nothing is

  /** The status says that the upload is in progress, and there is none. */
  predicate Stranded(s: Session) { s.uploadStatus == InProgress && s.uploadPromise.None? }

  /**
   * A start that asks for a binding of a session that has not exactly one root: it throws after the statuses changed.
   */
  predicate BadBind(roots: nat, e: Event) { e.Start? && e.bind && roots != 1 }

  lemma BadBindStrands(s: Session, e: Event)
    requires e.Start? && CanStart(s, e)
    ensures Stranded(Step(s, e)) <==> BadBind(s.roots, e)
    ensures BadBind(s.roots, e) ==> Step(s, e).runs == s.runs
  {}

  lemma StrandedStep(s: Session, e: Event)
    requires Inv(s) && StatusInv(s) && !Stranded(s) && !BadBind(s.roots, e)
    ensures !Stranded(Step(s, e))
  {
    if WorkerEvent(e) {
      WorkerTouches(s, e);
      hide Step, Inv, StatusInv;
    } else {
      hide SettleStep, SumUploaded, AllConfirmed, Transfer, FilesSound, AllCompleted;
      if e.TaskSettles? && InPhase(s, e.run, Transferring) {
        SettleKeeps(s, e.run, e.id, e.success, e.sent);
      }
    }
  }

  lemma SettleKeeps(s: Session, r: nat, id: nat, ok: bool, sent: bool)
    requires r in s.runs
    ensures var t := SettleStep(s, r, s.runs[r], id, ok, sent);
            t == s.(transmittedBytes := t.transmittedBytes, runs := t.runs)
  {}

  predicate HasBadBind(roots: nat, events: seq<Event>) { exists k :: 0 <= k < |events| && BadBind(roots, events[k]) }

  /** In every run, a session that shows an upload in progress has one, unless some start asked for a bad binding. */
  lemma {:induction false} UploadingIsActive(s: Session, events: seq<Event>)
    requires Inv(s) && StatusInv(s) && !Stranded(s) && !HasBadBind(s.roots, events)
    ensures !Stranded(Execute(s, events))
    decreases |events|
  {
    hide Step, Inv, StatusInv, Stranded, BadBind, SameLengths;
    if events != [] {
      assert !BadBind(s.roots, events[0]);
      StepInv(s, events[0]);
      StepStatus(s, events[0]);
      StrandedStep(s, events[0]);
      StepShape(s, events[0]);
      assert forall k | 0 <= k < |events[1..]| :: events[1..][k] == events[k + 1];
      UploadingIsActive(Step(s, events[0]), events[1..]);
    }
  }

  // ---- why it ended

  /** A run that threw ends as cancelled exactly when its signal was aborted, and as failed otherwise. */
  lemma ThrewEndsAs(s: Session, r: nat)
    requires Inv(s) && InPhase(s, r, Threw)
    ensures var t := Step(s, CatchError(r));
            && t.objectStatus == (if s.runs[r].controller in s.aborted then ObjCancelled else ObjFailed)
            && t.uploadStatus == if s.runs[r].controller in s.aborted then UploadCancelled else UploadFailed
  {}

  lemma CancelledStep(s: Session, e: Event)
    requires Inv(s) && StatusInv(s) && s.objectStatus == ObjCancelled && !e.Start?
    ensures Step(s, e).objectStatus == ObjCancelled
  {
    if WorkerEvent(e) {
      WorkerTouches(s, e);
    } else {
      hide SettleStep, SumUploaded, AllConfirmed, Transfer, FilesSound, AllCompleted;
      if e.TaskSettles? && InPhase(s, e.run, Transferring) { SettleKeeps(s, e.run, e.id, e.success, e.sent); }
    }
  }

  /** A cancelled session stays cancelled, whatever its upload was at, until it is started again. */
  lemma {:induction false} CancelledStays(s: Session, events: seq<Event>)
    requires Inv(s) && StatusInv(s) && s.objectStatus == ObjCancelled && forall k | 0 <= k < |events| ::
                                                                           !events[k].Start?
    ensures Execute(s, events).objectStatus == ObjCancelled && Execute(s, events).uploadStatus == UploadCancelled
    decreases |events|
  {
    hide Step, Inv, ActiveShows;
    if events != [] {
      StepInv(s, events[0]);
      StepStatus(s, events[0]);
      CancelledStep(s, events[0]);
      CancelledStays(Step(s, events[0]), events[1..]);
    }
  }

  lemma CancelCancels(s: Session)
    requires s.objectStatus != Ready
    ensures Step(s, Cancel).objectStatus == ObjCancelled && Step(s, Cancel).uploadStatus == UploadCancelled
  {}

  /** A transfer that failed, or a finalize call that failed or did not confirm everything. */
  predicate Fails(s: Session, e: Event) {
    || (e.TaskSettles? && !e.success)
    || e.RegisterFails?
    || (e.Registered? && !(e.ok && e.ready && AllConfirmed(s, e.confirmed) && (s.bind ==> e.bound)))
  }

  /** `blamed`: something has failed so far. What failed or threw did so because of that, or was aborted. */
  ghost predicate Blamed(s: Session, blamed: bool) {
    && (forall r | r in s.runs :: RunBlamed(s, s.runs[r], blamed))
    && (s.objectStatus == ObjFailed ==> blamed)
  }

  ghost predicate RunBlamed(s: Session, run: Run, blamed: bool) {
    && (run.failure || run.phase == Threw ==> blamed || run.controller in s.aborted)
    && (forall id | id in run.tasks && run.tasks[id].state == Rejected :: blamed)
  }

  lemma OneRunBlamed(s: Session, t: Session, r: nat, blamed: bool)
    requires Blamed(s, blamed) && Touches(s, t, r) && RunBlamed(t, t.runs[r], blamed)
    ensures Blamed(t, blamed)
  {}

  lemma LoopBlamed(s: Session, r: nat, w: nat, blamed: bool)
    requires ActiveTransfer(s, r) && Blamed(s, blamed) && HasWorker(s, r, w) && s.runs[r].workers[w].Looping?
    ensures Blamed(LoopStep(s, r, s.runs[r], w), blamed)
  {
    ActiveFacts(s, r);
    LoopTouches(s, r, w);
    hide Inv, Transfer, StartedOnce, Touches;
    assert RunBlamed(s, s.runs[r], blamed);
    OneRunBlamed(s, LoopStep(s, r, s.runs[r], w), r, blamed);
  }

  lemma ChunkBlamed(s: Session, r: nat, w: nat, blamed: bool)
    requires ActiveTransfer(s, r) && Blamed(s, blamed) && HasWorker(s, r, w) && s.runs[r].workers[w].AtChunk?
    ensures Blamed(ChunkStep(s, r, s.runs[r], w), blamed)
  {
    ActiveFacts(s, r);
    ChunkTouches(s, r, w);
    ChunkRun(s, r, w);
    ChunkFails(s, r, w);
    hide Inv, Transfer, StartedOnce, ChunkStep;
    assert RunBlamed(s, s.runs[r], blamed);
    OneRunBlamed(s, ChunkStep(s, r, s.runs[r], w), r, blamed);
  }

  lemma ChunkFails(s: Session, r: nat, w: nat)
    requires HasWorker(s, r, w) && s.runs[r].workers[w].AtChunk?
    ensures var t := ChunkStep(s, r, s.runs[r], w);
            r in t.runs && (t.runs[r].failure ==> s.runs[r].failure || IsAborted(s))
  {
    hide IsAborted;
  }

  lemma ResumeBlamed(s: Session, r: nat, w: nat, blamed: bool)
    requires Blamed(s, blamed) && HasWorker(s, r, w) && s.runs[r].workers[w].Awaiting?
    ensures Blamed(ResumeStep(s, r, s.runs[r], w), blamed)
  {
    ResumeTouches(s, r, w);
    hide Touches, SumUploaded;
    assert RunBlamed(s, s.runs[r], blamed);
    OneRunBlamed(s, ResumeStep(s, r, s.runs[r], w), r, blamed);
  }

  lemma SettleBlamed(s: Session, r: nat, id: nat, ok: bool, sent: bool, blamed: bool)
    requires Blamed(s, blamed) && InPhase(s, r, Transferring)
    ensures Blamed(SettleStep(s, r, s.runs[r], id, ok, sent), blamed || !ok)
  {
    assert RunBlamed(s, s.runs[r], blamed);
  }

  lemma StartBlamed(s: Session, e: Event, blamed: bool)
    requires Inv(s) && Blamed(s, blamed) && e.Start?
    ensures Blamed(Step(s, e), blamed)
  {
    assert FreshRun(s) !in s.runs;
    hide Inv;
  }

  predicate PhaseEvent(e: Event) { e.WorkersDone? || e.Registered? || e.RegisterFails? || e.CatchError? || e.Finally? }

  lemma PhaseBlamed(s: Session, e: Event, blamed: bool)
    requires Inv(s) && Blamed(s, blamed) && PhaseEvent(e)
    ensures Blamed(Step(s, e), blamed || Fails(s, e))
  {
    if e.run in s.runs {
      assert RunBlamed(s, s.runs[e.run], blamed);
      assert s.runs[e.run].phase != Settled ==> s.controller == Some(s.runs[e.run].controller);
    }
    hide Inv, AllConfirmed;
    MoreBlamed(s, blamed, Fails(s, e));
    if e.WorkersDone? {
      JoinBlamed(s, e, blamed);
    } else if e.Registered? || e.RegisterFails? {
      RegisterBlamed(s, e, blamed);
    } else {
      CatchBlamed(s, e, blamed);
    }
  }

  lemma JoinBlamed(s: Session, e: Event, blamed: bool)
    requires Blamed(s, blamed) && e.WorkersDone?
    requires e.run in s.runs && s.runs[e.run].phase != Settled ==> s.controller == Some(s.runs[e.run].controller)
    ensures Blamed(Step(s, e), blamed)
  {}

  lemma RegisterBlamed(s: Session, e: Event, blamed: bool)
    requires Blamed(s, blamed) && (e.Registered? || e.RegisterFails?)
    ensures Blamed(Step(s, e), blamed || Fails(s, e))
  {
    hide AllConfirmed;
  }

  lemma CatchBlamed(s: Session, e: Event, blamed: bool)
    requires Blamed(s, blamed) && (e.CatchError? || e.Finally?)
    requires e.run in s.runs && s.runs[e.run].phase != Settled ==> s.controller == Some(s.runs[e.run].controller)
    ensures Blamed(Step(s, e), blamed)
  {}

  lemma OtherBlamed(s: Session, e: Event, blamed: bool)
    requires Blamed(s, blamed) && !WorkerEvent(e) && !e.TaskSettles? && !e.Start? && !PhaseEvent(e)
    ensures Blamed(Step(s, e), blamed)
  {
    hide SumUploaded;
  }

  lemma StepBlamed(s: Session, e: Event, blamed: bool)
    requires Inv(s) && Blamed(s, blamed)
    ensures Blamed(Step(s, e), blamed || Fails(s, e))
  {
    hide LoopStep, ChunkStep, ResumeStep, SettleStep, Blamed, Inv;
    match e {
      case Loop(r, w) => if HasWorker(s, r, w) && s.runs[r].workers[w].Looping? { LoopBlamed(s, r, w, blamed); }
      case NextChunk(r, w) => if HasWorker(s, r, w) && s.runs[r].workers[w].AtChunk? { ChunkBlamed(s, r, w, blamed); }
      case Resume(r, w) => if HasWorker(s, r, w) && s.runs[r].workers[w].Awaiting? { ResumeBlamed(s, r, w, blamed); }
      case TaskSettles(r, id, ok, sent) =>
        MoreBlamed(s, blamed, !ok);
        if InPhase(s, r, Transferring) { SettleBlamed(s, r, id, ok, sent, blamed); }
      case Start(_, _, _, _) => StartBlamed(s, e, blamed);
      case _ =>
        hide Step;
        if PhaseEvent(e) { PhaseBlamed(s, e, blamed); } else { OtherBlamed(s, e, blamed); }
    }
  }

  lemma MoreBlamed(s: Session, blamed: bool, more: bool)
    requires Blamed(s, blamed)
    ensures Blamed(s, blamed || more)
  {}

  predicate HasFailed(s: Session, events: seq<Event>)
    decreases |events|
  {
    events != [] && (Fails(s, events[0]) || HasFailed(Step(s, events[0]), events[1..]))
  }

  lemma {:induction false} RunBlames(s: Session, events: seq<Event>, blamed: bool)
    requires Inv(s) && Blamed(s, blamed)
    ensures Blamed(Execute(s, events), blamed || HasFailed(s, events))
    decreases |events|
  {
    hide Step, Inv, Blamed, Fails;
    if events != [] {
      StepInv(s, events[0]);
      StepBlamed(s, events[0], blamed);
      RunBlames(Step(s, events[0]), events[1..], blamed || Fails(s, events[0]));
    }
  }

  /** A session shows a failure only when a transfer or the finalize call failed, or did not confirm everything. */
  lemma FailedHasCause(s: Session, events: seq<Event>)
    requires Initial(s) && Execute(s, events).objectStatus == ObjFailed
    ensures HasFailed(s, events)
  {
    InitInv(s);
    NoRuns(s);
    assert Blamed(s, false);
    hide Execute, HasFailed, Inv;
    RunBlames(s, events, false);
  }

  predicate HasAbort(events: seq<Event>) {
    exists k :: 0 <= k < |events| && (events[k].Cancel? || events[k].SignalAborts?)
  }

  ghost predicate AbortedBy(s: Session, asked: bool) {
    (s.aborted != {} ==> asked) && (s.objectStatus == ObjCancelled ==> asked)
  }

  lemma StepAborted(s: Session, e: Event, asked: bool)
    requires AbortedBy(s, asked)
    ensures AbortedBy(Step(s, e), asked || e.Cancel? || e.SignalAborts?)
  {
    if WorkerEvent(e) {
      WorkerTouches(s, e);
      hide Step;
    } else {
      hide SumUploaded, AllConfirmed;
    }
  }

  lemma {:induction false} RunAborted(s: Session, events: seq<Event>, asked: bool)
    requires AbortedBy(s, asked)
    ensures AbortedBy(Execute(s, events), asked || HasAbort(events))
    decreases |events|
  {
    hide Step, AbortedBy;
    if events != [] {
      var e := events[0];
      StepAborted(s, e, asked);
      RunAborted(Step(s, e), events[1..], asked || e.Cancel? || e.SignalAborts?);
      if HasAbort(events[1..]) {
        var k :| 0 <= k < |events[1..]| && (events[1..][k].Cancel? || events[1..][k].SignalAborts?);
        assert events[k + 1] == events[1..][k];
      }
      if HasAbort(events) { AbortsRest(events); }
    }
  }

  lemma AbortsRest(events: seq<Event>)
    requires events != [] && HasAbort(events)
    ensures events[0].Cancel? || events[0].SignalAborts? || HasAbort(events[1..])
  {
    var k :| 0 <= k < |events| && (events[k].Cancel? || events[k].SignalAborts?);
    if k > 0 { assert events[1..][k - 1] == events[k]; }
  }

  /** And it shows a cancel only when somebody cancelled or aborted. */
  lemma CancelledHasCause(s: Session, events: seq<Event>)
    requires Initial(s) && Execute(s, events).objectStatus == ObjCancelled
    ensures HasAbort(events)
  {
    RunAborted(s, events, false);
  }

  // ---- a failure shows in a file

  /** While a failed run is not settled, one of the files it took is failed. */
  ghost predicate FailureShows(s: Session) {
    forall r | r in s.runs && s.runs[r].phase != Settled && s.runs[r].failure :: ShowsIn(s, s.runs[r].index)
  }

  ghost predicate ShowsIn(s: Session, n: nat) { exists f: nat :: f < n && f < |s.files| && s.files[f].status == Failed }

  lemma WorkerShows(s: Session, r: nat, w: nat)
    requires ActiveTransfer(s, r) && HasWorker(s, r, w) && FailureShows(s)
    ensures s.runs[r].workers[w].Looping? ==> ShowsAfter(s, LoopStep(s, r, s.runs[r], w), r)
    ensures s.runs[r].workers[w].AtChunk? ==> ShowsAfter(s, ChunkStep(s, r, s.runs[r], w), r)
    ensures s.runs[r].workers[w].Awaiting? ==> ShowsAfter(s, ResumeStep(s, r, s.runs[r], w), r)
  {
    ActiveFacts(s, r);
    var run := s.runs[r];
    assert WorkerOk(s, run, run.workers[w]);
    hide Inv, Covered, FinishedOk, TasksOk, SumUploaded, IsAborted, StartedOnce, WorkersOk;
    if run.failure {
      assert ShowsIn(s, run.index);
      var f: nat :| f < run.index && f < |s.files| && s.files[f].status == Failed;
      FailedKept(s, r, w, f);
    } else {
      NewFailure(s, r, w);
    }
  }

  ghost predicate ShowsAfter(s: Session, t: Session, r: nat) {
    r in t.runs && (t.runs[r].failure ==> ShowsIn(t, t.runs[r].index))
  }

  lemma FailedKept(s: Session, r: nat, w: nat, f: nat)
    requires HasWorker(s, r, w) && f < s.runs[r].index && f < |s.files| && s.files[f].status == Failed
    requires WorkerOk(s, s.runs[r], s.runs[r].workers[w])
    ensures s.runs[r].workers[w].Looping? ==> ShowsAfter(s, LoopStep(s, r, s.runs[r], w), r)
    ensures s.runs[r].workers[w].AtChunk? ==> ShowsAfter(s, ChunkStep(s, r, s.runs[r], w), r)
    ensures s.runs[r].workers[w].Awaiting? ==> ShowsAfter(s, ResumeStep(s, r, s.runs[r], w), r)
  {
    hide SumUploaded, IsAborted;
    match s.runs[r].workers[w] {
      case Looping =>
        var t := LoopStep(s, r, s.runs[r], w);
        assert t.files[f].status == Failed && f < t.runs[r].index;
      case AtChunk(_, _) =>
        var t := ChunkStep(s, r, s.runs[r], w);
        assert t.files[f].status == Failed && f < t.runs[r].index;
      case Awaiting(_, _) =>
        var t := ResumeStep(s, r, s.runs[r], w);
        assert t.files[f].status == Failed && f < t.runs[r].index;
      case Finished =>
    }
  }

  lemma NewFailure(s: Session, r: nat, w: nat)
    requires HasWorker(s, r, w) && !s.runs[r].failure && WorkerOk(s, s.runs[r], s.runs[r].workers[w])
    ensures s.runs[r].workers[w].Looping? ==> ShowsAfter(s, LoopStep(s, r, s.runs[r], w), r)
    ensures s.runs[r].workers[w].AtChunk? ==> ShowsAfter(s, ChunkStep(s, r, s.runs[r], w), r)
    ensures s.runs[r].workers[w].Awaiting? ==> ShowsAfter(s, ResumeStep(s, r, s.runs[r], w), r)
  {
    hide SumUploaded, IsAborted;
    match s.runs[r].workers[w] {
      case Looping =>
        var t := LoopStep(s, r, s.runs[r], w);
        assert t.runs[r].failure ==> t.files[s.runs[r].index].status == Failed && s.runs[r].index < t.runs[r].index;
      case AtChunk(f, _) =>
        var t := ChunkStep(s, r, s.runs[r], w);
        assert t.runs[r].failure ==> t.files[f].status == Failed && f < t.runs[r].index;
      case Awaiting(f, _) =>
        var t := ResumeStep(s, r, s.runs[r], w);
        assert t.runs[r].failure ==> t.files[f].status == Failed && f < t.runs[r].index;
      case Finished =>
    }
  }

  lemma OneRunShows(s: Session, t: Session, r: nat)
    requires Inv(s) && r in s.runs && s.runs[r].phase != Settled && Touches(s, t, r) && ShowsAfter(s, t, r)
    ensures FailureShows(t)
  {
    hide ShowsIn;
  }

  lemma SameFilesShow(s: Session, t: Session)
    requires FailureShows(s) && |t.files| == |s.files|
    requires forall f | 0 <= f < |s.files| :: t.files[f].status == s.files[f].status || s.files[f].status != Failed
    requires forall r | r in t.runs && t.runs[r].phase != Settled && t.runs[r].failure ::
               r in s.runs && s.runs[r].phase != Settled && s.runs[r].failure && t.runs[r].index == s.runs[r].index
    ensures FailureShows(t)
  {
    forall r | r in t.runs && t.runs[r].phase != Settled && t.runs[r].failure
      ensures ShowsIn(t, t.runs[r].index)
    {
      assert ShowsIn(s, s.runs[r].index);
      var f: nat :| f < s.runs[r].index && f < |s.files| && s.files[f].status == Failed;
      assert t.files[f].status == Failed;
    }
  }

  lemma StartShows(s: Session, e: Event)
    requires Inv(s) && FailureShows(s) && e.Start?
    ensures FailureShows(Step(s, e))
  {
    assert FreshRun(s) !in s.runs;
    hide Inv, FailureShows;
    SameFilesShow(s, Step(s, e));
  }

  lemma SettleShows(s: Session, e: Event)
    requires FailureShows(s) && e.TaskSettles?
    ensures FailureShows(Step(s, e))
  {
    hide FailureShows;
    SameFilesShow(s, Step(s, e));
  }

  lemma PhaseShowsFailure(s: Session, e: Event)
    requires FailureShows(s) && PhaseEvent(e)
    ensures FailureShows(Step(s, e))
  {
    hide FailureShows, IsAborted, AllConfirmed;
    SameFilesShow(s, Step(s, e));
  }

  lemma OtherShows(s: Session, e: Event)
    requires FailureShows(s) && !WorkerEvent(e) && !e.TaskSettles? && !e.Start? && !PhaseEvent(e)
    ensures FailureShows(Step(s, e))
  {
    hide FailureShows, SumUploaded;
    SameFilesShow(s, Step(s, e));
  }

  lemma StepShows(s: Session, e: Event)
    requires Inv(s) && FailureShows(s)
    ensures FailureShows(Step(s, e))
  {
    if WorkerEvent(e) {
      WorkerTouches(s, e);
      if Step(s, e) != s {
        WorkerShows(s, e.run, e.worker);
        assert ShowsAfter(s, Step(s, e), e.run) by { hide Inv, FailureShows, LoopStep, ChunkStep, ResumeStep,
            ShowsAfter, Touches; }
        hide Step, Inv, ShowsAfter, FailureShows;
        OneRunShows(s, Step(s, e), e.run);
      }
    } else {
      hide Step, Inv, FailureShows;
      if e.Start? { StartShows(s, e); }
      else if e.TaskSettles? { SettleShows(s, e); }
      else if PhaseEvent(e) { PhaseShowsFailure(s, e); }
      else { OtherShows(s, e); }
    }
  }

  /** In every run, while an upload that failed is not settled, one of the files it took is failed. */
  lemma {:induction false} RunShows(s: Session, events: seq<Event>)
    requires Inv(s) && FailureShows(s)
    ensures FailureShows(Execute(s, events))
    decreases |events|
  {
    hide Step, Inv, FailureShows;
    if events != [] {
      StepInv(s, events[0]);
      StepShows(s, events[0]);
      RunShows(Step(s, events[0]), events[1..]);
    }
  }
}
