/** What the upload session sends and when: starts, marks and sums of chunk transfers (src/ndm_client.ts). */
module NdmTransfers {
  import opened Wrappers
  import opened NdmSession

  // ---- what a worker's step does to its run's transfers

  /** The step touches one run, and none of its transfers. */
  predicate SameTransfers(s: Session, t: Session, r: nat) {
    && r in s.runs && r in t.runs && t.runs == s.runs[r := t.runs[r]]
    && t.runs[r].tasks == s.runs[r].tasks && t.runs[r].started == s.runs[r].started
    && |t.runs[r].workers| == |s.runs[r].workers|
  }

  /** It starts the transfer of the chunk its worker is at, in a run that has not started it. */
  predicate NewTransfer(s: Session, t: Session, r: nat, w: nat) {
    && r in s.runs && r in t.runs && t.runs == s.runs[r := t.runs[r]] && |t.runs[r].workers| == |s.runs[r].workers|
    && HasWorker(s, r, w) && s.runs[r].workers[w].AtChunk?
    && var AtChunk(f, c) := s.runs[r].workers[w];
       && f < |s.files| && c < |s.files[f].chunks| && !s.files[f].chunks[c].uploaded && !IsAborted(s)
       && var chunk := s.files[f].chunks[c];
          && chunk.id !in s.runs[r].tasks && t.runs[r].started == s.runs[r].started + [chunk.id]
          && t.runs[r].tasks == s.runs[r].tasks[chunk.id := Task(w, f, chunk.length, Running)]
  }

  lemma LoopRun(s: Session, r: nat, w: nat)
    requires HasWorker(s, r, w)
    ensures SameTransfers(s, LoopStep(s, r, s.runs[r], w), r)
  {
    hide IsAborted;
  }

  lemma ResumeRun(s: Session, r: nat, w: nat)
    requires HasWorker(s, r, w) && s.runs[r].workers[w].Awaiting?
    ensures SameTransfers(s, ResumeStep(s, r, s.runs[r], w), r)
  {
    hide SumUploaded;
    var t := ResumeStep(s, r, s.runs[r], w);
    assert t.runs == s.runs[r := t.runs[r]];
  }

  lemma ChunkRun(s: Session, r: nat, w: nat)
    requires HasWorker(s, r, w) && s.runs[r].workers[w].AtChunk?
    ensures SameTransfers(s, ChunkStep(s, r, s.runs[r], w), r) || NewTransfer(s, ChunkStep(s, r, s.runs[r], w), r, w)
  {
    hide IsAborted;
    var t := ChunkStep(s, r, s.runs[r], w);
    assert t.runs == s.runs[r := t.runs[r]];
  }

  // ---- only chunks that are not marked are sent

  /** Worker `w` of run `r` is at chunk `c` of file `f`, which is not marked and was not started, and nobody aborted. */
  ghost predicate Due(s: Session, r: nat, w: nat, f: nat, c: nat) {
    && HasWorker(s, r, w) && s.runs[r].workers[w] == AtChunk(f, c)
    && f < |s.files| && c < |s.files[f].chunks| && !s.files[f].chunks[c].uploaded
    && s.files[f].chunks[c].id !in s.runs[r].started
    && s.runs[r].controller !in s.aborted
  }

  ghost predicate StartsDue(s: Session, t: Session, r: nat, id: nat) {
    && r in s.runs && r in t.runs && t.runs[r].started == s.runs[r].started + [id]
    && exists w: nat, f: nat, c: nat :: Due(s, r, w, f, c) && s.files[f].chunks[c].id == id
  }

  /** A run's transfers change only by the start of one that is due. */
  ghost predicate StartsOnlyDue(s: Session, t: Session) {
    && (forall r | r in s.runs ::
          r in t.runs && (t.runs[r].started == s.runs[r].started || exists id :: StartsDue(s, t, r, id)))
    && (forall r | r in t.runs && r !in s.runs :: t.runs[r].started == [])
  }

  lemma OneRunStarts(s: Session, t: Session, r: nat)
    requires r in s.runs && r in t.runs && t.runs == s.runs[r := t.runs[r]]
    requires t.runs[r].started == s.runs[r].started || exists id :: StartsDue(s, t, r, id)
    ensures StartsOnlyDue(s, t)
  {
    hide StartsDue;
  }

  lemma ChunkStarts(s: Session, r: nat, w: nat)
    requires Inv(s) && HasWorker(s, r, w) && s.runs[r].workers[w].AtChunk?
    ensures StartsOnlyDue(s, ChunkStep(s, r, s.runs[r], w))
  {
    ActiveFacts(s, r);
    ChunkRun(s, r, w);
    hide Inv, Transfer, StartsOnlyDue, ChunkStep;
    var t := ChunkStep(s, r, s.runs[r], w);
    if NewTransfer(s, t, r, w) {
      var AtChunk(f, c) := s.runs[r].workers[w];
      assert Due(s, r, w, f, c);
      assert StartsDue(s, t, r, s.files[f].chunks[c].id);
    }
    hide StartsDue;
    OneRunStarts(s, t, r);
  }

  lemma LoopStarts(s: Session, r: nat, w: nat)
    requires HasWorker(s, r, w) && s.runs[r].workers[w].Looping?
    ensures StartsOnlyDue(s, LoopStep(s, r, s.runs[r], w))
  {
    hide StartsDue, StartsOnlyDue, LoopStep;
    LoopRun(s, r, w);
    OneRunStarts(s, LoopStep(s, r, s.runs[r], w), r);
  }

  lemma ResumeStarts(s: Session, r: nat, w: nat)
    requires HasWorker(s, r, w) && s.runs[r].workers[w].Awaiting?
    ensures StartsOnlyDue(s, ResumeStep(s, r, s.runs[r], w))
  {
    hide StartsDue, StartsOnlyDue, ResumeStep;
    ResumeRun(s, r, w);
    OneRunStarts(s, ResumeStep(s, r, s.runs[r], w), r);
  }

  lemma NewRunStarts(s: Session, e: Event)
    requires Inv(s) && e.Start?
    ensures StartsOnlyDue(s, Step(s, e))
  {
    assert FreshRun(s) !in s.runs;
    hide Inv, StartsDue;
  }

  lemma SettleStarts(s: Session, r: nat, id: nat, ok: bool, sent: bool)
    requires r in s.runs
    ensures StartsOnlyDue(s, SettleStep(s, r, s.runs[r], id, ok, sent))
  {
    hide StartsDue, StartsOnlyDue;
    var t := SettleStep(s, r, s.runs[r], id, ok, sent);
    assert t.runs == s.runs[r := t.runs[r]];
    OneRunStarts(s, t, r);
  }

  /** A transfer starts only for a chunk at a worker that is not marked uploaded, in a run that is not aborted. */
  lemma StepStarts(s: Session, e: Event)
    requires Inv(s)
    ensures StartsOnlyDue(s, Step(s, e))
  {
    hide LoopStep, ChunkStep, ResumeStep, SettleStep, Started, StartsOnlyDue, Inv;
    hide JoinStep, RegisteredStep, CatchStep, Cancelled, Aborted, ProgressStep, LateStep;
    if MovesPhase(e) {
      OnlyPhases(s, e);
      hide Step;
      SameStarts(s, Step(s, e));
    } else {
      SameStarts(s, s);
      match e {
        case NextChunk(r, w) => if HasWorker(s, r, w) && s.runs[r].workers[w].AtChunk? { ChunkStarts(s, r, w); }
        case Loop(r, w) => if HasWorker(s, r, w) && s.runs[r].workers[w].Looping? { LoopStarts(s, r, w); }
        case Resume(r, w) => if HasWorker(s, r, w) && s.runs[r].workers[w].Awaiting? { ResumeStarts(s, r, w); }
        case TaskSettles(r, id, ok, sent) => if InPhase(s, r, Transferring) { SettleStarts(s, r, id, ok, sent); }
        case Start(_, _, _, _) => NewRunStarts(s, e);
      }
    }
  }

  lemma SameStarts(s: Session, t: Session)
    requires t.runs.Keys == s.runs.Keys && forall r | r in s.runs :: t.runs[r].started == s.runs[r].started
    ensures StartsOnlyDue(s, t)
  {}

  // ---- marks

  /** Chunks stay what they are, and a mark is never taken back; a new one is for a chunk whose transfer succeeded. */
  ghost predicate MarksGrow(s: Session, t: Session) {
    && |t.files| == |s.files|
    && (forall f | 0 <= f < |s.files| ::
          && |t.files[f].chunks| == |s.files[f].chunks|
          && (forall c | 0 <= c < |s.files[f].chunks| ::
                var a, b := s.files[f].chunks[c], t.files[f].chunks[c];
                && b.id == a.id && b.length == a.length && (a.uploaded ==> b.uploaded)
                && (b.uploaded && !a.uploaded ==> Sent(s, b.id))))
  }

  /** Some run's transfer of the chunk succeeded. */
  ghost predicate Sent(s: Session, id: nat) {
    exists r :: r in s.runs && id in s.runs[r].tasks && s.runs[r].tasks[id].state == Resolved
  }

  lemma ResumeMarks(s: Session, r: nat, w: nat)
    requires HasWorker(s, r, w) && s.runs[r].workers[w].Awaiting?
    ensures MarksGrow(s, ResumeStep(s, r, s.runs[r], w))
  {
    hide SumUploaded;
    var Awaiting(f, c) := s.runs[r].workers[w];
    if f < |s.files| && c < |s.files[f].chunks| && s.files[f].chunks[c].id in s.runs[r].tasks {
      var id := s.files[f].chunks[c].id;
      assert s.runs[r].tasks[id].state == Resolved ==> Sent(s, id);
    }
    hide Sent;
  }

  lemma OtherMarks(s: Session, r: nat, w: nat)
    requires HasWorker(s, r, w)
    ensures s.runs[r].workers[w].Looping? ==> MarksGrow(s, LoopStep(s, r, s.runs[r], w))
    ensures s.runs[r].workers[w].AtChunk? ==> MarksGrow(s, ChunkStep(s, r, s.runs[r], w))
  {
    hide Sent;
  }

  lemma StepMarks(s: Session, e: Event)
    ensures MarksGrow(s, Step(s, e))
  {
    hide LoopStep, ChunkStep, ResumeStep, Sent;
    match e {
      case Loop(r, w) => if HasWorker(s, r, w) { OtherMarks(s, r, w); }
      case NextChunk(r, w) => if HasWorker(s, r, w) { OtherMarks(s, r, w); }
      case Resume(r, w) => if HasWorker(s, r, w) && s.runs[r].workers[w].Awaiting? { ResumeMarks(s, r, w); }
      case _ =>
    }
  }

  /** Some chunk with this id is not marked. */
  ghost predicate Unmarked(s: Session, id: nat) {
    exists f: nat, c: nat :: f < |s.files| && c < |s.files[f].chunks| && s.files[f].chunks[c].id == id
      && !s.files[f].chunks[c].uploaded
  }

  lemma UnmarkedBefore(s: Session, t: Session, id: nat)
    requires MarksGrow(s, t) && Unmarked(t, id)
    ensures Unmarked(s, id)
  {
    hide Sent;
    var f: nat, c: nat :| f < |t.files| && c < |t.files[f].chunks| && t.files[f].chunks[c].id == id
      && !t.files[f].chunks[c].uploaded;
    assert s.files[f].chunks[c].id == id && !s.files[f].chunks[c].uploaded;
  }

  lemma {:induction false} RunUnmarked(s: Session, events: seq<Event>, id: nat)
    requires Unmarked(Execute(s, events), id)
    ensures Unmarked(s, id)
    decreases |events|
  {
    hide Step, Unmarked, MarksGrow;
    if events != [] {
      RunUnmarked(Step(s, events[0]), events[1..], id);
      StepMarks(s, events[0]);
      UnmarkedBefore(s, Step(s, events[0]), id);
    }
  }

  lemma DueUnmarked(s: Session, t: Session, r: nat, id: nat)
    requires StartsDue(s, t, r, id)
    ensures Unmarked(s, id)
  {
    var w: nat, f: nat, c: nat :| Due(s, r, w, f, c) && s.files[f].chunks[c].id == id;
  }

  /**
   * Whatever run `r` has started from some moment on was not marked uploaded at that moment: a retry sends nothing
   * that was transferred before it began.
   */
  lemma {:induction false} StartedUnmarked(s: Session, events: seq<Event>, r: nat)
    requires Inv(s) && r in Execute(s, events).runs
    ensures var before := if r in s.runs then s.runs[r].started else [];
            var after := Execute(s, events).runs[r].started;
            before <= after && forall i | |before| <= i < |after| :: Unmarked(s, after[i])
    decreases |events|
  {
    hide Step, Inv, Unmarked, StartsDue, MarksGrow;
    if events != [] {
      var t := Step(s, events[0]);
      var before := if r in s.runs then s.runs[r].started else [];
      var middle := if r in t.runs then t.runs[r].started else [];
      var after := Execute(s, events).runs[r].started;
      StepInv(s, events[0]);
      StepStarts(s, events[0]);
      StepMarks(s, events[0]);
      StartedUnmarked(t, events[1..], r);
      if middle != before {
        var id :| StartsDue(s, t, r, id);
        StartsAppend(s, t, r, id);
        DueUnmarked(s, t, r, id);
      }
      forall i | |before| <= i < |after|
        ensures Unmarked(s, after[i])
      {
        if i >= |middle| {
          UnmarkedBefore(s, t, after[i]);
        } else {
          assert after[i] == middle[i];
        }
      }
    }
  }

  lemma StartsAppend(s: Session, t: Session, r: nat, id: nat)
    requires StartsDue(s, t, r, id)
    ensures r in s.runs && r in t.runs && t.runs[r].started == s.runs[r].started + [id]
  {}

  /** So no run starts a chunk id all of whose chunks were marked when the run began, in every run of the session. */
  lemma RetrySendsOnlyMissing(s: Session, events: seq<Event>, more: seq<Event>, r: nat, id: nat)
    requires Initial(s) && r !in Execute(s, events).runs
    requires r in Execute(s, events + more).runs && id in Execute(s, events + more).runs[r].started
    ensures Unmarked(Execute(s, events), id)
  {
    hide Execute, Inv, Unmarked;
    InitInv(s);
    RunInv(s, events);
    ExecuteAppend(s, events, more);
    StartedUnmarked(Execute(s, events), more, r);
  }

  // ---- what is marked was sent

  /** Tasks keep their chunk, and their state once it is settled; one settles only as its event says. */
  ghost predicate TasksSettleBy(s: Session, t: Session, e: Event) {
    && (forall r, id | r in s.runs && id in s.runs[r].tasks ::
          && r in t.runs && id in t.runs[r].tasks && t.runs[r].tasks[id].length == s.runs[r].tasks[id].length
          && (t.runs[r].tasks[id].state == s.runs[r].tasks[id].state
                 || SettledBy(s.runs[r].tasks[id], t.runs[r].tasks[id], e, r, id)))
    && (forall r, id | r in t.runs && id in t.runs[r].tasks && !(r in s.runs && id in s.runs[r].tasks) ::
          t.runs[r].tasks[id].state == Running)
  }

  predicate SettledBy(before: Task, after: Task, e: Event, r: nat, id: nat) {
    && before.state == Running && e.TaskSettles? && e.run == r && e.id == id
    && after.state == if e.success then Resolved else Rejected
  }

  ghost predicate RunSettlesBy(run: Run, next: Run, e: Event, r: nat) {
    && (forall id | id in run.tasks ::
          && id in next.tasks && next.tasks[id].length == run.tasks[id].length
          && (next.tasks[id].state == run.tasks[id].state || SettledBy(run.tasks[id], next.tasks[id], e, r, id)))
    && (forall id | id in next.tasks && id !in run.tasks :: next.tasks[id].state == Running)
  }

  lemma OneRunSettles(s: Session, t: Session, e: Event, r: nat)
    requires r in s.runs && r in t.runs && t.runs == s.runs[r := t.runs[r]] && RunSettlesBy(s.runs[r], t.runs[r], e, r)
    ensures TasksSettleBy(s, t, e)
  {
    hide SettledBy;
  }

  lemma LoopSettles(s: Session, e: Event, r: nat, w: nat)
    requires HasWorker(s, r, w) && s.runs[r].workers[w].Looping?
    ensures TasksSettleBy(s, LoopStep(s, r, s.runs[r], w), e)
  {
    hide TasksSettleBy, SettledBy, LoopStep;
    LoopRun(s, r, w);
    OneRunSettles(s, LoopStep(s, r, s.runs[r], w), e, r);
  }

  lemma ChunkSettles(s: Session, e: Event, r: nat, w: nat)
    requires HasWorker(s, r, w) && s.runs[r].workers[w].AtChunk?
    ensures TasksSettleBy(s, ChunkStep(s, r, s.runs[r], w), e)
  {
    hide TasksSettleBy, SettledBy, ChunkStep;
    ChunkRun(s, r, w);
    OneRunSettles(s, ChunkStep(s, r, s.runs[r], w), e, r);
  }

  lemma ResumeSettles(s: Session, e: Event, r: nat, w: nat)
    requires HasWorker(s, r, w) && s.runs[r].workers[w].Awaiting?
    ensures TasksSettleBy(s, ResumeStep(s, r, s.runs[r], w), e)
  {
    hide TasksSettleBy, SettledBy, ResumeStep;
    ResumeRun(s, r, w);
    OneRunSettles(s, ResumeStep(s, r, s.runs[r], w), e, r);
  }

  lemma SettleSettles(s: Session, e: Event)
    requires e.TaskSettles? && e.run in s.runs
    ensures TasksSettleBy(s, SettleStep(s, e.run, s.runs[e.run], e.id, e.success, e.sent), e)
  {
    hide TasksSettleBy;
    var t := SettleStep(s, e.run, s.runs[e.run], e.id, e.success, e.sent);
    assert t.runs == s.runs[e.run := t.runs[e.run]];
    OneRunSettles(s, t, e, e.run);
  }

  /** The events that are not a start, a worker's step or the end of a transfer change the phase of runs alone. */
  predicate MovesPhase(e: Event) { !e.Start? && !e.Loop? && !e.NextChunk? && !e.Resume? && !e.TaskSettles? }

  lemma OnlyPhases(s: Session, e: Event)
    requires MovesPhase(e)
    ensures var t := Step(s, e);
            t.runs.Keys == s.runs.Keys && forall r | r in s.runs :: t.runs[r] == s.runs[r].(phase := t.runs[r].phase)
  {
    if e.WorkersDone? || e.Registered? || e.RegisterFails? || e.CatchError? || e.Finally? {
      RunPhases(s, e);
    } else {
      RunsUntouched(s, e);
    }
    hide Step;
  }

  lemma RunsUntouched(s: Session, e: Event)
    requires e.Cancel? || e.SignalAborts? || e.Progress? || e.LateReport?
    ensures Step(s, e).runs == s.runs
  {
    hide SumUploaded;
  }

  lemma RunPhases(s: Session, e: Event)
    requires e.WorkersDone? || e.Registered? || e.RegisterFails? || e.CatchError? || e.Finally?
    ensures var t := Step(s, e);
            || t.runs == s.runs
            || (e.run in s.runs && e.run in t.runs
                && t.runs == s.runs[e.run := s.runs[e.run].(phase := t.runs[e.run].phase)])
  {
    hide IsAborted, AllConfirmed;
  }

  lemma StartSettles(s: Session, e: Event)
    requires Inv(s) && e.Start?
    ensures TasksSettleBy(s, Step(s, e), e)
  {
    assert FreshRun(s) !in s.runs;
    hide Inv, SettledBy;
  }

  /** A step that leaves every run's tasks as they are. */
  lemma SameTasks(s: Session, t: Session, e: Event)
    requires forall r | r in s.runs :: r in t.runs && t.runs[r].tasks == s.runs[r].tasks
    requires t.runs.Keys == s.runs.Keys
    ensures TasksSettleBy(s, t, e)
  {
    hide SettledBy;
  }

  lemma StepSettles(s: Session, e: Event)
    requires Inv(s)
    ensures TasksSettleBy(s, Step(s, e), e)
  {
    hide Inv, LoopStep, ChunkStep, ResumeStep, SettleStep, Started, TasksSettleBy;
    hide JoinStep, RegisteredStep, CatchStep, Cancelled, Aborted, ProgressStep, LateStep;
    if MovesPhase(e) {
      OnlyPhases(s, e);
      hide Step;
      SameTasks(s, Step(s, e), e);
    } else {
      SameTasks(s, s, e);
      match e {
        case Start(_, _, _, _) => StartSettles(s, e);
        case Loop(r, w) => if HasWorker(s, r, w) && s.runs[r].workers[w].Looping? { LoopSettles(s, e, r, w); }
        case NextChunk(r, w) => if HasWorker(s, r, w) && s.runs[r].workers[w].AtChunk? { ChunkSettles(s, e, r, w); }
        case Resume(r, w) => if HasWorker(s, r, w) && s.runs[r].workers[w].Awaiting? { ResumeSettles(s, e, r, w); }
        case TaskSettles(r, id, ok, sent) => if InPhase(s, r, Transferring) { SettleSettles(s, e); }
      }
    }
  }

  /** Among the events is one by which a transfer of this id succeeds, or fails. */
  predicate HasSettled(events: seq<Event>, r: nat, id: nat, success: bool) {
    exists k :: 0 <= k < |events| && events[k].TaskSettles? && events[k].run == r && events[k].id == id
      && events[k].success == success
  }

  lemma HasSettledNext(events: seq<Event>, r: nat, id: nat, success: bool)
    requires events != []
    ensures HasSettled(events[..|events| - 1], r, id, success) ==> HasSettled(events, r, id, success)
    ensures var e := events[|events| - 1];
            e.TaskSettles? && e.run == r && e.id == id && e.success == success ==> HasSettled(events, r, id, success)
  {
    var before := events[..|events| - 1];
    if HasSettled(before, r, id, success) {
      var k :| 0 <= k < |before| && before[k].TaskSettles? && before[k].run == r && before[k].id == id
        && before[k].success == success;
      assert events[k] == before[k];
    }
  }

  /** Every settled transfer settled by an event of the run that says how. */
  lemma {:induction false} SettledByEvent(s: Session, events: seq<Event>, r: nat, id: nat)
    requires Initial(s)
    ensures var t := Execute(s, events);
            r in t.runs && id in t.runs[r].tasks && t.runs[r].tasks[id].state != Running ==>
              HasSettled(events, r, id, t.runs[r].tasks[id].state == Resolved)
    decreases |events|
  {
    hide Step, Inv, HasSettled, Initial;
    if events != [] {
      var before, e := events[..|events| - 1], events[|events| - 1];
      SettledByEvent(s, before, r, id);
      InitInv(s);
      RunInv(s, before);
      ExecuteLast(s, events);
      StepSettles(Execute(s, before), e);
      HasSettledNext(events, r, id, true);
      HasSettledNext(events, r, id, false);
      hide Execute;
    } else {
      ExecuteNothing(s);
      NoRuns(s);
    }
  }

  lemma NoRuns(s: Session)
    requires Initial(s)
    ensures s.runs == map[] && s.transmittedBytes == 0
  {}

  ghost predicate MarkedSent(s: Session) {
    forall f, c | 0 <= f < |s.files| && 0 <= c < |s.files[f].chunks| && s.files[f].chunks[c].uploaded ::
      Sent(s, s.files[f].chunks[c].id)
  }

  lemma SentStays(s: Session, t: Session, e: Event, id: nat)
    requires TasksSettleBy(s, t, e) && Sent(s, id)
    ensures Sent(t, id)
  {
    var r :| r in s.runs && id in s.runs[r].tasks && s.runs[r].tasks[id].state == Resolved;
    assert r in t.runs && id in t.runs[r].tasks;
  }

  lemma {:induction false} RunMarkedSent(s: Session, events: seq<Event>)
    requires Inv(s) && MarkedSent(s)
    ensures MarkedSent(Execute(s, events))
    decreases |events|
  {
    hide Step, Inv, Sent, TasksSettleBy;
    if events != [] {
      var t := Step(s, events[0]);
      StepInv(s, events[0]);
      StepMarks(s, events[0]);
      StepSettles(s, events[0]);
      forall f, c | 0 <= f < |t.files| && 0 <= c < |t.files[f].chunks| && t.files[f].chunks[c].uploaded
        ensures Sent(t, t.files[f].chunks[c].id)
      {
        SentStays(s, t, events[0], t.files[f].chunks[c].id);
      }
      RunMarkedSent(t, events[1..]);
    }
  }

  /**
   * In every run, each chunk that is marked uploaded has had a transfer that succeeded; at `ready` that is every
   * chunk.
   */
  lemma MarkedWasSent(s: Session, events: seq<Event>, f: nat, c: nat)
    requires Initial(s)
    requires var t := Execute(s, events);
             f < |t.files| && c < |t.files[f].chunks| && (t.files[f].chunks[c].uploaded || t.objectStatus == Ready)
    ensures var t := Execute(s, events);
            exists r :: r in t.runs && HasSettled(events, r, t.files[f].chunks[c].id, true)
  {
    InitInv(s);
    RunInv(s, events);
    if Execute(s, events).objectStatus == Ready { ReadyItems(Execute(s, events)); }
    RunMarkedSent(s, events);
    hide Execute, Inv, HasSettled, Initial;
    var t := Execute(s, events);
    var id := t.files[f].chunks[c].id;
    assert Sent(t, id);
    var r :| r in t.runs && id in t.runs[r].tasks && t.runs[r].tasks[id].state == Resolved;
    SettledByEvent(s, events, r, id);
  }

  // ---- what was sent in all

  /** The bytes of every transfer that succeeded by sending, as the events settle them. */
  function SentBytes(s: Session, events: seq<Event>): nat
    decreases |events|
  {
    if events == [] then 0
    else
      var before, e := events[..|events| - 1], events[|events| - 1];
      var t := Execute(s, before);
      SentBytes(s, before)
      + if e.TaskSettles? && e.success && e.sent && IsRunning(t, e.run, e.id)
          then t.runs[e.run].tasks[e.id].length else 0
  }

  predicate IsRunning(s: Session, r: nat, id: nat) {
    InPhase(s, r, Transferring) && id in s.runs[r].tasks && s.runs[r].tasks[id].state == Running
  }

  lemma StepSends(s: Session, e: Event)
    ensures Step(s, e).transmittedBytes == s.transmittedBytes
              + if e.TaskSettles? && e.success && e.sent && IsRunning(s, e.run, e.id)
                  then s.runs[e.run].tasks[e.id].length else 0
  {
    hide SumUploaded, AllConfirmed;
  }

  /** In every run the bytes counted as transmitted are those of the transfers that succeeded by sending. */
  lemma {:induction false} TransmittedIsSent(s: Session, events: seq<Event>)
    requires Initial(s)
    ensures Execute(s, events).transmittedBytes == SentBytes(s, events)
    decreases |events|
  {
    hide Step, Initial, IsRunning;
    if events != [] {
      TransmittedIsSent(s, events[..|events| - 1]);
      ExecuteLast(s, events);
      StepSends(Execute(s, events[..|events| - 1]), events[|events| - 1]);
      hide Execute;
    } else {
      ExecuteNothing(s);
      NoRuns(s);
    }
  }

  /** Each task's length is that of a chunk of its file with its id. */
  ghost predicate TaskOfChunk(s: Session, r: nat, id: nat)
    requires r in s.runs && id in s.runs[r].tasks
  {
    var task := s.runs[r].tasks[id];
    task.file < |s.files|
    && exists c: nat :: c < |s.files[task.file].chunks| && s.files[task.file].chunks[c].id == id
         && s.files[task.file].chunks[c].length == task.length
  }

  ghost predicate TasksOfChunks(s: Session) {
    forall r, id | r in s.runs && id in s.runs[r].tasks :: TaskOfChunk(s, r, id)
  }

  /** A task of `t` is one of `s` but for its state, or for a chunk of its file in `s`. */
  ghost predicate TasksFromChunks(s: Session, t: Session) {
    forall r, id | r in t.runs && id in t.runs[r].tasks ::
      || (r in s.runs && id in s.runs[r].tasks && SameTask(s.runs[r].tasks[id], t.runs[r].tasks[id]))
      || ForChunk(s, t.runs[r].tasks[id], id)
  }

  predicate SameTask(a: Task, b: Task) { a.file == b.file && a.length == b.length }

  ghost predicate ForChunk(s: Session, task: Task, id: nat) {
    task.file < |s.files|
    && exists c: nat :: c < |s.files[task.file].chunks| && s.files[task.file].chunks[c].id == id
         && s.files[task.file].chunks[c].length == task.length
  }

  lemma OneRunFromChunks(s: Session, t: Session, r: nat)
    requires r in s.runs && r in t.runs && t.runs == s.runs[r := t.runs[r]]
    requires forall id | id in t.runs[r].tasks ::
               (id in s.runs[r].tasks && SameTask(s.runs[r].tasks[id], t.runs[r].tasks[id]))
                   || ForChunk(s, t.runs[r].tasks[id], id)
    ensures TasksFromChunks(s, t)
  {
    hide ForChunk;
  }

  lemma ChunkFromChunks(s: Session, r: nat, w: nat)
    requires HasWorker(s, r, w) && s.runs[r].workers[w].AtChunk?
    ensures TasksFromChunks(s, ChunkStep(s, r, s.runs[r], w))
  {
    hide TasksFromChunks, IsAborted, ChunkStep;
    ChunkRun(s, r, w);
    var t := ChunkStep(s, r, s.runs[r], w);
    if NewTransfer(s, t, r, w) {
      var AtChunk(f, c) := s.runs[r].workers[w];
      assert ForChunk(s, t.runs[r].tasks[s.files[f].chunks[c].id], s.files[f].chunks[c].id);
    }
    OneRunFromChunks(s, t, r);
  }

  lemma OtherFromChunks(s: Session, r: nat, w: nat)
    requires HasWorker(s, r, w)
    ensures s.runs[r].workers[w].Looping? ==> TasksFromChunks(s, LoopStep(s, r, s.runs[r], w))
    ensures s.runs[r].workers[w].Awaiting? ==> TasksFromChunks(s, ResumeStep(s, r, s.runs[r], w))
  {
    hide ForChunk, LoopStep, ResumeStep, TasksFromChunks;
    LoopRun(s, r, w);
    OneRunFromChunks(s, LoopStep(s, r, s.runs[r], w), r);
    if s.runs[r].workers[w].Awaiting? {
      ResumeRun(s, r, w);
      OneRunFromChunks(s, ResumeStep(s, r, s.runs[r], w), r);
    }
  }

  lemma SettleFromChunks(s: Session, r: nat, id: nat, ok: bool, sent: bool)
    requires r in s.runs
    ensures TasksFromChunks(s, SettleStep(s, r, s.runs[r], id, ok, sent))
  {
    hide TasksFromChunks, ForChunk;
    var t := SettleStep(s, r, s.runs[r], id, ok, sent);
    assert t.runs == s.runs[r := t.runs[r]];
    OneRunFromChunks(s, t, r);
  }

  lemma StepFromChunks(s: Session, e: Event)
    ensures TasksFromChunks(s, Step(s, e))
  {
    if MovesPhase(e) {
      OnlyPhases(s, e);
      hide Step, ForChunk;
    } else {
      hide LoopStep, ChunkStep, ResumeStep, SettleStep, ForChunk, IsAborted, AllConfirmed;
      match e {
        case Loop(r, w) => if HasWorker(s, r, w) { OtherFromChunks(s, r, w); }
        case NextChunk(r, w) => if HasWorker(s, r, w) && s.runs[r].workers[w].AtChunk? { ChunkFromChunks(s, r, w); }
        case Resume(r, w) => if HasWorker(s, r, w) { OtherFromChunks(s, r, w); }
        case TaskSettles(r, id, ok, sent) => if InPhase(s, r, Transferring) { SettleFromChunks(s, r, id, ok, sent); }
        case Start(_, _, _, _) =>
      }
    }
  }

  lemma KeptForChunk(s: Session, t: Session, task: Task, id: nat)
    requires MarksGrow(s, t) && ForChunk(s, task, id)
    ensures ForChunk(t, task, id)
  {
    hide Sent;
    var c: nat :| c < |s.files[task.file].chunks| && s.files[task.file].chunks[c].id == id
      && s.files[task.file].chunks[c].length == task.length;
    assert t.files[task.file].chunks[c].id == id && t.files[task.file].chunks[c].length == task.length;
  }

  /** In every run each transfer is for a chunk of its file, and counts with that chunk's length. */
  lemma {:induction false} RunTasksOfChunks(s: Session, events: seq<Event>)
    requires TasksOfChunks(s)
    ensures TasksOfChunks(Execute(s, events))
    decreases |events|
  {
    hide Step, MarksGrow, ForChunk;
    if events != [] {
      var t := Step(s, events[0]);
      StepMarks(s, events[0]);
      StepFromChunks(s, events[0]);
      forall r, id | r in t.runs && id in t.runs[r].tasks
        ensures TaskOfChunk(t, r, id)
      {
        if r in s.runs && id in s.runs[r].tasks && SameTask(s.runs[r].tasks[id], t.runs[r].tasks[id]) {
          assert TaskOfChunk(s, r, id);
          AsForChunk(s, r, id, t.runs[r].tasks[id]);
        }
        KeptForChunk(s, t, t.runs[r].tasks[id], id);
        FromForChunk(t, r, id);
      }
      RunTasksOfChunks(t, events[1..]);
    }
  }

  lemma AsForChunk(s: Session, r: nat, id: nat, task: Task)
    requires r in s.runs && id in s.runs[r].tasks && TaskOfChunk(s, r, id) && SameTask(s.runs[r].tasks[id], task)
    ensures ForChunk(s, task, id)
  {}

  lemma FromForChunk(s: Session, r: nat, id: nat)
    requires r in s.runs && id in s.runs[r].tasks && ForChunk(s, s.runs[r].tasks[id], id)
    ensures TaskOfChunk(s, r, id)
  {}

  // ---- how many at a time

  function RunningIds(run: Run): set<nat> { set id | id in run.tasks && run.tasks[id].state == Running }

  lemma {:induction false} ByWorker(ids: set<nat>, run: Run, n: nat)
    requires forall id | id in ids :: id in run.tasks && run.tasks[id].worker < n
    requires forall a, b | a in ids && b in ids && a != b :: run.tasks[a].worker != run.tasks[b].worker
    ensures |ids| <= n
    decreases n
  {
    if n > 0 {
      if id :| id in ids && run.tasks[id].worker == n - 1 {
        ByWorker(ids - {id}, run, n - 1);
      } else {
        ByWorker(ids, run, n - 1);
      }
    } else {
      assert forall id :: id !in ids;
    }
  }

  /** Each worker awaits one transfer of its own at most. */
  lemma RunningAtMost(s: Session, r: nat)
    requires ActiveTransfer(s, r)
    ensures |RunningIds(s.runs[r])| <= |s.runs[r].workers|
  {
    ActiveFacts(s, r);
    hide Inv, WorkersOk, Covered, FinishedOk;
    var run := s.runs[r];
    forall a, b | a in RunningIds(run) && b in RunningIds(run) && a != b
      ensures run.tasks[a].worker != run.tasks[b].worker
    {}
    ByWorker(RunningIds(run), run, |run.workers|);
  }

  function AtMost(n: int, files: nat): int { if n < files then n else files }

  /** A run has as many workers all along: as its start asked for, or as there are files if these are fewer. */
  ghost predicate WorkersFrom(s: Session, t: Session, e: Event) {
    && (forall r | r in s.runs :: r in t.runs && |t.runs[r].workers| == |s.runs[r].workers|)
    && (forall r | r in t.runs && r !in s.runs :: e.Start? && |t.runs[r].workers| == AtMost(e.concurrency, |s.files|))
  }

  lemma OneRunWorkers(s: Session, t: Session, e: Event, r: nat)
    requires r in s.runs && r in t.runs && t.runs == s.runs[r := t.runs[r]]
    requires |t.runs[r].workers| == |s.runs[r].workers|
    ensures WorkersFrom(s, t, e)
  {}

  lemma WorkerWorkers(s: Session, e: Event, r: nat, w: nat)
    requires HasWorker(s, r, w)
    ensures s.runs[r].workers[w].Looping? ==> WorkersFrom(s, LoopStep(s, r, s.runs[r], w), e)
    ensures s.runs[r].workers[w].AtChunk? ==> WorkersFrom(s, ChunkStep(s, r, s.runs[r], w), e)
    ensures s.runs[r].workers[w].Awaiting? ==> WorkersFrom(s, ResumeStep(s, r, s.runs[r], w), e)
  {
    hide WorkersFrom, LoopStep, ChunkStep, ResumeStep;
    match s.runs[r].workers[w] {
      case Looping =>
        LoopRun(s, r, w);
        OneRunWorkers(s, LoopStep(s, r, s.runs[r], w), e, r);
      case AtChunk(_, _) =>
        ChunkRun(s, r, w);
        OneRunWorkers(s, ChunkStep(s, r, s.runs[r], w), e, r);
      case Awaiting(_, _) =>
        ResumeRun(s, r, w);
        OneRunWorkers(s, ResumeStep(s, r, s.runs[r], w), e, r);
      case Finished =>
    }
  }

  lemma StartWorkers(s: Session, e: Event)
    requires Inv(s) && e.Start?
    ensures WorkersFrom(s, Step(s, e), e)
  {
    assert FreshRun(s) !in s.runs;
    hide Inv;
  }

  lemma SettleWorkers(s: Session, e: Event, r: nat, id: nat, ok: bool, sent: bool)
    requires r in s.runs
    ensures WorkersFrom(s, SettleStep(s, r, s.runs[r], id, ok, sent), e)
  {
    hide WorkersFrom;
    var t := SettleStep(s, r, s.runs[r], id, ok, sent);
    assert t.runs == s.runs[r := t.runs[r]];
    OneRunWorkers(s, t, e, r);
  }

  lemma SameWorkers(s: Session, t: Session, e: Event)
    requires forall r | r in s.runs :: r in t.runs && t.runs[r].workers == s.runs[r].workers
    requires t.runs.Keys == s.runs.Keys
    ensures WorkersFrom(s, t, e)
  {}

  lemma StepWorkers(s: Session, e: Event)
    requires Inv(s)
    ensures WorkersFrom(s, Step(s, e), e)
  {
    hide Inv, LoopStep, ChunkStep, ResumeStep, SettleStep, Started, WorkersFrom;
    hide JoinStep, RegisteredStep, CatchStep, Cancelled, Aborted, ProgressStep, LateStep;
    if MovesPhase(e) {
      OnlyPhases(s, e);
      hide Step;
      SameWorkers(s, Step(s, e), e);
    } else {
      SameWorkers(s, s, e);
      match e {
        case Start(_, _, _, _) => StartWorkers(s, e);
        case Loop(r, w) => if HasWorker(s, r, w) && s.runs[r].workers[w].Looping? { WorkerWorkers(s, e, r, w); }
        case NextChunk(r, w) => if HasWorker(s, r, w) && s.runs[r].workers[w].AtChunk? { WorkerWorkers(s, e, r, w); }
        case Resume(r, w) => if HasWorker(s, r, w) && s.runs[r].workers[w].Awaiting? { WorkerWorkers(s, e, r, w); }
        case TaskSettles(r, id, ok, sent) =>
          if InPhase(s, r, Transferring) { SettleWorkers(s, e, r, id, ok, sent); }
      }
    }
  }

  /** Among the events is a start that asked for these workers. */
  predicate AskedFor(events: seq<Event>, files: nat, n: nat) {
    exists k :: 0 <= k < |events| && events[k].Start? && n == AtMost(events[k].concurrency, files)
  }

  /** Every run has as many workers as its start asked for, or as there are files if these are fewer. */
  lemma {:induction false} RunWorkers(s: Session, events: seq<Event>, r: nat)
    requires Inv(s) && r in Execute(s, events).runs
    ensures if r in s.runs then |Execute(s, events).runs[r].workers| == |s.runs[r].workers|
            else AskedFor(events, |s.files|, |Execute(s, events).runs[r].workers|)
    decreases |events|
  {
    hide Step, Inv, AtMost;
    if events != [] {
      StepInv(s, events[0]);
      StepWorkers(s, events[0]);
      StepShape(s, events[0]);
      RunWorkers(Step(s, events[0]), events[1..], r);
      if r !in s.runs && r !in Step(s, events[0]).runs {
        var n := |Execute(s, events).runs[r].workers|;
        var k :| 0 <= k < |events[1..]| && events[1..][k].Start? && n == AtMost(events[1..][k].concurrency, |s.files|);
        assert events[k + 1] == events[1..][k];
      }
    }
  }

  /** In every run, never more transfers are in progress at once than a start asked for. */
  lemma ParallelBounded(s: Session, events: seq<Event>, r: nat)
    requires Initial(s) && r in Execute(s, events).runs && Execute(s, events).runs[r].phase == Transferring
    ensures exists k ::
              0 <= k < |events| && events[k].Start?
              && |RunningIds(Execute(s, events).runs[r])| <= AtMost(events[k].concurrency, |s.files|)
  {
    InitInv(s);
    NoRuns(s);
    RunInv(s, events);
    RunWorkers(s, events, r);
    RunningAtMost(Execute(s, events), r);
    hide Execute, Inv, Initial, AtMost;
    var run := Execute(s, events).runs[r];
    var k :| 0 <= k < |events| && events[k].Start? && |run.workers| == AtMost(events[k].concurrency, |s.files|);
  }

  // ---- what files report and become

  /** A completed file is not taken again: it stays so, or fails because its run was aborted. */
  lemma WorkerCompleted(s: Session, r: nat, w: nat, f: nat)
    requires HasWorker(s, r, w) && f < |s.files| && s.files[f].status == Completed
    requires (s.runs[r].workers[w].AtChunk? || s.runs[r].workers[w].Awaiting?) ==> s.runs[r].workers[w].file != f
    ensures s.runs[r].workers[w].Looping? ==> CompletedKept(s, LoopStep(s, r, s.runs[r], w), f)
    ensures s.runs[r].workers[w].AtChunk? ==> CompletedKept(s, ChunkStep(s, r, s.runs[r], w), f)
    ensures s.runs[r].workers[w].Awaiting? ==> CompletedKept(s, ResumeStep(s, r, s.runs[r], w), f)
  {
    hide SumUploaded;
  }

  predicate CompletedKept(s: Session, t: Session, f: nat)
    requires f < |s.files|
  {
    && |t.files| == |s.files| && t.files[f].chunks == s.files[f].chunks
    && (t.files[f].status == Completed || (t.files[f].status == Failed && IsAborted(s)))
  }

  lemma OthersCompleted(s: Session, e: Event, f: nat)
    requires f < |s.files| && s.files[f].status == Completed
    ensures !e.Loop? && !e.NextChunk? && !e.Resume? ==> CompletedKept(s, Step(s, e), f)
  {
    hide LoopStep, ChunkStep, ResumeStep, SumUploaded, IsAborted, AllConfirmed;
  }

  lemma CompletedStays(s: Session, e: Event, f: nat)
    requires Inv(s) && f < |s.files| && s.files[f].status == Completed
    ensures CompletedKept(s, Step(s, e), f)
  {
    if (e.NextChunk? || e.Resume?) && HasWorker(s, e.run, e.worker)
       && (s.runs[e.run].workers[e.worker].AtChunk? || s.runs[e.run].workers[e.worker].Awaiting?) {
      HeldUploads(s, e.run, e.worker);
    }
    hide Inv, LoopStep, ChunkStep, ResumeStep, SettleStep, JoinStep, RegisteredStep, CatchStep, SumUploaded;
    OthersCompleted(s, e, f);
    match e {
      case Loop(r, w) => if HasWorker(s, r, w) && s.runs[r].workers[w].Looping? { WorkerCompleted(s, r, w, f); }
      case NextChunk(r, w) => if HasWorker(s, r, w) && s.runs[r].workers[w].AtChunk? { WorkerCompleted(s, r, w, f); }
      case Resume(r, w) => if HasWorker(s, r, w) && s.runs[r].workers[w].Awaiting? { WorkerCompleted(s, r, w, f); }
      case _ =>
    }
  }

  /** Every file reports at least the chunks that are marked. */
  predicate ReportsMarked(s: Session) {
    forall f | 0 <= f < |s.files| :: s.files[f].uploadedBytes >= SumUploaded(s.files[f].chunks)
  }

  lemma {:induction false} SumAtMost(chunks: seq<Chunk>)
    ensures SumUploaded(chunks) <= SumLengths(chunks)
  {
    if chunks != [] { SumAtMost(chunks[1..]); }
  }

  lemma WorkerReports(s: Session, r: nat, w: nat)
    requires HasWorker(s, r, w) && ReportsMarked(s) && ChunksFill(s)
    ensures s.runs[r].workers[w].Looping? ==> ReportsMarked(LoopStep(s, r, s.runs[r], w))
    ensures s.runs[r].workers[w].AtChunk? ==> ReportsMarked(ChunkStep(s, r, s.runs[r], w))
    ensures s.runs[r].workers[w].Awaiting? ==> ReportsMarked(ResumeStep(s, r, s.runs[r], w))
  {
    forall f | 0 <= f < |s.files|
      ensures SumUploaded(s.files[f].chunks) <= SumLengths(s.files[f].chunks)
    {
      SumAtMost(s.files[f].chunks);
    }
    hide IsAborted;
  }

  lemma StepReports(s: Session, e: Event)
    requires ReportsMarked(s) && ChunksFill(s)
    ensures ReportsMarked(Step(s, e))
  {
    hide LoopStep, ChunkStep, ResumeStep, SumUploaded, ChunksFill;
    match e {
      case Loop(r, w) => if HasWorker(s, r, w) { WorkerReports(s, r, w); }
      case NextChunk(r, w) => if HasWorker(s, r, w) { WorkerReports(s, r, w); }
      case Resume(r, w) => if HasWorker(s, r, w) { WorkerReports(s, r, w); }
      case _ =>
    }
  }

  /** In every run a file reports no less than what is marked of it, however progress reports come in. */
  lemma {:induction false} RunReports(s: Session, events: seq<Event>)
    requires ReportsMarked(s) && ChunksFill(s)
    ensures ReportsMarked(Execute(s, events))
    decreases |events|
  {
    hide Step, ReportsMarked, ChunksFill;
    if events != [] {
      FillStep(s, events[0]);
      StepReports(s, events[0]);
      RunReports(Step(s, events[0]), events[1..]);
    }
  }

  /** A report of a running transfer adds to what is marked, and to its own file alone. */
  lemma ProgressAdds(s: Session, r: nat, id: nat, bytes: nat, f: nat)
    requires Inv(s) && IsRunning(s, r, id) && f < |s.files|
    ensures var t := Step(s, Progress(r, id, bytes));
            && |t.files| == |s.files| && s.runs[r].tasks[id].file < |s.files|
            && t.files[f].uploadedBytes == if f == s.runs[r].tasks[id].file
                   then SumUploaded(s.files[f].chunks) + bytes else s.files[f].uploadedBytes
  {
    RunningUploads(s, r, id);
    hide Inv, SumUploaded;
  }
}
