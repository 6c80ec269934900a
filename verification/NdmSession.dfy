/** The upload session of an import (src/ndm_client.ts), as a step system. */
module NdmSession {
  import opened Wrappers

  // The code is `startUpload`, `doUpload`, `uploadMissingChunk`, `cancelImportSession` and `getImportSessionStatus`.
  // A step is what it does between two suspension points, or less; the environment chooses the next one.
  // Chunk transfers, the finalize request and the caller's abort signal are environment steps. A disabled step
  // changes nothing, so every sequence of events is a run.

  datatype Chunk = Chunk(id: nat, length: nat, uploaded: bool)

  datatype FileStatus = Pending | Uploading | Completed | Failed

  /** One entry of `objectStates`. */
  datatype FileState = FileState(size: nat, uploadedBytes: nat, status: FileStatus, chunks: seq<Chunk>)

  datatype ObjectStatus = ObjPending | Finalizing | Ready | ObjFailed | ObjCancelled
  datatype UploadStatus = NotStarted | InProgress | UploadCompleted | NotRequired | UploadFailed | UploadCancelled

  /** Where a worker of `doUpload` is: at its loop condition, at a chunk of a file, or awaiting that chunk's task. */
  datatype Worker = Looping | AtChunk(file: nat, chunk: nat) | Awaiting(file: nat, chunk: nat) | Finished

  datatype TaskState = Running | Resolved | Rejected

  /** A promise of `chunkTasks`, with the worker and file that created it. */
  datatype Task = Task(worker: nat, file: nat, length: nat, state: TaskState)

  /** Where the promise of one `doUpload` call is. */
  datatype Phase = Transferring | Registering | Threw | Returned | Caught | Settled

  datatype Run = Run(
    controller: nat, phase: Phase, workers: seq<Worker>, index: nat, failure: bool,
    tasks: map<nat, Task>,   // chunkTasks
    started: seq<nat>)       // chunk ids handed to uploadMissingChunk, in order

  datatype Session = Session(
    files: seq<FileState>,
    items: seq<nat>,           // the file entries of `items`, as indices into `files`; equal ids share an entry
    roots: nat,                // |items| of the session: the imported roots
    objectStatus: ObjectStatus,
    uploadStatus: UploadStatus,
    uploadPromise: Option<nat>,
    controller: Option<nat>,   // the current abort controller
    controllers: nat,          // how many were created
    aborted: set<nat>,         // controllers whose signal is aborted
    bind: bool,
    transmittedBytes: nat,
    runs: map<nat, Run>,       // every run ever started
    readyBy: Option<nat>)      // the run that set `ready`

  datatype Event =
    | Start(concurrency: int, signalAborted: bool, endpointKnown: bool, bind: bool)
    | Cancel
    | SignalAborts             // a caller's signal, at any time: it aborts the current controller
    | Loop(run: nat, worker: nat)
    | NextChunk(run: nat, worker: nat)
    | Resume(run: nat, worker: nat)
    | Progress(run: nat, id: nat, bytes: nat)
    | LateReport(run: nat, id: nat, bytes: nat)   // a progress report of a transfer whose promise has settled
    | TaskSettles(run: nat, id: nat, success: bool, sent: bool)
    | WorkersDone(run: nat)
    | Registered(run: nat, ok: bool, ready: bool, confirmed: seq<bool>, bound: bool)
    | RegisterFails(run: nat)
    | CatchError(run: nat)
    | Finally(run: nat)

  // ---- the steps

  function SumUploaded(chunks: seq<Chunk>): nat {
    if chunks == [] then 0
    else (if chunks[0].uploaded then chunks[0].length else 0) + SumUploaded(chunks[1..])
  }

  predicate IsAborted(s: Session) { s.controller.Some? && s.controller.value in s.aborted }

  function WithRun(s: Session, r: nat, run: Run): Session { s.(runs := s.runs[r := run]) }

  function WithFile(s: Session, f: nat, file: FileState): Session
    requires f < |s.files|
  {
    s.(files := s.files[f := file])
  }

  function WithWorker(run: Run, w: nat, worker: Worker): Run
    requires w < |run.workers|
  {
    run.(workers := run.workers[w := worker])
  }

  /** `state.state = 'failed'; failure = error` */
  function FileFails(s: Session, r: nat, run: Run, w: nat, f: nat): Session
    requires w < |run.workers| && f < |s.files|
  {
    WithRun(WithFile(s, f, s.files[f].(status := Failed)), r, WithWorker(run, w, Looping).(failure := true))
  }

  function FreshRun(s: Session): nat { |s.runs| }

  function Started(s: Session, concurrency: nat, bind: bool): Session {
    var t := s.(controller := Some(s.controllers), controllers := s.controllers + 1,
                uploadStatus := InProgress, objectStatus := ObjPending);
    if bind && s.roots != 1 then t // throws after the statuses changed
    else
      var n := if concurrency < |s.files| then concurrency else |s.files|;
      var run := Run(s.controllers, Transferring, seq(n, _ => Looping), 0, false, map[], []);
      t.(bind := s.bind || bind, uploadPromise := Some(FreshRun(s)), runs := s.runs[FreshRun(s) := run])
  }

  predicate CanStart(s: Session, e: Event)
    requires e.Start?
  {
    s.objectStatus != Ready && s.uploadPromise.None? && e.concurrency >= 1 && !e.signalAborted && e.endpointKnown
  }

  function Aborted(s: Session): Session {
    if s.controller.Some? then s.(aborted := s.aborted + {s.controller.value}) else s
  }

  function Cancelled(s: Session): Session {
    if s.objectStatus == Ready then s
    else Aborted(s).(uploadStatus := UploadCancelled, objectStatus := ObjCancelled)
  }

  function LoopStep(s: Session, r: nat, run: Run, w: nat): Session
    requires w < |run.workers|
  {
    if run.index < |s.files| && !run.failure then
      var f := run.index;
      var next := run.(index := f + 1);
      if IsAborted(s) then FileFails(s, r, next, w, f)
      else if s.files[f].status == Completed then WithRun(s, r, next)
      else WithRun(WithFile(s, f, s.files[f].(status := Uploading)), r, WithWorker(next, w, AtChunk(f, 0)))
    else WithRun(s, r, WithWorker(run, w, Finished))
  }

  function ChunkStep(s: Session, r: nat, run: Run, w: nat): Session
    requires w < |run.workers| && run.workers[w].AtChunk?
  {
    var AtChunk(f, c) := run.workers[w];
    if f >= |s.files| then s
    else if c >= |s.files[f].chunks| then
      WithRun(WithFile(s, f, s.files[f].(uploadedBytes := s.files[f].size, status := Completed)), r,
          WithWorker(run, w, Looping))
    else if IsAborted(s) then FileFails(s, r, run, w, f)
    else
      var chunk := s.files[f].chunks[c];
      if chunk.uploaded then WithRun(s, r, WithWorker(run, w, AtChunk(f, c + 1)))
      else if chunk.id in run.tasks then WithRun(s, r, WithWorker(run, w, Awaiting(f, c)))
      else
        WithRun(s, r, WithWorker(run, w, Awaiting(f, c)).(
          tasks := run.tasks[chunk.id := Task(w, f, chunk.length, Running)], started := run.started + [chunk.id]))
  }

  function ResumeStep(s: Session, r: nat, run: Run, w: nat): Session
    requires w < |run.workers| && run.workers[w].Awaiting?
  {
    var Awaiting(f, c) := run.workers[w];
    if f >= |s.files| || c >= |s.files[f].chunks| || s.files[f].chunks[c].id !in run.tasks then s
    else
      match run.tasks[s.files[f].chunks[c].id].state
      case Running => s
      case Rejected => FileFails(s, r, run, w, f)
      case Resolved =>
        var chunks := s.files[f].chunks[c := s.files[f].chunks[c].(uploaded := true)];
        WithRun(WithFile(s, f, s.files[f].(chunks := chunks, uploadedBytes := SumUploaded(chunks))), r,
                WithWorker(run, w, AtChunk(f, c + 1)))
  }

  function ProgressStep(s: Session, run: Run, id: nat, bytes: nat): Session {
    if id in run.tasks && run.tasks[id].state == Running && run.tasks[id].file < |s.files| then
      var f := run.tasks[id].file;
      WithFile(s, f, s.files[f].(uploadedBytes := SumUploaded(s.files[f].chunks) + bytes))
    else s
  }

  function LateStep(s: Session, run: Run, id: nat, bytes: nat): Session {
    if id in run.tasks && run.tasks[id].state != Running && run.tasks[id].file < |s.files| then
      var f := run.tasks[id].file;
      WithFile(s, f, s.files[f].(uploadedBytes := SumUploaded(s.files[f].chunks) + bytes))
    else s
  }

  function SettleStep(s: Session, r: nat, run: Run, id: nat, success: bool, sent: bool): Session {
    if id in run.tasks && run.tasks[id].state == Running then
      var task := run.tasks[id];
      var t := if success && sent then s.(transmittedBytes := s.transmittedBytes + task.length) else s;
      WithRun(t, r, run.(tasks := run.tasks[id := task.(state := if success then Resolved else Rejected)]))
    else s
  }

  /** `await Promise.all(workers)` resumes. */
  function JoinStep(s: Session, r: nat, run: Run): Session {
    if forall w | 0 <= w < |run.workers| :: run.workers[w] == Finished then
      if run.failure || IsAborted(s) then WithRun(s, r, run.(phase := Threw))
      else WithRun(s.(objectStatus := Finalizing), r, run.(phase := Registering))
    else s
  }

  predicate AllConfirmed(s: Session, confirmed: seq<bool>) {
    |confirmed| == s.roots && forall i | 0 <= i < |confirmed| :: confirmed[i]
  }

  /** The finalize response. */
  function RegisteredStep(s: Session, r: nat, run: Run, e: Event): Session
    requires e.Registered?
  {
    if !e.ok || run.controller in s.aborted || !e.ready || !AllConfirmed(s, e.confirmed) || (s.bind && !e.bound) then
      WithRun(s, r, run.(phase := Threw))
    else
      WithRun(s.(objectStatus := Ready, readyBy := Some(r),
                 uploadStatus := if s.transmittedBytes == 0 then NotRequired else UploadCompleted),
              r, run.(phase := Returned))
  }

  function CatchStep(s: Session, r: nat, run: Run): Session {
    WithRun(s.(uploadStatus := if IsAborted(s) then UploadCancelled else UploadFailed,
               objectStatus := if IsAborted(s) then ObjCancelled else ObjFailed), r, run.(phase := Caught))
  }

  predicate HasWorker(s: Session, r: nat, w: nat) {
    r in s.runs && s.runs[r].phase == Transferring && w < |s.runs[r].workers|
  }

  predicate InPhase(s: Session, r: nat, phase: Phase) { r in s.runs && s.runs[r].phase == phase }

  function Step(s: Session, e: Event): Session {
    match e
    case Start(n, _, _, bind) => if CanStart(s, e) then Started(s, n, bind) else s
    case Cancel => Cancelled(s)
    case SignalAborts => Aborted(s)
    case Loop(r, w) => if HasWorker(s, r, w) && s.runs[r].workers[w].Looping? then LoopStep(s, r, s.runs[r], w) else s
    case NextChunk(r, w) => if HasWorker(s, r, w) && s.runs[r].workers[w].AtChunk?
        then ChunkStep(s, r, s.runs[r], w) else s
    case Resume(r, w) => if HasWorker(s, r, w) && s.runs[r].workers[w].Awaiting?
        then ResumeStep(s, r, s.runs[r], w) else s
    case Progress(r, id, bytes) => if InPhase(s, r, Transferring) then ProgressStep(s, s.runs[r], id, bytes) else s
    case LateReport(r, id, bytes) => if r in s.runs then LateStep(s, s.runs[r], id, bytes) else s
    case TaskSettles(r, id, ok, sent) => if InPhase(s, r, Transferring)
        then SettleStep(s, r, s.runs[r], id, ok, sent) else s
    case WorkersDone(r) => if InPhase(s, r, Transferring) then JoinStep(s, r, s.runs[r]) else s
    case Registered(r, _, _, _, _) => if InPhase(s, r, Registering) then RegisteredStep(s, r, s.runs[r], e) else s
    case RegisterFails(r) => if InPhase(s, r, Registering) then WithRun(s, r, s.runs[r].(phase := Threw)) else s
    case CatchError(r) => if InPhase(s, r, Threw) then CatchStep(s, r, s.runs[r]) else s
    case Finally(r) =>
      if InPhase(s, r, Returned) || InPhase(s, r, Caught)
      then WithRun(s.(uploadPromise := None), r, s.runs[r].(phase := Settled)) else s
  }

  function Execute(s: Session, events: seq<Event>): Session
    decreases |events|
  {
    if events == [] then s else Execute(Step(s, events[0]), events[1..])
  }

  /** A session as the import creates it. */
  predicate Initial(s: Session) {
    && s.objectStatus == ObjPending && s.uploadStatus == NotStarted && s.uploadPromise.None? && s.controller.None?
    && s.controllers == 0 && s.aborted == {} && s.transmittedBytes == 0 && s.runs == map[] && s.readyBy.None?
    && (forall i | 0 <= i < |s.items| :: s.items[i] < |s.files|)
    && (forall f | 0 <= f < |s.files| :: s.files[f].status in {Pending, Completed} && FileSound(s.files[f]))
    && BytesExact(s)
    && (forall f | 0 <= f < |s.files| :: forall c | 0 <= c < |s.files[f].chunks| :: !s.files[f].chunks[c].uploaded)
  }

  // ---- the invariant

  predicate AllUploaded(chunks: seq<Chunk>) { forall c | 0 <= c < |chunks| :: chunks[c].uploaded }

  predicate FileSound(f: FileState) { f.status == Completed ==> AllUploaded(f.chunks) }

  /** A completed file reports its size. A late report can undo this, and nothing else can. */
  predicate BytesExact(s: Session) {
    forall f | 0 <= f < |s.files| && s.files[f].status == Completed :: Exact(s.files[f])
  }

  predicate Exact(f: FileState) { f.uploadedBytes == f.size }

  predicate Holds(worker: Worker, f: nat) { (worker.AtChunk? || worker.Awaiting?) && worker.file == f }

  /** A worker holds a taken file, all of whose chunks before its position are uploaded. */
  ghost predicate WorkerOk(s: Session, run: Run, worker: Worker) {
    worker.AtChunk? || worker.Awaiting? ==>
      && worker.file < run.index && worker.file < |s.files| && s.files[worker.file].status == Uploading
      && worker.chunk <= |s.files[worker.file].chunks|
      && AllUploaded(s.files[worker.file].chunks[..worker.chunk])
      && (worker.Awaiting? ==>
             worker.chunk < |s.files[worker.file].chunks| && s.files[worker.file].chunks[worker.chunk].id in run.tasks)
  }

  ghost predicate WorkersOk(s: Session, run: Run) {
    && (forall w | 0 <= w < |run.workers| :: WorkerOk(s, run, run.workers[w]))
    && (forall v, w, f: nat | 0 <= v < w < |run.workers| && Holds(run.workers[v], f) :: !Holds(run.workers[w], f))
  }

  /** While nothing failed, a taken file is finished or in the hands of a worker. */
  ghost predicate Covered(s: Session, run: Run) {
    run.index <= |s.files| &&
    (!run.failure ==> forall f: nat | f < run.index && s.files[f].status != Completed ::
       exists w :: 0 <= w < |run.workers| && Holds(run.workers[w], f))
  }

  /** A worker leaves its loop only when every file is taken or something failed. */
  ghost predicate FinishedOk(s: Session, run: Run) {
    (exists w :: 0 <= w < |run.workers| && run.workers[w] == Finished) ==> run.failure || run.index == |s.files|
  }

  /** The creator of a running task is still awaiting it. */
  ghost predicate TasksOk(s: Session, run: Run) {
    forall id | id in run.tasks && run.tasks[id].state == Running ::
      var t := run.tasks[id];
      && t.worker < |run.workers| && run.workers[t.worker].Awaiting? && run.workers[t.worker].file == t.file
      && t.file < |s.files| && run.workers[t.worker].chunk < |s.files[t.file].chunks|
      && s.files[t.file].chunks[run.workers[t.worker].chunk].id == id
  }

  ghost predicate AllCompleted(s: Session) { forall f | 0 <= f < |s.files| :: s.files[f].status == Completed }

  /** The task map holds exactly the ids that were started, each started once. */
  ghost predicate StartedOnce(run: Run) {
    && (forall i, j | 0 <= i < j < |run.started| :: run.started[i] != run.started[j])
    && (forall id :: id in run.started <==> id in run.tasks)
  }

  ghost predicate Transfer(s: Session, run: Run) {
    && WorkersOk(s, run) && Covered(s, run) && FinishedOk(s, run) && TasksOk(s, run)
    && (|run.workers| == 0 ==> |s.files| == 0)
  }

  ghost predicate ActiveOk(s: Session, run: Run) {
    && s.controller == Some(run.controller)
    && (run.phase == Transferring ==> Transfer(s, run))
    && (run.phase == Registering ==> AllCompleted(s))
    && (s.objectStatus == Ready <==> run.phase == Returned)
  }

  ghost predicate FilesSound(s: Session) { forall f | 0 <= f < |s.files| :: FileSound(s.files[f]) }

  ghost predicate RunsOk(s: Session) {
    forall r | r in s.runs :: r < |s.runs| && StartedOnce(s.runs[r]) && s.runs[r].controller < s.controllers
  }

  /** At most one run is not settled: the one whose promise the session holds. */
  ghost predicate OneActive(s: Session) {
    && (forall r | r in s.runs && s.runs[r].phase != Settled :: s.uploadPromise == Some(r))
    && (s.uploadPromise.Some? ==> s.uploadPromise.value in s.runs && s.runs[s.uploadPromise.value].phase != Settled)
  }

  ghost predicate ReadyOk(s: Session) {
    && (s.objectStatus == Ready <==> s.readyBy.Some?)
    && (s.objectStatus == Ready ==> AllCompleted(s))
  }

  ghost predicate Inv(s: Session) {
    && (forall i | 0 <= i < |s.items| :: s.items[i] < |s.files|)
    && (forall a | a in s.aborted :: a < s.controllers)
    && (s.controller.Some? ==> s.controller.value < s.controllers)
    && FilesSound(s) && RunsOk(s) && OneActive(s) && ReadyOk(s)
    && (s.uploadPromise.Some? ==> ActiveOk(s, s.runs[s.uploadPromise.value]))
  }

  // ---- every step keeps it

  lemma InitInv(s: Session)
    requires Initial(s)
    ensures Inv(s)
  {}

  /** What a step of the active run has to establish. */
  lemma RunStep(s: Session, t: Session, r: nat, run: Run)
    requires Inv(s) && r in s.runs && s.runs[r].phase != Settled
    requires t == s.(files := t.files, objectStatus := t.objectStatus, uploadStatus := t.uploadStatus,
                     transmittedBytes := t.transmittedBytes, runs := s.runs[r := run], readyBy := t.readyBy)
    requires |t.files| == |s.files| && FilesSound(t) && ReadyOk(t)
    requires run.phase != Settled && run.controller == s.runs[r].controller && StartedOnce(run) && ActiveOk(t, run)
    ensures Inv(t)
  {
    assert t.runs.Keys == s.runs.Keys;
    assert |t.runs| == |s.runs|;
  }

  lemma StartInv(s: Session, e: Event)
    requires Inv(s) && e.Start?
    ensures Inv(Step(s, e))
  {
    if CanStart(s, e) && !(e.bind && s.roots != 1) {
      NewRunInv(s, Step(s, e));
    }
  }

  lemma NewRunInv(s: Session, t: Session)
    requires Inv(s) && s.uploadPromise.None? && s.objectStatus != Ready && FreshRun(s) in t.runs
    requires var run := t.runs[FreshRun(s)];
             && t == s.(controller := Some(s.controllers), controllers := s.controllers + 1, uploadStatus := InProgress,
                        objectStatus := ObjPending, bind := t.bind, uploadPromise := Some(FreshRun(s)),
                            runs := s.runs[FreshRun(s) := run])
             && run == Run(s.controllers, Transferring, run.workers, 0, false, map[], [])
             && (forall w | 0 <= w < |run.workers| :: run.workers[w] == Looping)
             && (|run.workers| == 0 ==> |s.files| == 0)
    ensures Inv(t)
  {
    hide WorkersOk, Covered, FinishedOk, TasksOk, FileSound, AllCompleted, IsAborted;
    var r := FreshRun(s);
    assert r !in s.runs;
    assert t.runs.Keys == s.runs.Keys + {r};
    assert |t.runs| == |s.runs| + 1;
    FreshTransfer(t, t.runs[r]);
  }

  lemma FreshTransfer(t: Session, run: Run)
    requires (forall w | 0 <= w < |run.workers| :: run.workers[w] == Looping) && run.index == 0 && run.tasks == map[]
    requires |run.workers| == 0 ==> |t.files| == 0
    ensures Transfer(t, run)
  {}

  lemma CancelInv(s: Session, e: Event)
    requires Inv(s) && (e.Cancel? || e.SignalAborts?)
    ensures Inv(Step(s, e))
  {
    var t := Step(s, e);
    if s.uploadPromise.Some? {
      var run := s.runs[s.uploadPromise.value];
      assert run.phase == Transferring ==> Transfer(t, run) by {
        if run.phase == Transferring { SameFilesTransfer(s, t, run); }
      }
    }
  }

  lemma SameFilesTransfer(s: Session, t: Session, run: Run)
    requires t.files == s.files && Transfer(s, run)
    ensures Transfer(t, run)
  {
    assert forall w | 0 <= w < |run.workers| :: WorkerOk(s, run, run.workers[w]) ==> WorkerOk(t, run, run.workers[w]);
  }

  // ---- the worker steps

  /** A step by worker `w` that rewrites at most the file it holds. */
  ghost predicate WorkerMove(s: Session, t: Session, run: Run, next: Run, w: nat, f: nat) {
    && w < |run.workers| && f < |s.files| && |t.files| == |s.files|
    && (forall g | 0 <= g < |s.files| && g != f :: t.files[g] == s.files[g])
    && |next.workers| == |run.workers|
    && (forall v | 0 <= v < |run.workers| && v != w :: next.workers[v] == run.workers[v])
    && (forall v | 0 <= v < |run.workers| && v != w :: !Holds(run.workers[v], f))
    && run.tasks.Keys <= next.tasks.Keys && run.index <= next.index
    && |t.files[f].chunks| == |s.files[f].chunks|
    && (forall c | 0 <= c < |s.files[f].chunks| :: t.files[f].chunks[c].id == s.files[f].chunks[c].id)
  }

  lemma OthersOk(s: Session, t: Session, run: Run, next: Run, w: nat, f: nat)
    requires WorkersOk(s, run) && WorkerMove(s, t, run, next, w, f)
    requires WorkerOk(t, next, next.workers[w])
    requires forall g: nat | Holds(next.workers[w], g) :: g == f
    ensures WorkersOk(t, next)
  {
    forall v | 0 <= v < |next.workers|
      ensures WorkerOk(t, next, next.workers[v])
    {
      if v != w {
        assert WorkerOk(s, run, run.workers[v]);
        assert !Holds(run.workers[v], f);
      }
    }
    forall u, v, g: nat | 0 <= u < v < |next.workers| && Holds(next.workers[u], g)
      ensures !Holds(next.workers[v], g)
    {
      if u == w {
        assert g == f && !Holds(run.workers[v], f);
      } else if v == w {
        assert Holds(run.workers[u], g);
      } else {
        assert Holds(run.workers[u], g);
      }
    }
  }

  lemma OthersCovered(s: Session, t: Session, run: Run, next: Run, w: nat, f: nat)
    requires Covered(s, run) && WorkerMove(s, t, run, next, w, f) && next.index <= |t.files|
    requires run.failure ==> next.failure
    requires next.index == run.index || (next.index == run.index + 1 && f == run.index)
    requires !next.failure ==> t.files[f].status == Completed || Holds(next.workers[w], f) || f >= next.index
    requires !next.failure ==> forall g: nat | Holds(run.workers[w], g) :: g == f
    ensures Covered(t, next)
  {
    if !next.failure {
      forall g: nat | g < next.index && t.files[g].status != Completed
        ensures exists v :: 0 <= v < |next.workers| && Holds(next.workers[v], g)
      {
        if g == f {
          assert Holds(next.workers[w], g);
        } else {
          assert s.files[g].status != Completed;
          var v :| 0 <= v < |run.workers| && Holds(run.workers[v], g);
          assert v != w;
          assert Holds(next.workers[v], g);
        }
      }
    }
  }

  lemma OthersTasks(s: Session, t: Session, run: Run, next: Run, w: nat, f: nat)
    requires TasksOk(s, run) && WorkerMove(s, t, run, next, w, f)
    requires forall id | id in run.tasks && run.tasks[id].state == Running :: run.tasks[id].worker != w
    requires forall id | id in next.tasks && next.tasks[id].state == Running ::
               id in run.tasks && next.tasks[id] == run.tasks[id]
    ensures TasksOk(t, next)
  {
    forall id | id in next.tasks && next.tasks[id].state == Running
      ensures var k := next.tasks[id];
              && k.worker < |next.workers| && next.workers[k.worker].Awaiting? && next.workers[k.worker].file == k.file
              && k.file < |t.files| && next.workers[k.worker].chunk < |t.files[k.file].chunks|
              && t.files[k.file].chunks[next.workers[k.worker].chunk].id == id
    {
      var k := next.tasks[id];
      assert k == run.tasks[id] && k.worker != w;
      assert next.workers[k.worker] == run.workers[k.worker];
      if k.file != f { assert t.files[k.file] == s.files[k.file]; }
    }
  }

  /** A worker in its loop, or at a chunk, has no running task of its own. */
  lemma IdleCreator(s: Session, run: Run, w: nat)
    requires TasksOk(s, run) && w < |run.workers| && !run.workers[w].Awaiting?
    ensures forall id | id in run.tasks && run.tasks[id].state == Running :: run.tasks[id].worker != w
  {}

  ghost predicate ActiveTransfer(s: Session, r: nat) {
    Inv(s) && r in s.runs && s.runs[r].phase == Transferring
  }

  lemma ActiveFacts(s: Session, r: nat)
    requires ActiveTransfer(s, r)
    ensures s.uploadPromise == Some(r) && Transfer(s, s.runs[r]) && s.objectStatus != Ready && s.readyBy.None?
    ensures StartedOnce(s.runs[r]) && s.controller == Some(s.runs[r].controller)
  {}

  /** `throwIfCancelled` throws, or the awaited task rejected: the file fails and the worker returns to its loop. */
  lemma FailInv(s: Session, r: nat, mid: Run, w: nat, f: nat)
    requires ActiveTransfer(s, r) && w < |s.runs[r].workers| && f < |s.files|
    requires var run := s.runs[r];
             && (mid == run || mid == run.(index := f + 1))
             && (forall v | 0 <= v < |run.workers| && v != w :: !Holds(run.workers[v], f))
             && mid.index <= |s.files| && run.index <= mid.index
             && (forall id | id in run.tasks && run.tasks[id].state == Running :: run.tasks[id].worker != w)
    ensures Inv(FileFails(s, r, mid, w, f))
  {
    ActiveFacts(s, r);
    var run, t := s.runs[r], FileFails(s, r, mid, w, f);
    var next := t.runs[r];
    assert WorkerMove(s, t, run, next, w, f);
    OthersOk(s, t, run, next, w, f);
    OthersTasks(s, t, run, next, w, f);
    assert Transfer(t, next);
    RunStep(s, t, r, next);
  }

  lemma FreshFile(s: Session, run: Run)
    requires WorkersOk(s, run)
    ensures forall v | 0 <= v < |run.workers| :: !Holds(run.workers[v], run.index)
  {
    assert forall v | 0 <= v < |run.workers| :: WorkerOk(s, run, run.workers[v]);
  }

  lemma HolderFacts(s: Session, run: Run, w: nat)
    requires WorkersOk(s, run) && Covered(s, run) && w < |run.workers|
    requires (run.workers[w].AtChunk? || run.workers[w].Awaiting?)
    ensures WorkerOk(s, run, run.workers[w]) && run.index <= |s.files|
    ensures forall v | 0 <= v < |run.workers| && v != w :: !Holds(run.workers[v], run.workers[w].file)
  {
    assert Holds(run.workers[w], run.workers[w].file);
  }

  /** What a step of worker `w`, which neither fails nor leaves its loop, has to establish. */
  lemma WorkerStep(s: Session, t: Session, r: nat, next: Run, w: nat, f: nat)
    requires ActiveTransfer(s, r)
    requires t == s.(files := t.files, runs := s.runs[r := next]) && WorkerMove(s, t, s.runs[r], next, w, f)
    requires FileSound(t.files[f]) && WorkerOk(t, next, next.workers[w])
    requires next
              == s.runs[r].(workers := next.workers, index := next.index, tasks := next.tasks, started := next.started)
    requires TasksOk(t, next) && StartedOnce(next) && FinishedOk(t, next)
    requires next.index <= |t.files|
    requires next.index == s.runs[r].index || (next.index == s.runs[r].index + 1 && f == s.runs[r].index)
    requires forall g: nat | Holds(next.workers[w], g) || Holds(s.runs[r].workers[w], g) :: g == f
    requires t.files[f].status == Completed || Holds(next.workers[w], f) || f >= next.index || next.failure
    ensures Inv(t)
  {
    hide WorkersOk, Covered, FinishedOk, TasksOk, WorkerOk, WorkerMove;
    ActiveFacts(s, r);
    OthersOk(s, t, s.runs[r], next, w, f);
    OthersCovered(s, t, s.runs[r], next, w, f);
    FilesStaySound(s, t, s.runs[r], next, w, f);
    RunStep(s, t, r, next);
  }

  lemma FilesStaySound(s: Session, t: Session, run: Run, next: Run, w: nat, f: nat)
    requires FilesSound(s) && WorkerMove(s, t, run, next, w, f) && FileSound(t.files[f])
    ensures FilesSound(t) && |t.files| == |s.files|
    ensures |next.workers| == |run.workers|
  {}

  lemma LoopInv(s: Session, r: nat, w: nat)
    requires ActiveTransfer(s, r) && w < |s.runs[r].workers| && s.runs[r].workers[w].Looping?
    ensures Inv(LoopStep(s, r, s.runs[r], w))
  {
    hide Inv, WorkersOk, Covered, FinishedOk, TasksOk;
    ActiveFacts(s, r);
    var run := s.runs[r];
    if run.index < |s.files| && !run.failure {
      FreshFile(s, run);
      IdleCreator(s, run, w);
      if IsAborted(s) {
        FailInv(s, r, run.(index := run.index + 1), w, run.index);
      } else {
        TakeInv(s, r, w);
      }
    } else {
      LeaveInv(s, r, w);
    }
  }

  lemma TakeInv(s: Session, r: nat, w: nat)
    requires ActiveTransfer(s, r) && w < |s.runs[r].workers| && s.runs[r].workers[w].Looping?
    requires s.runs[r].index < |s.files| && !s.runs[r].failure && !IsAborted(s)
    ensures Inv(LoopStep(s, r, s.runs[r], w))
  {
    hide Inv, WorkersOk, Covered, FinishedOk, TasksOk;
    ActiveFacts(s, r);
    var run := s.runs[r];
    var f := run.index;
    var t := LoopStep(s, r, run, w);
    var next := t.runs[r];
    FreshFile(s, run);
    IdleCreator(s, run, w);
    assert WorkerMove(s, t, run, next, w, f);
    OthersTasks(s, t, run, next, w, f);
    LoopKeepsFinished(s, t, run, next, w);
    FileWasSound(s, r, f);
    WorkerStep(s, t, r, next, w, f);
  }

  lemma FileWasSound(s: Session, r: nat, f: nat)
    requires ActiveTransfer(s, r) && f < |s.files|
    ensures FileSound(s.files[f]) && s.runs[r].index <= |s.files|
  {}

  lemma LeaveInv(s: Session, r: nat, w: nat)
    requires ActiveTransfer(s, r) && w < |s.runs[r].workers| && s.runs[r].workers[w].Looping?
    requires s.runs[r].index >= |s.files| || s.runs[r].failure
    ensures Inv(LoopStep(s, r, s.runs[r], w))
  {
    hide WorkersOk, Covered, FinishedOk, TasksOk;
    ActiveFacts(s, r);
    var t := LoopStep(s, r, s.runs[r], w);
    LeaveLoop(s, t, s.runs[r], t.runs[r], w);
    RunStep(s, t, r, t.runs[r]);
  }

  lemma LoopKeepsFinished(s: Session, t: Session, run: Run, next: Run, w: nat)
    requires FinishedOk(s, run) && run.index < |s.files| && !run.failure && |t.files| == |s.files|
    requires w < |run.workers| && |next.workers| == |run.workers| && next.workers[w] != Finished
    requires forall v | 0 <= v < |run.workers| && v != w :: next.workers[v] == run.workers[v]
    ensures FinishedOk(t, next)
  {
    assert forall v | 0 <= v < |run.workers| && next.workers[v] == Finished :: run.workers[v] == Finished;
  }

  lemma LeaveLoop(s: Session, t: Session, run: Run, next: Run, w: nat)
    requires Transfer(s, run) && w < |run.workers| && run.workers[w].Looping?
    requires run.index >= |s.files| || run.failure
    requires t.files == s.files && next == WithWorker(run, w, Finished)
    ensures Transfer(t, next)
  {
    forall v | 0 <= v < |next.workers|
      ensures WorkerOk(t, next, next.workers[v])
    {
      assert WorkerOk(s, run, run.workers[v]);
    }
    if !next.failure {
      forall g: nat | g < next.index && t.files[g].status != Completed
        ensures exists v :: 0 <= v < |next.workers| && Holds(next.workers[v], g)
      {
        var v :| 0 <= v < |run.workers| && Holds(run.workers[v], g);
        assert Holds(next.workers[v], g);
      }
    }
  }

  lemma ChunkInv(s: Session, r: nat, w: nat)
    requires ActiveTransfer(s, r) && w < |s.runs[r].workers| && s.runs[r].workers[w].AtChunk?
    ensures Inv(ChunkStep(s, r, s.runs[r], w))
  {
    hide Inv, WorkersOk, Covered, FinishedOk, TasksOk;
    ActiveFacts(s, r);
    var run := s.runs[r];
    var AtChunk(f, c) := run.workers[w];
    HolderFacts(s, run, w);
    IdleCreator(s, run, w);
    if c >= |s.files[f].chunks| {
      CompleteInv(s, r, w, f, c);
    } else if IsAborted(s) {
      FailInv(s, r, run, w, f);
    } else {
      VisitInv(s, r, w, f, c);
    }
  }

  lemma CompleteInv(s: Session, r: nat, w: nat, f: nat, c: nat)
    requires ActiveTransfer(s, r) && w < |s.runs[r].workers| && s.runs[r].workers[w] == AtChunk(f, c)
    requires f < |s.files| && c >= |s.files[f].chunks|
    ensures Inv(ChunkStep(s, r, s.runs[r], w))
  {
    hide Inv, WorkersOk, Covered, FinishedOk, TasksOk;
    ActiveFacts(s, r);
    var run := s.runs[r];
    var t := ChunkStep(s, r, run, w);
    var next := t.runs[r];
    HolderFacts(s, run, w);
    IdleCreator(s, run, w);
    assert s.files[f].chunks[..c] == s.files[f].chunks;
    assert WorkerMove(s, t, run, next, w, f);
    OthersTasks(s, t, run, next, w, f);
    SameFinished(s, t, run, next, w);
    WorkerStep(s, t, r, next, w, f);
  }

  lemma VisitedOk(s: Session, t: Session, run: Run, next: Run, w: nat, f: nat, c: nat)
    requires w < |run.workers| && run.workers[w] == AtChunk(f, c)
    requires WorkerOk(s, run, run.workers[w]) && t.files == s.files
    requires c < |s.files[f].chunks| && |next.workers| == |run.workers| && next.index == run.index
    requires next.workers[w] == if s.files[f].chunks[c].uploaded then AtChunk(f, c + 1) else Awaiting(f, c)
    requires next.workers[w].Awaiting? ==> s.files[f].chunks[c].id in next.tasks
    ensures WorkerOk(t, next, next.workers[w])
  {
    assert s.files[f].chunks[..c + 1] == s.files[f].chunks[..c] + [s.files[f].chunks[c]];
  }

  lemma VisitInv(s: Session, r: nat, w: nat, f: nat, c: nat)
    requires ActiveTransfer(s, r) && w < |s.runs[r].workers| && s.runs[r].workers[w] == AtChunk(f, c)
    requires f < |s.files| && c < |s.files[f].chunks| && !IsAborted(s)
    ensures Inv(ChunkStep(s, r, s.runs[r], w))
  {
    hide Inv, WorkersOk, Covered, FinishedOk, TasksOk, FileSound, AllUploaded;
    ActiveFacts(s, r);
    var run := s.runs[r];
    var t := ChunkStep(s, r, run, w);
    var next := t.runs[r];
    var chunk := s.files[f].chunks[c];
    HolderFacts(s, run, w);
    IdleCreator(s, run, w);
    assert WorkerMove(s, t, run, next, w, f);
    if chunk.uploaded || chunk.id in run.tasks {
      OthersTasks(s, t, run, next, w, f);
    } else {
      NewTask(s, t, run, next, w, f, c);
    }
    VisitedOk(s, t, run, next, w, f, c);
    SameFinished(s, t, run, next, w);
    FileWasSound(s, r, f);
    WorkerStep(s, t, r, next, w, f);
  }

  lemma SameFinished(s: Session, t: Session, run: Run, next: Run, w: nat)
    requires FinishedOk(s, run) && |t.files| == |s.files| && next.index == run.index && (run.failure ==> next.failure)
    requires w < |run.workers| && |next.workers| == |run.workers| && next.workers[w] != Finished
    requires forall v | 0 <= v < |run.workers| && v != w :: next.workers[v] == run.workers[v]
    ensures FinishedOk(t, next)
  {
    if v :| 0 <= v < |next.workers| && next.workers[v] == Finished {
      assert v != w && run.workers[v] == Finished;
    }
  }

  lemma NewTask(s: Session, t: Session, run: Run, next: Run, w: nat, f: nat, c: nat)
    requires TasksOk(s, run) && StartedOnce(run) && w < |run.workers| && run.workers[w] == AtChunk(f, c)
    requires f < |s.files| && c < |s.files[f].chunks| && s.files[f].chunks[c].id !in run.tasks && t.files == s.files
    requires var chunk := s.files[f].chunks[c];
             next == WithWorker(run, w, Awaiting(f, c)).(
               tasks := run.tasks[chunk.id := Task(w, f, chunk.length, Running)], started := run.started + [chunk.id])
    ensures TasksOk(t, next) && StartedOnce(next)
  {
    IdleCreator(s, run, w);
    var id := s.files[f].chunks[c].id;
    assert id !in run.started;
    assert forall k :: k in next.started <==> k in run.started || k == id;
  }

  lemma SettledCreator(s: Session, run: Run, w: nat)
    requires TasksOk(s, run) && w < |run.workers| && run.workers[w].Awaiting? && WorkerOk(s, run, run.workers[w])
    requires run.tasks[s.files[run.workers[w].file].chunks[run.workers[w].chunk].id].state != Running
    ensures forall k | k in run.tasks && run.tasks[k].state == Running :: run.tasks[k].worker != w
  {}

  lemma ResumeInv(s: Session, r: nat, w: nat)
    requires ActiveTransfer(s, r) && w < |s.runs[r].workers| && s.runs[r].workers[w].Awaiting?
    ensures Inv(ResumeStep(s, r, s.runs[r], w))
  {
    hide WorkersOk, Covered, FinishedOk, TasksOk, IsAborted, AllCompleted, SumUploaded;
    ActiveFacts(s, r);
    var run := s.runs[r];
    var Awaiting(f, c) := run.workers[w];
    HolderFacts(s, run, w);
    var id := s.files[f].chunks[c].id;
    var t := ResumeStep(s, r, run, w);
    if run.tasks[id].state != Running {
      SettledCreator(s, run, w);
      if run.tasks[id].state == Rejected {
        FailInv(s, r, run, w, f);
      } else {
        var next := t.runs[r];
        assert WorkerMove(s, t, run, next, w, f);
        assert t.files[f].chunks[..c + 1] == s.files[f].chunks[..c] + [t.files[f].chunks[c]];
        OthersTasks(s, t, run, next, w, f);
        SameFinished(s, t, run, next, w);
        WorkerStep(s, t, r, next, w, f);
      }
    }
  }

  // ---- the transfer and registration steps

  lemma ProgressInv(s: Session, r: nat, id: nat, bytes: nat)
    requires ActiveTransfer(s, r)
    ensures Inv(ProgressStep(s, s.runs[r], id, bytes))
  {
    ActiveFacts(s, r);
    var run := s.runs[r];
    var t := ProgressStep(s, run, id, bytes);
    if id in run.tasks && run.tasks[id].state == Running {
      RunningUploads(s, r, id);
      SameButBytesTransfer(s, t, run);
      hide Transfer, StartedOnce, SumUploaded;
      assert s.runs == s.runs[r := run];
      RunStep(s, t, r, run);
    }
  }

  /** A late report changes what a file reports, and nothing the invariant speaks of. */
  lemma LateInv(s: Session, r: nat, id: nat, bytes: nat)
    requires Inv(s) && r in s.runs
    ensures Inv(LateStep(s, s.runs[r], id, bytes))
  {
    var t := LateStep(s, s.runs[r], id, bytes);
    if s.uploadPromise.Some? {
      var run := s.runs[s.uploadPromise.value];
      if run.phase == Transferring {
        SameButBytesTransfer(s, t, run);
      }
    }
    hide Transfer;
  }

  lemma SameButBytesTransfer(s: Session, t: Session, run: Run)
    requires |t.files| == |s.files| && Transfer(s, run)
    requires forall f | 0 <= f < |s.files| ::
               t.files[f].status == s.files[f].status && t.files[f].chunks == s.files[f].chunks
    ensures Transfer(t, run)
  {
    assert forall w | 0 <= w < |run.workers| :: WorkerOk(s, run, run.workers[w]) ==> WorkerOk(t, run, run.workers[w]);
  }

  lemma SettledTransfer(s: Session, t: Session, run: Run, next: Run, id: nat)
    requires Transfer(s, run) && t.files == s.files && id in run.tasks
    requires id in next.tasks && next.tasks[id].state != Running
    requires next == run.(tasks := run.tasks[id := next.tasks[id]])
    ensures Transfer(t, next)
  {
    assert next.tasks.Keys == run.tasks.Keys;
    forall v | 0 <= v < |run.workers|
      ensures WorkerOk(t, next, next.workers[v])
    {
      assert WorkerOk(s, run, run.workers[v]);
    }
  }

  lemma SettleInv(s: Session, r: nat, id: nat, success: bool, sent: bool)
    requires ActiveTransfer(s, r)
    ensures Inv(SettleStep(s, r, s.runs[r], id, success, sent))
  {
    ActiveFacts(s, r);
    var run := s.runs[r];
    var t := SettleStep(s, r, run, id, success, sent);
    if id in run.tasks && run.tasks[id].state == Running {
      var next := t.runs[r];
      SettledTransfer(s, t, run, next, id);
      hide Transfer;
      assert next.tasks.Keys == run.tasks.Keys;
      RunStep(s, t, r, next);
    }
  }

  lemma JoinInv(s: Session, r: nat)
    requires ActiveTransfer(s, r)
    ensures Inv(JoinStep(s, r, s.runs[r]))
  {
    hide WorkersOk, TasksOk, StartedOnce;
    ActiveFacts(s, r);
    var run := s.runs[r];
    var t := JoinStep(s, r, run);
    if forall w | 0 <= w < |run.workers| :: run.workers[w] == Finished {
      if !run.failure {
        assert |run.workers| > 0 ==> run.workers[0] == Finished;
        assert run.index == |s.files|;
      }
      RunStep(s, t, r, t.runs[r]);
    }
  }

  lemma RegisteredInv(s: Session, r: nat, e: Event)
    requires Inv(s) && InPhase(s, r, Registering) && (e.Registered? || e.RegisterFails?) && e.run == r
    ensures Inv(Step(s, e))
  {
    var t := Step(s, e);
    RunStep(s, t, r, t.runs[r]);
  }

  lemma CatchInv(s: Session, r: nat)
    requires Inv(s) && InPhase(s, r, Threw)
    ensures Inv(CatchStep(s, r, s.runs[r]))
  {
    var t := CatchStep(s, r, s.runs[r]);
    RunStep(s, t, r, t.runs[r]);
  }

  /** Once the active run settles, none is active. */
  lemma SettledRuns(s: Session, t: Session, r: nat)
    requires RunsOk(s) && OneActive(s) && r in s.runs && s.runs[r].phase != Settled
    requires t.controllers == s.controllers && t.uploadPromise.None?
    requires t.runs == s.runs[r := s.runs[r].(phase := Settled)]
    ensures RunsOk(t) && OneActive(t)
  {
    assert t.runs.Keys == s.runs.Keys;
    assert |t.runs| == |s.runs|;
  }

  lemma FinallyInv(s: Session, r: nat)
    requires Inv(s) && (InPhase(s, r, Returned) || InPhase(s, r, Caught))
    ensures Inv(Step(s, Finally(r)))
  {
    SettledRuns(s, Step(s, Finally(r)), r);
    hide RunsOk, OneActive, ActiveOk, FileSound;
  }

  lemma StepInv(s: Session, e: Event)
    requires Inv(s)
    ensures Inv(Step(s, e))
  {
    hide Inv, LoopStep, ChunkStep, ResumeStep, ProgressStep, LateStep, SettleStep, JoinStep, RegisteredStep, CatchStep,
         Started, Cancelled, Aborted;
    match e {
      case Start(_, _, _, _) => StartInv(s, e);
      case Cancel => CancelInv(s, e);
      case SignalAborts => CancelInv(s, e);
      case Loop(r, w) => if HasWorker(s, r, w) && s.runs[r].workers[w].Looping? { LoopInv(s, r, w); }
      case NextChunk(r, w) => if HasWorker(s, r, w) && s.runs[r].workers[w].AtChunk? { ChunkInv(s, r, w); }
      case Resume(r, w) => if HasWorker(s, r, w) && s.runs[r].workers[w].Awaiting? { ResumeInv(s, r, w); }
      case Progress(r, id, bytes) => if InPhase(s, r, Transferring) { ProgressInv(s, r, id, bytes); }
      case LateReport(r, id, bytes) => if r in s.runs { LateInv(s, r, id, bytes); }
      case TaskSettles(r, id, ok, sent) => if InPhase(s, r, Transferring) { SettleInv(s, r, id, ok, sent); }
      case WorkersDone(r) => if InPhase(s, r, Transferring) { JoinInv(s, r); }
      case Registered(r, _, _, _, _) => if InPhase(s, r, Registering) { RegisteredInv(s, r, e); }
      case RegisterFails(r) => if InPhase(s, r, Registering) { RegisteredInv(s, r, e); }
      case CatchError(r) => if InPhase(s, r, Threw) { CatchInv(s, r); }
      case Finally(r) => if InPhase(s, r, Returned) || InPhase(s, r, Caught) { FinallyInv(s, r); }
    }
  }

  lemma {:induction false} RunInv(s: Session, events: seq<Event>)
    requires Inv(s)
    ensures Inv(Execute(s, events))
    decreases |events|
  {
    if events != [] {
      StepInv(s, events[0]);
      RunInv(Step(s, events[0]), events[1..]);
    }
  }

  // ---- what the status calls report

  /** `progress.uploadedBytes`, summed over the file entries of the tree. */
  function UploadedBytes(s: Session, items: seq<nat>): nat
    requires forall i | 0 <= i < |items| :: items[i] < |s.files|
  {
    if items == [] then 0 else s.files[items[0]].uploadedBytes + UploadedBytes(s, items[1..])
  }

  /** `progress.uploadedObjects` */
  function UploadedObjects(s: Session, items: seq<nat>): nat
    requires forall i | 0 <= i < |items| :: items[i] < |s.files|
  {
    if items == [] then 0
    else (if s.files[items[0]].status == Completed then 1 else 0) + UploadedObjects(s, items[1..])
  }

  /** `summary.totalBytes`, computed once by the import. */
  function TotalBytes(s: Session, items: seq<nat>): nat
    requires forall i | 0 <= i < |items| :: items[i] < |s.files|
  {
    if items == [] then 0 else s.files[items[0]].size + TotalBytes(s, items[1..])
  }

  predicate SameLengths(a: seq<Chunk>, b: seq<Chunk>) {
    |a| == |b| && forall c | 0 <= c < |a| :: a[c].length == b[c].length
  }

  predicate SameShape(s: Session, t: Session) {
    && s.items == t.items && s.roots == t.roots && |s.files| == |t.files|
    && (forall f | 0 <= f < |s.files| ::
           s.files[f].size == t.files[f].size && SameLengths(s.files[f].chunks, t.files[f].chunks))
  }

  lemma WorkerShape(s: Session, r: nat, w: nat)
    requires HasWorker(s, r, w)
    ensures s.runs[r].workers[w].Looping? ==> SameShape(s, LoopStep(s, r, s.runs[r], w))
    ensures s.runs[r].workers[w].AtChunk? ==> SameShape(s, ChunkStep(s, r, s.runs[r], w))
  {}

  lemma ResumeShape(s: Session, r: nat, w: nat)
    requires HasWorker(s, r, w) && s.runs[r].workers[w].Awaiting?
    ensures SameShape(s, ResumeStep(s, r, s.runs[r], w))
  {}

  lemma StepShape(s: Session, e: Event)
    ensures SameShape(s, Step(s, e))
  {
    hide LoopStep, ChunkStep, ResumeStep;
    match e {
      case Loop(r, w) => if HasWorker(s, r, w) { WorkerShape(s, r, w); }
      case NextChunk(r, w) => if HasWorker(s, r, w) { WorkerShape(s, r, w); }
      case Resume(r, w) => if HasWorker(s, r, w) && s.runs[r].workers[w].Awaiting? { ResumeShape(s, r, w); }
      case _ =>
    }
  }

  lemma {:induction false} RunShape(s: Session, events: seq<Event>)
    ensures SameShape(s, Execute(s, events))
    decreases |events|
  {
    if events != [] {
      StepShape(s, events[0]);
      RunShape(Step(s, events[0]), events[1..]);
    }
  }

  lemma {:induction false} SameTotal(s: Session, t: Session, items: seq<nat>)
    requires SameShape(s, t) && forall i | 0 <= i < |items| :: items[i] < |s.files|
    ensures TotalBytes(s, items) == TotalBytes(t, items)
  {
    if items != [] { SameTotal(s, t, items[1..]); }
  }

  lemma {:induction false} CompletedTotals(s: Session, items: seq<nat>)
    requires AllCompleted(s) && BytesExact(s) && forall i | 0 <= i < |items| :: items[i] < |s.files|
    ensures UploadedBytes(s, items) == TotalBytes(s, items) && UploadedObjects(s, items) == |items|
  {
    if items != [] { CompletedTotals(s, items[1..]); }
  }

  // ---- safety of every run

  /** Two uploads never run at once, and one run hands each chunk id to `uploadMissingChunk` at most once. */
  lemma NoDoubleUpload(s: Session, events: seq<Event>)
    requires Initial(s)
    ensures var t := Execute(s, events);
            && (forall a, b | a in t.runs && b in t.runs && t.runs[a].phase != Settled && t.runs[b].phase != Settled ::
                   a == b)
            && (forall r, i, j | r in t.runs && 0 <= i < j < |t.runs[r].started| ::
                   t.runs[r].started[i] != t.runs[r].started[j])
  {
    InitInv(s);
    RunInv(s, events);
    var t := Execute(s, events);
    forall r, i, j | r in t.runs && 0 <= i < j < |t.runs[r].started|
      ensures t.runs[r].started[i] != t.runs[r].started[j]
    {
      assert StartedOnce(t.runs[r]);
    }
  }

  /** A running task's file is in a worker's hands. */
  lemma RunningUploads(s: Session, r: nat, id: nat)
    requires ActiveTransfer(s, r) && id in s.runs[r].tasks && s.runs[r].tasks[id].state == Running
    ensures s.runs[r].tasks[id].file < |s.files| && s.files[s.runs[r].tasks[id].file].status == Uploading
  {
    ActiveFacts(s, r);
    hide Inv, Covered, FinishedOk;
    assert WorkerOk(s, s.runs[r], s.runs[r].workers[s.runs[r].tasks[id].worker]);
  }

  lemma HeldUploads(s: Session, r: nat, w: nat)
    requires ActiveTransfer(s, r) && HasWorker(s, r, w)
    requires (s.runs[r].workers[w].AtChunk? || s.runs[r].workers[w].Awaiting?)
    ensures s.runs[r].workers[w].file < |s.files| && s.files[s.runs[r].workers[w].file].status == Uploading
  {
    ActiveFacts(s, r);
    hide Inv, Covered, FinishedOk, TasksOk;
    assert WorkerOk(s, s.runs[r], s.runs[r].workers[w]);
  }

  /** The event is a late report for file `f`. */
  predicate Hits(s: Session, e: Event, f: nat) {
    && e.LateReport? && e.run in s.runs && e.id in s.runs[e.run].tasks
    && s.runs[e.run].tasks[e.id].state != Running && s.runs[e.run].tasks[e.id].file == f < |s.files|
  }

  /** A late report adds up when the chunks uploaded and its own bytes make the file's size. */
  predicate AddsUp(file: FileState, bytes: nat) { SumUploaded(file.chunks) + bytes == file.size }

  /** A file completed in `t` reports what it did, or its size when it was not completed in `s`. */
  predicate KeepsReport(s: Session, t: Session, f: nat) {
    && |t.files| == |s.files|
    && (f < |s.files| ==> t.files[f].size == s.files[f].size)
    && (f < |s.files| && t.files[f].status == Completed ==>
          t.files[f].uploadedBytes == if s.files[f].status == Completed then s.files[f].uploadedBytes
              else s.files[f].size)
  }

  lemma WorkerReport(s: Session, r: nat, w: nat, f: nat)
    requires HasWorker(s, r, w)
    ensures s.runs[r].workers[w].Looping? ==> KeepsReport(s, LoopStep(s, r, s.runs[r], w), f)
  {}

  /** A file that a worker completes was not completed before. */
  lemma HeldReport(s: Session, r: nat, w: nat, f: nat)
    requires HasWorker(s, r, w) && (s.runs[r].workers[w].AtChunk? || s.runs[r].workers[w].Awaiting?)
    requires s.runs[r].workers[w].file < |s.files| && s.files[s.runs[r].workers[w].file].status == Uploading
    ensures s.runs[r].workers[w].AtChunk? ==> KeepsReport(s, ChunkStep(s, r, s.runs[r], w), f)
    ensures s.runs[r].workers[w].Awaiting? ==> KeepsReport(s, ResumeStep(s, r, s.runs[r], w), f)
  {
    hide SumUploaded, IsAborted;
  }

  lemma ProgressReport(s: Session, r: nat, id: nat, bytes: nat, f: nat)
    requires ActiveTransfer(s, r)
    ensures KeepsReport(s, ProgressStep(s, s.runs[r], id, bytes), f)
  {
    if id in s.runs[r].tasks && s.runs[r].tasks[id].state == Running {
      RunningUploads(s, r, id);
    }
    hide Inv;
  }

  lemma ReportStep(s: Session, e: Event, f: nat)
    requires Inv(s) && !Hits(s, e, f)
    ensures KeepsReport(s, Step(s, e), f)
  {
    hide Inv, LoopStep, ChunkStep, ResumeStep, ProgressStep;
    match e {
      case Progress(r, id, bytes) =>
        if InPhase(s, r, Transferring) { ProgressReport(s, r, id, bytes, f); }
      case Resume(r, w) =>
        if HasWorker(s, r, w) && s.runs[r].workers[w].Awaiting? { HeldUploads(s, r, w); HeldReport(s, r, w, f); }
      case Loop(r, w) => if HasWorker(s, r, w) { WorkerReport(s, r, w, f); }
      case NextChunk(r, w) => if HasWorker(s, r, w) && s.runs[r].workers[w].AtChunk? {
        HeldUploads(s, r, w); HeldReport(s, r, w, f);
      }
      case _ =>
    }
  }

  lemma HitStep(s: Session, e: Event, f: nat)
    requires Hits(s, e, f)
    ensures Step(s, e) == WithFile(s, f, s.files[f].(uploadedBytes := SumUploaded(s.files[f].chunks) + e.bytes))
    ensures Exact(Step(s, e).files[f]) <==> AddsUp(s.files[f], e.bytes)
  {}

  /**
   * In every state whose completed files report their sizes, `ready` or not: a late report keeps it so exactly when
   * its file is not completed or the report adds up.
   */
  lemma LateReportIff(s: Session, e: Event)
    requires Inv(s) && BytesExact(s) && e.LateReport?
    ensures BytesExact(Step(s, e))
       <==> forall f: nat | Hits(s, e, f) && s.files[f].status == Completed :: AddsUp(s.files[f], e.bytes)
  {
    var t := Step(s, e);
    forall f: nat | f < |s.files|
      ensures |t.files| == |s.files| && t.files[f].status == s.files[f].status
      ensures s.files[f].status == Completed ==>
                (Exact(t.files[f]) <==> (Hits(s, e, f) ==> AddsUp(s.files[f], e.bytes)))
    {
      if Hits(s, e, f) { HitStep(s, e, f); }
    }
  }

  /**
   * After these events file `f` is completed, and the last report of it since then was a late one that did not add up.
   */
  predicate Upset(s: Session, events: seq<Event>, f: nat)
    decreases |events|
  {
    events != [] &&
      var before, e := events[..|events| - 1], events[|events| - 1];
      var t := Execute(s, before);
      && f < |t.files| && t.files[f].status == Completed
      && if Hits(t, e, f) then !AddsUp(t.files[f], e.bytes) else Upset(s, before, f)
  }

  lemma ExecuteLast(s: Session, events: seq<Event>)
    requires events != []
    ensures Execute(s, events) == Step(Execute(s, events[..|events| - 1]), events[|events| - 1])
  {
    var before, e := events[..|events| - 1], events[|events| - 1];
    hide Step;
    assert events == before + [e];
    ExecuteAppend(s, before, [e]);
    ExecuteOne(Execute(s, before), e);
  }

  /** In every run a completed file reports its size exactly when no late report since then has upset it. */
  lemma {:induction false} ExactIff(s: Session, events: seq<Event>, f: nat)
    requires Inv(s) && BytesExact(s) && f < |s.files|
    ensures var t := Execute(s, events);
            |t.files| == |s.files| && (t.files[f].status == Completed ==> (Exact(t.files[f]) <==> !Upset(s, events, f)))
    decreases |events|
  {
    hide Inv, Step, AddsUp, Hits;
    RunShape(s, events);
    if events != [] {
      var before, e := events[..|events| - 1], events[|events| - 1];
      var t := Execute(s, before);
      ExactIff(s, before, f);
      RunInv(s, before);
      ExecuteLast(s, events);
      hide Execute;
      if Hits(t, e, f) {
        HitStep(t, e, f);
      } else {
        ReportStep(t, e, f);
      }
    }
  }

  // Where the chunks of a file make up its size, as the import cuts them, a completed file never reports less.

  function SumLengths(chunks: seq<Chunk>): nat {
    if chunks == [] then 0 else chunks[0].length + SumLengths(chunks[1..])
  }

  /** Files that need no upload have no chunks. */
  predicate ChunksFill(s: Session) {
    forall f | 0 <= f < |s.files| && s.files[f].chunks != [] :: SumLengths(s.files[f].chunks) == s.files[f].size
  }

  /** Every task is for a chunk of its file. */
  ghost predicate TasksOwned(s: Session) {
    forall r, id | r in s.runs && id in s.runs[r].tasks ::
        s.runs[r].tasks[id].file < |s.files| && s.files[s.runs[r].tasks[id].file].chunks != []
  }

  lemma {:induction false} LengthsSum(a: seq<Chunk>, b: seq<Chunk>)
    requires SameLengths(a, b)
    ensures SumLengths(a) == SumLengths(b)
  {
    if a != [] { LengthsSum(a[1..], b[1..]); }
  }

  lemma {:induction false} AllUploadedSum(chunks: seq<Chunk>)
    requires AllUploaded(chunks)
    ensures SumUploaded(chunks) == SumLengths(chunks)
  {
    if chunks != [] { AllUploadedSum(chunks[1..]); }
  }

  lemma FillStep(s: Session, e: Event)
    requires ChunksFill(s)
    ensures ChunksFill(Step(s, e))
  {
    StepShape(s, e);
    forall f | 0 <= f < |s.files|
      ensures SumLengths(Step(s, e).files[f].chunks) == SumLengths(s.files[f].chunks)
    {
      LengthsSum(s.files[f].chunks, Step(s, e).files[f].chunks);
    }
  }

  /** Each task of `t` is one of `s`, but for its state, or for a chunk of its file. */
  ghost predicate TasksFrom(s: Session, t: Session) {
    forall r, id | r in t.runs && id in t.runs[r].tasks ::
      var f := t.runs[r].tasks[id].file;
      || (r in s.runs && id in s.runs[r].tasks && s.runs[r].tasks[id].file == f)
      || (f < |s.files| && s.files[f].chunks != [])
  }

  ghost predicate RunTasksFrom(s: Session, r: nat, next: Run)
    requires r in s.runs
  {
    forall id | id in next.tasks ::
      var f := next.tasks[id].file;
      (id in s.runs[r].tasks && s.runs[r].tasks[id].file == f) || (f < |s.files| && s.files[f].chunks != [])
  }

  lemma OneRunTasks(s: Session, t: Session, r: nat)
    requires r in s.runs && r in t.runs && t.runs == s.runs[r := t.runs[r]] && RunTasksFrom(s, r, t.runs[r])
    ensures TasksFrom(s, t)
  {}

  lemma LoopTasks(s: Session, r: nat, w: nat)
    requires HasWorker(s, r, w) && s.runs[r].workers[w].Looping?
    ensures TasksFrom(s, LoopStep(s, r, s.runs[r], w))
  {
    hide TasksFrom, IsAborted;
    OneRunTasks(s, LoopStep(s, r, s.runs[r], w), r);
  }

  lemma ChunkTasks(s: Session, r: nat, w: nat)
    requires HasWorker(s, r, w) && s.runs[r].workers[w].AtChunk?
    ensures TasksFrom(s, ChunkStep(s, r, s.runs[r], w))
  {
    hide TasksFrom, IsAborted;
    var t := ChunkStep(s, r, s.runs[r], w);
    assert t.runs == s.runs[r := t.runs[r]];
    OneRunTasks(s, t, r);
  }

  lemma ResumeTasks(s: Session, r: nat, w: nat)
    requires HasWorker(s, r, w) && s.runs[r].workers[w].Awaiting?
    ensures TasksFrom(s, ResumeStep(s, r, s.runs[r], w))
  {
    hide TasksFrom, SumUploaded;
    var t := ResumeStep(s, r, s.runs[r], w);
    assert t.runs == s.runs[r := t.runs[r]];
    OneRunTasks(s, t, r);
  }

  lemma SettleTasks(s: Session, r: nat, id: nat, success: bool, sent: bool)
    requires r in s.runs
    ensures TasksFrom(s, SettleStep(s, r, s.runs[r], id, success, sent))
  {
    hide TasksFrom;
    var t := SettleStep(s, r, s.runs[r], id, success, sent);
    assert t.runs == s.runs[r := t.runs[r]];
    OneRunTasks(s, t, r);
  }

  lemma StepTasks(s: Session, e: Event)
    ensures TasksFrom(s, Step(s, e))
  {
    hide LoopStep, ChunkStep, ResumeStep, SettleStep, IsAborted, SumUploaded, AllConfirmed;
    match e {
      case Loop(r, w) => if HasWorker(s, r, w) && s.runs[r].workers[w].Looping? { LoopTasks(s, r, w); }
      case NextChunk(r, w) => if HasWorker(s, r, w) && s.runs[r].workers[w].AtChunk? { ChunkTasks(s, r, w); }
      case Resume(r, w) => if HasWorker(s, r, w) && s.runs[r].workers[w].Awaiting? { ResumeTasks(s, r, w); }
      case TaskSettles(r, id, ok, sent) => if InPhase(s, r, Transferring) { SettleTasks(s, r, id, ok, sent); }
      case _ =>
    }
  }

  lemma OwnedStep(s: Session, e: Event)
    requires TasksOwned(s)
    ensures TasksOwned(Step(s, e))
  {
    hide Step;
    StepShape(s, e);
    StepTasks(s, e);
  }

  /** A completed file reports at least its size. */
  predicate AtLeast(s: Session) {
    forall f | 0 <= f < |s.files| && s.files[f].status == Completed :: s.files[f].uploadedBytes >= s.files[f].size
  }

  lemma AtLeastStep(s: Session, e: Event)
    requires Inv(s) && ChunksFill(s) && TasksOwned(s) && AtLeast(s)
    ensures AtLeast(Step(s, e))
  {
    var t := Step(s, e);
    StepShape(s, e);
    assert FilesSound(s);
    forall f: nat | f < |s.files| && t.files[f].status == Completed
      ensures t.files[f].uploadedBytes >= t.files[f].size
    {
      if Hits(s, e, f) {
        HitStep(s, e, f);
        assert FileSound(s.files[f]);
        AllUploadedSum(s.files[f].chunks);
      } else {
        ReportStep(s, e, f);
      }
    }
  }

  lemma {:induction false} RunAtLeast(s: Session, events: seq<Event>)
    requires Inv(s) && ChunksFill(s) && TasksOwned(s) && AtLeast(s)
    ensures AtLeast(Execute(s, events))
    decreases |events|
  {
    hide Inv, ChunksFill, TasksOwned, AtLeast, Step;
    if events != [] {
      StepInv(s, events[0]);
      FillStep(s, events[0]);
      OwnedStep(s, events[0]);
      AtLeastStep(s, events[0]);
      RunAtLeast(Step(s, events[0]), events[1..]);
    }
  }

  lemma {:induction false} TotalIffExact(s: Session, items: seq<nat>)
    requires forall i | 0 <= i < |items| ::
               items[i] < |s.files| && s.files[items[i]].uploadedBytes >= s.files[items[i]].size
    ensures UploadedBytes(s, items) >= TotalBytes(s, items)
    ensures UploadedBytes(s, items) == TotalBytes(s, items) <==> forall i | 0 <= i < |items| :: Exact(s.files[items[i]])
  {
    if items != [] {
      TotalIffExact(s, items[1..]);
      assert forall i | 0 <= i < |items| :: i == 0 || items[i] == items[1..][i - 1];
      assert forall i | 0 <= i < |items[1..]| :: items[1..][i] == items[i + 1];
    }
  }

  /**
   * At `ready` every chunk is marked uploaded, every file entry is counted, and each file reports its size exactly
   * when no late report has upset it since it was completed, before `ready` or after. The sum reported is then the
   * summary taken at import, and where chunks make up their files it is so only then.
   */
  lemma ReadyIsComplete(s: Session, events: seq<Event>)
    requires Initial(s) && Execute(s, events).objectStatus == Ready
    ensures var t := Execute(s, events);
            && AllCompleted(t)
            && (forall f | 0 <= f < |t.files| :: AllUploaded(t.files[f].chunks))
            && t.items == s.items && (forall i | 0 <= i < |s.items| :: s.items[i] < |s.files| && s.items[i] < |t.files|)
            && UploadedObjects(t, t.items) == |s.items|
            && (forall f: nat | f < |t.files| :: Exact(t.files[f]) <==> !Upset(s, events, f))
            && (NoneUpset(s, events) ==> UploadedBytes(t, t.items) == TotalBytes(s, s.items))
            && (ChunksFill(s) && UploadedBytes(t, t.items) == TotalBytes(s, s.items) ==> NoneUpset(s, events))
  {
    InitInv(s);
    RunInv(s, events);
    RunShape(s, events);
    var t := Execute(s, events);
    ReadyItems(t);
    if ChunksFill(s) { RunAtLeast(s, events); }
    hide Initial, Execute, Upset, ChunksFill, Inv, UploadedBytes, TotalBytes;
    AllCounted(t, t.items);
    forall f: nat | f < |t.files|
      ensures Exact(t.files[f]) <==> !Upset(s, events, f)
    {
      ExactIff(s, events, f);
    }
    if NoneUpset(s, events) { ExactTotal(t, t.items); }
    if ChunksFill(s) { TotalIffExact(t, t.items); }
    SameTotal(s, t, s.items);
  }

  /** No file entry is upset after these events. */
  predicate NoneUpset(s: Session, events: seq<Event>) { forall i | 0 <= i < |s.items| :: !Upset(s, events, s.items[i]) }

  lemma {:induction false} ExactTotal(s: Session, items: seq<nat>)
    requires forall i | 0 <= i < |items| :: items[i] < |s.files| && Exact(s.files[items[i]])
    ensures UploadedBytes(s, items) == TotalBytes(s, items)
  {
    if items != [] { ExactTotal(s, items[1..]); }
  }

  lemma ReadyItems(s: Session)
    requires Inv(s) && s.objectStatus == Ready
    ensures AllCompleted(s) && forall f | 0 <= f < |s.files| :: AllUploaded(s.files[f].chunks)
  {}

  lemma {:induction false} AllCounted(s: Session, items: seq<nat>)
    requires AllCompleted(s) && forall i | 0 <= i < |items| :: items[i] < |s.files|
    ensures UploadedObjects(s, items) == |items|
  {
    if items != [] { AllCounted(s, items[1..]); }
  }

  /**
   * The event is a finalize answer that confirms every root, and the binding asked for, to a run that was not aborted.
   */
  ghost predicate Confirms(s: Session, e: Event) {
    && e.Registered? && e.ok && e.ready && (s.bind ==> e.bound)
    && |e.confirmed| == s.roots && (forall i | 0 <= i < |e.confirmed| :: e.confirmed[i])
    && InPhase(s, e.run, Registering) && s.runs[e.run].controller !in s.aborted
  }

  lemma ReadyStepConfirms(s: Session, e: Event)
    requires s.objectStatus != Ready
    ensures Step(s, e).objectStatus == Ready <==> Confirms(s, e)
    ensures Confirms(s, e) ==> Step(s, e).readyBy == Some(e.run)
  {}

  /** A session is `ready` exactly when some event of its run was a finalize answer that confirmed everything. */
  lemma {:induction false} ReadyOnlyWhenConfirmed(s: Session, events: seq<Event>)
    requires Inv(s) && s.objectStatus != Ready
    ensures Execute(s, events).objectStatus == Ready
       <==> exists k :: 0 <= k < |events| && Confirms(Execute(s, events[..k]), events[k])
    decreases |events|
  {
    hide Step, Inv, Confirms;
    if events != [] {
      var t, rest := Step(s, events[0]), events[1..];
      assert events[..0] == [];
      ReadyStepConfirms(s, events[0]);
      StepInv(s, events[0]);
      if t.objectStatus == Ready {
        ReadyStays(t, rest);
        assert Confirms(Execute(s, events[..0]), events[0]);
      } else {
        ReadyOnlyWhenConfirmed(t, rest);
        forall k | 0 <= k < |rest|
          ensures Execute(t, rest[..k]) == Execute(s, events[..k + 1]) && rest[k] == events[k + 1]
        {
          assert events[..k + 1][1..] == rest[..k];
        }
        if k :| 0 <= k < |rest| && Confirms(Execute(t, rest[..k]), rest[k]) {
          assert Confirms(Execute(s, events[..k + 1]), events[k + 1]);
        }
        if k :| 0 <= k < |events| && Confirms(Execute(s, events[..k]), events[k]) {
          assert k > 0;
          assert Confirms(Execute(t, rest[..k - 1]), rest[k - 1]);
        }
      }
    }
  }

  /** `ready` is never left. */
  lemma {:induction false} ReadyStays(s: Session, events: seq<Event>)
    requires Inv(s) && s.objectStatus == Ready
    ensures Execute(s, events).objectStatus == Ready && Execute(s, events).readyBy == s.readyBy
    decreases |events|
  {
    if events != [] {
      StepInv(s, events[0]);
      ReadyStep(s, events[0]);
      ReadyStays(Step(s, events[0]), events[1..]);
    }
  }

  lemma ReadyStep(s: Session, e: Event)
    requires Inv(s) && s.objectStatus == Ready
    ensures Step(s, e).objectStatus == Ready && Step(s, e).readyBy == s.readyBy
  {
    assert s.uploadPromise.Some? ==> s.runs[s.uploadPromise.value].phase == Returned;
  }

  /** A run whose signal was aborted never sets `ready`, whatever follows. */
  lemma {:induction false} CancelledNeverReady(s: Session, r: nat, events: seq<Event>)
    requires Inv(s) && r in s.runs && s.runs[r].controller in s.aborted && s.readyBy != Some(r)
    ensures Execute(s, events).readyBy != Some(r)
    decreases |events|
  {
    if events != [] {
      StepInv(s, events[0]);
      AbortedStep(s, r, events[0]);
      CancelledNeverReady(Step(s, events[0]), r, events[1..]);
    }
  }

  lemma AbortedStep(s: Session, r: nat, e: Event)
    requires Inv(s) && r in s.runs && s.runs[r].controller in s.aborted && s.readyBy != Some(r)
    ensures var t := Step(s, e);
            r in t.runs && t.runs[r].controller in t.aborted && t.readyBy != Some(r)
  {
    assert FreshRun(s) !in s.runs;
    KeepsController(s, r, e);
    SetsReady(s, r, e);
  }

  ghost predicate Keeps(s: Session, r: nat, t: Session) {
    r in t.runs && (r in s.runs ==> t.runs[r].controller == s.runs[r].controller) && s.aborted <= t.aborted
  }

  lemma WorkerKeeps(s: Session, r: nat, k: nat, w: nat)
    requires r in s.runs && HasWorker(s, k, w)
    ensures s.runs[k].workers[w].Looping? ==> Keeps(s, r, LoopStep(s, k, s.runs[k], w))
    ensures s.runs[k].workers[w].AtChunk? ==> Keeps(s, r, ChunkStep(s, k, s.runs[k], w))
    ensures s.runs[k].workers[w].Awaiting? ==> Keeps(s, r, ResumeStep(s, k, s.runs[k], w))
  {}

  lemma KeepsController(s: Session, r: nat, e: Event)
    requires r in s.runs && FreshRun(s) !in s.runs
    ensures Keeps(s, r, Step(s, e))
  {
    if (e.Loop? || e.NextChunk? || e.Resume?) && HasWorker(s, e.run, e.worker) {
      hide LoopStep, ChunkStep, ResumeStep;
      WorkerKeeps(s, r, e.run, e.worker);
    }
  }

  lemma SetsReady(s: Session, r: nat, e: Event)
    ensures var t := Step(s, e);
            t.readyBy == s.readyBy
                || (InPhase(s, e.run, Registering) && s.runs[e.run].controller !in s.aborted
                    && t.readyBy == Some(e.run))
  {}

  /** Cancelling while a run is active aborts exactly that run's signal. */
  lemma CancelAbortsActive(s: Session)
    requires Inv(s) && s.objectStatus != Ready && s.uploadPromise.Some?
    ensures var t := Step(s, Cancel);
            t.runs[s.uploadPromise.value].controller in t.aborted && t.readyBy.None?
  {}

  // ---- ready can always be reached

  lemma ExecuteOne(s: Session, e: Event)
    ensures Execute(s, [e]) == Step(s, e)
  {
    assert [e][1..] == [];
  }

  lemma ExecuteTwo(s: Session, a: Event, b: Event)
    ensures Execute(s, [a, b]) == Step(Step(s, a), b)
  {
    hide Step;
    assert [a, b] == [a] + [b];
    ExecuteAppend(s, [a], [b]);
    ExecuteOne(s, a);
    ExecuteOne(Step(s, a), b);
  }

  lemma {:induction false} ExecuteAppend(s: Session, a: seq<Event>, b: seq<Event>)
    ensures Execute(s, a + b) == Execute(Execute(s, a), b)
    decreases |a|
  {
    hide Step;
    if a == [] {
      assert a + b == b;
    } else {
      assert (a + b)[1..] == a[1..] + b;
      ExecuteAppend(Step(s, a[0]), a[1..], b);
    }
  }

  // An aborted run comes to its end: each worker that is not finished has a step that brings it nearer to it.

  function Distance(worker: Worker): nat {
    match worker
    case Finished => 0
    case Looping => 1
    case AtChunk(_, _) => 2
    case Awaiting(_, _) => 3
  }

  function Distances(workers: seq<Worker>): nat {
    if workers == [] then 0 else Distance(workers[0]) + Distances(workers[1..])
  }

  lemma {:induction false} DistancesUpdate(workers: seq<Worker>, w: nat, worker: Worker)
    requires w < |workers|
    ensures Distances(workers[w := worker]) + Distance(workers[w]) == Distances(workers) + Distance(worker)
  {
    if w == 0 {
      assert workers[w := worker][1..] == workers[1..];
    } else {
      DistancesUpdate(workers[1..], w - 1, worker);
      assert workers[w := worker][1..] == workers[1..][w - 1 := worker];
    }
  }

  function RunDistance(run: Run): nat { Distances(run.workers) + if run.failure then 0 else 1 }

  ghost predicate Dying(s: Session, r: nat) { ActiveTransfer(s, r) && IsAborted(s) }

  /** The step of a worker in an aborted run leads to its loop, or from there to its end. */
  ghost predicate Nearer(s: Session, t: Session, r: nat, w: nat) {
    && HasWorker(s, r, w) && r in t.runs && t.runs[r].phase == Transferring && IsAborted(t)
    && w < |t.runs[r].workers| && t.runs[r].workers == s.runs[r].workers[w := t.runs[r].workers[w]]
    && (s.runs[r].failure ==> t.runs[r].failure)
    && Distance(t.runs[r].workers[w]) + (if t.runs[r].failure then 0 else 1)
       < Distance(s.runs[r].workers[w]) + (if s.runs[r].failure then 0 else 1)
  }

  lemma LoopNearer(s: Session, r: nat, w: nat)
    requires Dying(s, r) && HasWorker(s, r, w) && s.runs[r].workers[w].Looping?
    ensures Nearer(s, Step(s, Loop(r, w)), r, w)
  {
    hide Inv;
  }

  lemma ChunkNearer(s: Session, r: nat, w: nat)
    requires Dying(s, r) && HasWorker(s, r, w) && s.runs[r].workers[w].AtChunk?
    ensures Nearer(s, Step(s, NextChunk(r, w)), r, w)
  {
    ActiveFacts(s, r);
    hide Inv, Covered, FinishedOk, TasksOk;
    assert WorkerOk(s, s.runs[r], s.runs[r].workers[w]);
  }

  /** An awaited task fails, if it is still running. */
  lemma TaskFails(s: Session, r: nat, id: nat)
    requires InPhase(s, r, Transferring) && id in s.runs[r].tasks && IsAborted(s)
    ensures var t := Step(s, TaskSettles(r, id, false, false));
            && InPhase(t, r, Transferring) && t.files == s.files && IsAborted(t)
            && t.runs[r].workers == s.runs[r].workers && t.runs[r].failure == s.runs[r].failure
            && id in t.runs[r].tasks && t.runs[r].tasks[id].state != Running
  {}

  lemma ResumeNearer(s: Session, r: nat, w: nat)
    requires HasWorker(s, r, w) && s.runs[r].workers[w].Awaiting? && IsAborted(s)
    requires var Awaiting(f, c) := s.runs[r].workers[w];
             && f < |s.files| && c < |s.files[f].chunks|
             && s.files[f].chunks[c].id in s.runs[r].tasks && s.runs[r].tasks[s.files[f].chunks[c].id].state != Running
    ensures Nearer(s, Step(s, Resume(r, w)), r, w)
  {}

  /** Then the worker resumes. */
  lemma AwaitNearer(s: Session, r: nat, w: nat) returns (settle: Event)
    requires Dying(s, r) && HasWorker(s, r, w) && s.runs[r].workers[w].Awaiting?
    ensures Nearer(s, Step(Step(s, settle), Resume(r, w)), r, w)
  {
    ActiveFacts(s, r);
    hide Inv, Covered, FinishedOk, TasksOk, Step;
    var worker := s.runs[r].workers[w];
    assert WorkerOk(s, s.runs[r], worker);
    var id := s.files[worker.file].chunks[worker.chunk].id;
    settle := TaskSettles(r, id, false, false);
    TaskFails(s, r, id);
    ResumeNearer(Step(s, settle), r, w);
  }

  lemma WorkerNearer(s: Session, r: nat, w: nat) returns (events: seq<Event>)
    requires Dying(s, r) && HasWorker(s, r, w) && s.runs[r].workers[w] != Finished
    ensures Nearer(s, Execute(s, events), r, w)
  {
    hide Nearer, Dying, Step, Execute;
    match s.runs[r].workers[w] {
      case Looping =>
        LoopNearer(s, r, w);
        events := [Loop(r, w)];
        ExecuteOne(s, Loop(r, w));
      case AtChunk(_, _) =>
        ChunkNearer(s, r, w);
        events := [NextChunk(r, w)];
        ExecuteOne(s, NextChunk(r, w));
      case Awaiting(_, _) =>
        var settle := AwaitNearer(s, r, w);
        events := [settle, Resume(r, w)];
        ExecuteTwo(s, settle, Resume(r, w));
    }
  }

  lemma {:induction false} WorkersEnd(s: Session, r: nat) returns (events: seq<Event>)
    requires Dying(s, r)
    ensures var t := Execute(s, events);
            Dying(t, r) && forall w | 0 <= w < |t.runs[r].workers| :: t.runs[r].workers[w] == Finished
    decreases RunDistance(s.runs[r])
  {
    hide Inv, Step, Execute;
    if w: nat :| w < |s.runs[r].workers| && s.runs[r].workers[w] != Finished {
      var first := WorkerNearer(s, r, w);
      var t := Execute(s, first);
      RunInv(s, first);
      DistancesUpdate(s.runs[r].workers, w, t.runs[r].workers[w]);
      var rest := WorkersEnd(t, r);
      ExecuteAppend(s, first, rest);
      events := first + rest;
    } else {
      events := [];
      ExecuteNothing(s);
    }
  }

  lemma ExecuteNothing(s: Session)
    ensures Execute(s, []) == s
  {}

  /** Nothing is being uploaded, and `ready` was not reached. */
  predicate Idle(s: Session) { s.uploadPromise.None? && s.objectStatus != Ready }

  lemma ThrewIdle(s: Session, r: nat)
    requires InPhase(s, r, Threw)
    ensures Idle(Execute(s, [CatchError(r), Finally(r)]))
  {
    ExecuteTwo(s, CatchError(r), Finally(r));
  }

  lemma JoinThrows(s: Session, r: nat)
    requires Dying(s, r) && forall w | 0 <= w < |s.runs[r].workers| :: s.runs[r].workers[w] == Finished
    ensures InPhase(Step(s, WorkersDone(r)), r, Threw)
  {
    hide Inv;
  }

  /** From any state that is not `ready` the session can come to rest. */
  lemma ComesToRest(s: Session) returns (events: seq<Event>)
    requires Inv(s) && s.objectStatus != Ready
    ensures Idle(Execute(s, events))
  {
    if s.uploadPromise.None? {
      events := [];
      ExecuteNothing(s);
    } else {
      var r := s.uploadPromise.value;
      assert r in s.runs && ActiveOk(s, s.runs[r]);
      hide Execute;
      match s.runs[r].phase {
        case Transferring => events := TransferRests(s, r);
        case Registering =>
          assert InPhase(Step(s, RegisterFails(r)), r, Threw);
          events := ThenThrewIdle(s, RegisterFails(r), r);
        case Threw =>
          ThrewIdle(s, r);
          events := [CatchError(r), Finally(r)];
        case Caught =>
          events := [Finally(r)];
          ExecuteOne(s, Finally(r));
        case _ =>
          assert false;
      }
    }
  }

  lemma ThenThrewIdle(s: Session, e: Event, r: nat) returns (events: seq<Event>)
    requires InPhase(Step(s, e), r, Threw)
    ensures Idle(Execute(s, events))
  {
    hide Step, Execute, Idle;
    ExecuteOne(s, e);
    ThrewIdle(Step(s, e), r);
    events := [e] + [CatchError(r), Finally(r)];
    ExecuteAppend(s, [e], [CatchError(r), Finally(r)]);
  }

  lemma AbortDying(s: Session, r: nat)
    requires ActiveTransfer(s, r)
    ensures Dying(Step(s, SignalAborts), r)
  {
    ActiveFacts(s, r);
    StepInv(s, SignalAborts);
    hide Inv;
  }

  lemma TransferRests(s: Session, r: nat) returns (events: seq<Event>)
    requires ActiveTransfer(s, r)
    ensures Idle(Execute(s, events))
  {
    hide Step, Execute, Idle, Inv;
    AbortDying(s, r);
    var t := Step(s, SignalAborts);
    ExecuteOne(s, SignalAborts);
    var middle := WorkersEnd(t, r);
    JoinThrows(Execute(t, middle), r);
    var last := ThenThrewIdle(Execute(t, middle), WorkersDone(r), r);
    ExecuteAppend(t, middle, last);
    ExecuteAppend(s, [SignalAborts], middle + last);
    events := [SignalAborts] + (middle + last);
  }

  // A run of one worker in which nothing goes wrong uploads every file.

  /**
   * The one worker of run `r` is at `worker`, nothing failed or was aborted, and no task is running or was rejected.
   */
  ghost predicate Smooth(s: Session, r: nat, worker: Worker) {
    && r in s.runs && s.controller == Some(s.runs[r].controller) && s.runs[r].controller !in s.aborted
    && s.runs[r].phase == Transferring && s.runs[r].workers == [worker] && !s.runs[r].failure
    && forall id | id in s.runs[r].tasks :: s.runs[r].tasks[id].state == Resolved
  }

  /** The chunk at the worker is uploaded, or found to be so. */
  lemma ChunkUploaded(s: Session, r: nat, f: nat, c: nat) returns (events: seq<Event>)
    requires Smooth(s, r, AtChunk(f, c)) && f < |s.files| && c < |s.files[f].chunks|
    ensures var t := Execute(s, events);
            && Smooth(t, r, AtChunk(f, c + 1)) && t.runs[r].index == s.runs[r].index
            && |t.files| == |s.files| && |t.files[f].chunks| == |s.files[f].chunks|
  {
    var chunk := s.files[f].chunks[c];
    hide Execute;
    if chunk.uploaded {
      events := [NextChunk(r, 0)];
      ExecuteOne(s, NextChunk(r, 0));
    } else {
      var t := Step(s, NextChunk(r, 0));
      assert t.runs[r].workers == [Awaiting(f, c)] && t.files == s.files;
      var u := Step(t, TaskSettles(r, chunk.id, true, true));
      TaskResolved(s, r, f, c, t, u);
      assert u.files[f].chunks[c] == chunk;
      var v := Step(u, Resume(r, 0));
      assert v.runs[r].workers == [AtChunk(f, c + 1)];
      events := [NextChunk(r, 0), TaskSettles(r, chunk.id, true, true)] + [Resume(r, 0)];
      ExecuteTwo(s, NextChunk(r, 0), TaskSettles(r, chunk.id, true, true));
      ExecuteOne(u, Resume(r, 0));
      ExecuteAppend(s, [NextChunk(r, 0), TaskSettles(r, chunk.id, true, true)], [Resume(r, 0)]);
    }
  }

  /** The worker awaits the chunk's task, new or already there. */
  lemma TaskAwaited(s: Session, r: nat, f: nat, c: nat)
    requires Smooth(s, r, AtChunk(f, c)) && f < |s.files| && c < |s.files[f].chunks| && !s.files[f].chunks[c].uploaded
    ensures var t := Step(s, NextChunk(r, 0));
            && r in t.runs && t.controller == s.controller && t.aborted == s.aborted && t.files == s.files
            && t.runs[r] == s.runs[r].(workers := [Awaiting(f, c)], tasks := t.runs[r].tasks,
                   started := t.runs[r].started)
            && s.files[f].chunks[c].id in t.runs[r].tasks
            && t.runs[r].tasks[s.files[f].chunks[c].id].state != Rejected
            && forall id | id in t.runs[r].tasks && id != s.files[f].chunks[c].id ::
                   t.runs[r].tasks[id].state == Resolved
  {}

  lemma TaskResolved(s: Session, r: nat, f: nat, c: nat, t: Session, u: Session)
    requires Smooth(s, r, AtChunk(f, c)) && f < |s.files| && c < |s.files[f].chunks| && !s.files[f].chunks[c].uploaded
    requires t == Step(s, NextChunk(r, 0)) && u == Step(t, TaskSettles(r, s.files[f].chunks[c].id, true, true))
    ensures Smooth(u, r, Awaiting(f, c)) && u.files == s.files && u.runs[r].index == s.runs[r].index
    ensures s.files[f].chunks[c].id in u.runs[r].tasks
  {
    TaskAwaited(s, r, f, c);
    hide ChunkStep, ResumeStep, LoopStep, JoinStep, RegisteredStep, Started, Cancelled, CatchStep;
  }

  lemma {:induction false} ChunksUploaded(s: Session, r: nat, f: nat, c: nat) returns (events: seq<Event>)
    requires Smooth(s, r, AtChunk(f, c)) && f < |s.files| && c <= |s.files[f].chunks|
    ensures var t := Execute(s, events);
            Smooth(t, r, Looping) && t.runs[r].index == s.runs[r].index && |t.files| == |s.files|
    decreases |s.files[f].chunks| - c
  {
    hide Execute;
    if c < |s.files[f].chunks| {
      var first := ChunkUploaded(s, r, f, c);
      var rest := ChunksUploaded(Execute(s, first), r, f, c + 1);
      ExecuteAppend(s, first, rest);
      events := first + rest;
    } else {
      events := [NextChunk(r, 0)];
      ExecuteOne(s, NextChunk(r, 0));
      assert Step(s, NextChunk(r, 0)).runs[r].workers == [Looping];
    }
  }

  /** The worker takes a file and does all it has to with it. */
  lemma FileUploaded(s: Session, r: nat) returns (events: seq<Event>)
    requires Smooth(s, r, Looping) && s.runs[r].index < |s.files|
    ensures var t := Execute(s, events);
            Smooth(t, r, Looping) && t.runs[r].index == s.runs[r].index + 1 && |t.files| == |s.files|
  {
    hide Execute;
    var f, t := s.runs[r].index, Step(s, Loop(r, 0));
    ExecuteOne(s, Loop(r, 0));
    if s.files[f].status == Completed {
      events := [Loop(r, 0)];
    } else {
      assert t.runs[r].workers == [AtChunk(f, 0)];
      var rest := ChunksUploaded(t, r, f, 0);
      ExecuteAppend(s, [Loop(r, 0)], rest);
      events := [Loop(r, 0)] + rest;
    }
  }

  lemma {:induction false} FilesUploaded(s: Session, r: nat) returns (events: seq<Event>)
    requires Smooth(s, r, Looping) && s.runs[r].index <= |s.files|
    ensures Smooth(Execute(s, events), r, Finished)
    decreases |s.files| - s.runs[r].index
  {
    hide Execute;
    if s.runs[r].index < |s.files| {
      var first := FileUploaded(s, r);
      var rest := FilesUploaded(Execute(s, first), r);
      ExecuteAppend(s, first, rest);
      events := first + rest;
    } else {
      events := [Loop(r, 0)];
      ExecuteOne(s, Loop(r, 0));
      assert Step(s, Loop(r, 0)).runs[r].workers == [Finished];
    }
  }

  /**
   * All workers are done and nothing went wrong: a finalize answer that confirms everything makes the session ready.
   */
  lemma FinalizeReady(s: Session, r: nat) returns (events: seq<Event>)
    requires r in s.runs && s.controller == Some(s.runs[r].controller) && s.runs[r].controller !in s.aborted
    requires s.runs[r].phase == Transferring && !s.runs[r].failure
    requires forall w | 0 <= w < |s.runs[r].workers| :: s.runs[r].workers[w] == Finished
    ensures Execute(s, events).objectStatus == Ready
  {
    hide Execute;
    var answer := Registered(r, true, true, seq(s.roots, _ => true), true);
    events := [WorkersDone(r), answer];
    ExecuteTwo(s, WorkersDone(r), answer);
  }

  lemma IdleStarts(s: Session) returns (start: Event, r: nat)
    requires Inv(s) && Idle(s)
    ensures var t := Step(s, start);
            && r in t.runs && t.controller == Some(t.runs[r].controller) && t.runs[r].controller !in t.aborted
            && t.runs[r].phase == Transferring && !t.runs[r].failure && t.runs[r].index == 0
            && (if |s.files| == 0 then t.runs[r].workers == [] else Smooth(t, r, Looping))
  {
    start, r := Start(1, false, true, false), FreshRun(s);
  }

  lemma IdleToReady(s: Session) returns (events: seq<Event>)
    requires Inv(s) && Idle(s)
    ensures Execute(s, events).objectStatus == Ready
  {
    hide Execute, Step, Inv;
    var start, r := IdleStarts(s);
    var t := Step(s, start);
    ExecuteOne(s, start);
    var middle := [];
    if |s.files| != 0 {
      middle := FilesUploaded(t, r);
    } else {
      ExecuteNothing(t);
    }
    var last := FinalizeReady(Execute(t, middle), r);
    ExecuteAppend(t, middle, last);
    ExecuteAppend(s, [start], middle + last);
    events := [start] + (middle + last);
  }

  /**
   * No session is ever stuck: from every state of every run, whatever failed, was cancelled or is still under way,
   * `ready` can be reached.
   */
  lemma ReadyReachable(s: Session, events: seq<Event>)
    requires Initial(s)
    ensures exists more :: Execute(s, events + more).objectStatus == Ready
  {
    hide Execute, Step, Inv;
    InitInv(s);
    RunInv(s, events);
    var t := Execute(s, events);
    var more: seq<Event> := [];
    if t.objectStatus != Ready {
      var rest := ComesToRest(t);
      RunInv(t, rest);
      var again := IdleToReady(Execute(t, rest));
      ExecuteAppend(t, rest, again);
      more := rest + again;
    } else {
      ExecuteNothing(t);
    }
    ExecuteAppend(s, events, more);
    assert Execute(s, events + more).objectStatus == Ready;
  }
}
