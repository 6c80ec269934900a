/** What the upload session's progress shows, and what an abort or a failure still lets happen (src/ndm_client.ts). */
module NdmProgress {
  import opened Wrappers
  import opened NdmSession
  import opened NdmTransfers

  // ---- sums

  /** Marking a chunk adds its length to what is marked of its file; nothing is marked of a file without marks. */
  lemma {:induction false} MarkAdds(chunks: seq<Chunk>, c: nat)
    requires c < |chunks| && !chunks[c].uploaded
    ensures SumUploaded(chunks[c := chunks[c].(uploaded := true)]) == SumUploaded(chunks) + chunks[c].length
  {
    var marked := chunks[c := chunks[c].(uploaded := true)];
    if c > 0 {
      assert marked[1..] == chunks[1..][c - 1 := marked[c]];
      MarkAdds(chunks[1..], c - 1);
    } else {
      assert marked[1..] == chunks[1..];
    }
  }

  lemma {:induction false} NoneMarked(chunks: seq<Chunk>)
    requires forall c | 0 <= c < |chunks| :: !chunks[c].uploaded
    ensures SumUploaded(chunks) == 0
  {
    if chunks != [] {
      assert forall c | 0 <= c < |chunks[1..]| :: chunks[1..][c] == chunks[c + 1];
      NoneMarked(chunks[1..]);
    }
  }

  /** How often the file is among the items. */
  function Occurs(items: seq<nat>, f: nat): nat {
    if items == [] then 0 else (if items[0] == f then 1 else 0) + Occurs(items[1..], f)
  }

  /** The sessions differ in nothing but this file. */
  predicate OneFile(s: Session, t: Session, f: nat) {
    && |t.files| == |s.files| && f < |s.files|
    && forall g | 0 <= g < |s.files| && g != f :: t.files[g] == s.files[g]
  }

  predicate Listed(s: Session, items: seq<nat>) { forall i | 0 <= i < |items| :: items[i] < |s.files| }

  /** A file's report, its completion and its size each show once in the totals for every entry that is that file. */
  lemma {:induction false} TotalsFollow(s: Session, t: Session, items: seq<nat>, f: nat)
    requires OneFile(s, t, f) && Listed(s, items)
    ensures UploadedBytes(t, items) - UploadedBytes(s, items)
         == Occurs(items, f) * (t.files[f].uploadedBytes - s.files[f].uploadedBytes)
    ensures TotalBytes(t, items) - TotalBytes(s, items) == Occurs(items, f) * (t.files[f].size - s.files[f].size)
    ensures s.files[f].status != Completed && t.files[f].status == Completed ==>
              UploadedObjects(t, items) == UploadedObjects(s, items) + Occurs(items, f)
  {
    if items != [] {
      var rest := items[1..];
      TotalsFollow(s, t, rest, f);
      var here := if items[0] == f then 1 else 0;
      Distributes(here, Occurs(rest, f), t.files[f].uploadedBytes - s.files[f].uploadedBytes);
      Distributes(here, Occurs(rest, f), t.files[f].size - s.files[f].size);
    }
  }

  lemma Distributes(here: int, n: int, d: int)
    requires here == 0 || here == 1
    ensures (here + n) * d == (if here == 1 then d else 0) + n * d
  {}

  /** Nothing reported shows as nothing, and as many objects are shown as entries are completed. */
  lemma {:induction false} TotalsOfNothing(s: Session, items: seq<nat>)
    requires Listed(s, items)
    ensures (forall f | 0 <= f < |s.files| :: s.files[f].uploadedBytes == 0) ==> UploadedBytes(s, items) == 0
    ensures (forall f | 0 <= f < |s.files| :: s.files[f].size == 0) ==> TotalBytes(s, items) == 0
    ensures UploadedObjects(s, items) <= |items|
    ensures UploadedObjects(s, items) == |items|
       <==> forall i | 0 <= i < |items| :: s.files[items[i]].status == Completed
    ensures UploadedObjects(s, items) == 0 <==> forall i | 0 <= i < |items| :: s.files[items[i]].status != Completed
  {
    if items != [] {
      var rest := items[1..];
      TotalsOfNothing(s, rest);
      assert forall i | 0 <= i < |items| :: i == 0 || items[i] == rest[i - 1];
      assert forall i | 0 <= i < |rest| :: rest[i] == items[i + 1];
    }
  }

  /** When a worker comes back to a chunk that was transferred, its file reports exactly what is marked of it. */
  lemma ResumeReports(s: Session, r: nat, w: nat)
    requires Inv(s) && HasWorker(s, r, w) && s.runs[r].workers[w].Awaiting?
    requires var Awaiting(f, c) := s.runs[r].workers[w];
             && f < |s.files| && c < |s.files[f].chunks| && s.files[f].chunks[c].id in s.runs[r].tasks
             && s.runs[r].tasks[s.files[f].chunks[c].id].state == Resolved
    ensures var t, Awaiting(f, c) := Step(s, Resume(r, w)), s.runs[r].workers[w];
            && OneFile(s, t, f) && t.files[f].chunks[c].uploaded
            && t.files[f].uploadedBytes == SumUploaded(t.files[f].chunks)
            && t.files[f].status == s.files[f].status
  {
    hide Inv;
  }

  // ---- after an abort or a failure

  /** No file is taken up: none comes to be uploading that was not. */
  ghost predicate TakesNone(s: Session, t: Session) {
    && |t.files| == |s.files|
    && forall f | 0 <= f < |s.files| && t.files[f].status == Uploading :: s.files[f].status == Uploading
  }

  ghost predicate StartsNone(s: Session, t: Session) {
    forall r | r in s.runs :: r in t.runs && t.runs[r].started == s.runs[r].started
  }

  lemma LoopStopped(s: Session, r: nat, w: nat)
    requires HasWorker(s, r, w) && (s.runs[r].failure || IsAborted(s))
    ensures TakesNone(s, LoopStep(s, r, s.runs[r], w)) && StartsNone(s, LoopStep(s, r, s.runs[r], w))
  {}

  lemma ChunkStopped(s: Session, r: nat, w: nat)
    requires HasWorker(s, r, w) && s.runs[r].workers[w].AtChunk?
    ensures TakesNone(s, ChunkStep(s, r, s.runs[r], w))
    ensures IsAborted(s) ==> StartsNone(s, ChunkStep(s, r, s.runs[r], w))
  {
    hide SumUploaded;
  }

  lemma ResumeStopped(s: Session, r: nat, w: nat)
    requires HasWorker(s, r, w) && s.runs[r].workers[w].Awaiting?
    ensures TakesNone(s, ResumeStep(s, r, s.runs[r], w)) && StartsNone(s, ResumeStep(s, r, s.runs[r], w))
  {
    hide SumUploaded;
  }

  lemma NoneTaken(s: Session)
    ensures TakesNone(s, s) && StartsNone(s, s)
  {}

  lemma OtherStopped(s: Session, e: Event)
    requires !e.Start? && !e.Loop? && !e.NextChunk? && !e.Resume?
    ensures TakesNone(s, Step(s, e)) && StartsNone(s, Step(s, e))
  {
    if MovesPhase(e) {
      OnlyPhases(s, e);
      StatusKept(s, e);
      hide Step;
    }
  }

  lemma StatusKept(s: Session, e: Event)
    requires MovesPhase(e)
    ensures |Step(s, e).files| == |s.files|
    ensures forall f | 0 <= f < |s.files| :: Step(s, e).files[f].status == s.files[f].status
  {
    hide SumUploaded, IsAborted, AllConfirmed;
  }

  /**
   * Once the signal is aborted nothing is taken up and no transfer is started, by whatever step but a new start; after
   * a failure the run takes up no more files, though the ones in hand go on.
   */
  lemma NothingMore(s: Session, e: Event)
    requires !e.Start?
    ensures IsAborted(s) ==> TakesNone(s, Step(s, e)) && StartsNone(s, Step(s, e))
    ensures e.Loop? && HasWorker(s, e.run, e.worker) && s.runs[e.run].failure ==> TakesNone(s, Step(s, e))
    ensures !e.Loop? ==> TakesNone(s, Step(s, e))
  {
    NoneTaken(s);
    hide TakesNone, StartsNone, LoopStep, ChunkStep, ResumeStep, IsAborted;
    match e {
      case Loop(r, w) =>
        if HasWorker(s, r, w) && s.runs[r].workers[w].Looping? && (s.runs[r].failure || IsAborted(s)) {
          LoopStopped(s, r, w);
        }
      case NextChunk(r, w) =>
        if HasWorker(s, r, w) && s.runs[r].workers[w].AtChunk? { ChunkStopped(s, r, w); }
      case Resume(r, w) =>
        if HasWorker(s, r, w) && s.runs[r].workers[w].Awaiting? { ResumeStopped(s, r, w); }
      case _ => OtherStopped(s, e);
    }
  }

  // ---- the binding

  /** The runs whose start asked for the binding count from their start on. */
  predicate AskedBinding(s: Session, e: Event) {
    && e.Start? && e.bind && s.roots == 1
    && s.objectStatus != Ready && s.uploadPromise.None? && e.concurrency >= 1 && !e.signalAborted && e.endpointKnown
  }

  /** The finalize request of a session once asked to bind is taken only with the binding done. */
  lemma {:induction false} BindIff(s: Session, events: seq<Event>)
    ensures Execute(s, events).bind
       <==> s.bind || exists k :: 0 <= k < |events| && AskedBinding(Execute(s, events[..k]), events[k])
    decreases |events|
  {
    hide Step, AskedBinding;
    if events != [] {
      var rest, t := events[1..], Step(s, events[0]);
      BindIff(t, rest);
      BindStep(s, events[0]);
      assert forall k | 0 <= k < |rest| ::
               rest[k] == events[k + 1] && Execute(t, rest[..k]) == Execute(s, events[..k + 1]) by {
        forall k | 0 <= k < |rest|
          ensures rest[k] == events[k + 1] && Execute(t, rest[..k]) == Execute(s, events[..k + 1])
        {
          assert events[..k + 1][1..] == rest[..k];
        }
      }
      assert Execute(s, events[..0]) == s;
      if k :| 0 <= k < |events| && AskedBinding(Execute(s, events[..k]), events[k]) {
        if k > 0 {
          assert AskedBinding(Execute(t, rest[..k - 1]), rest[k - 1]);
        }
      }
      if k :| 0 <= k < |rest| && AskedBinding(Execute(t, rest[..k]), rest[k]) {
        assert AskedBinding(Execute(s, events[..k + 1]), events[k + 1]);
      }
    }
  }

  lemma BindStep(s: Session, e: Event)
    ensures Step(s, e).bind <==> s.bind || AskedBinding(s, e)
  {
    hide SumUploaded, IsAborted, AllConfirmed;
  }
}
