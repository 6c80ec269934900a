/** Answering a notification: `commitNotifyAnswer` (src/msg_center_client.ts). */
module NotifyCommit {
  import opened Wrappers

  // An optimistic commit against a task that others may change at any moment, over calls that may fail before or
  // after they take effect.

  /** A result by this call, or by somebody else. */
  datatype Answer = Ours | Theirs(who: nat)

  datatype Task = Task(revision: nat, terminal: bool, result: Option<Answer>)

  predicate Closed(t: Task) { t.terminal || t.result.Some? }

  datatype CallError = AlreadyCompleted | RevisionConflict | OtherError

  datatype Outcome = Committed(task: Task) | AlreadyClosed(task: Task) | GaveUp | Threw

  /**
   * One change follows another: the revision rises, a result is never taken back or replaced, a closed task stays
   * closed.
   */
  ghost predicate Follows(a: Task, b: Task) {
    && a.revision < b.revision
    && (a.result.Some? ==> b.result == a.result)
    && (a.terminal ==> b.terminal && b.result == a.result)
  }

  ghost predicate Evolves(history: seq<Task>) {
    forall i | 0 <= i < |history| - 1 :: Follows(history[i], history[i + 1])
  }

  /** Over a whole history: revisions never repeat, a result stays, a task closed without a result never gets one. */
  lemma {:induction false} HistoryKeeps(history: seq<Task>, i: nat, j: nat)
    requires Evolves(history) && i < j < |history|
    ensures Follows(history[i], history[j])
    decreases j
  {
    if j > i + 1 {
      HistoryKeeps(history, i, j - 1);
    }
    assert Follows(history[j - 1], history[j]);
  }

  /** A snapshot's revision identifies it: a commit that expects it acts on the very state that was read. */
  lemma RevisionIdentifies(history: seq<Task>, i: nat, j: nat)
    requires Evolves(history) && i < |history| && j < |history| && history[i].revision == history[j].revision
    ensures i == j
  {
    if i < j {
      HistoryKeeps(history, i, j);
    } else if j < i {
      HistoryKeeps(history, j, i);
    }
  }

  /** A history and the results that took effect may go on so, without a result of ours. */
  ghost predicate Moved(h: seq<Task>, c: seq<Answer>, k: seq<Task>, d: seq<Answer>) {
    && h != [] && h <= k && Ours !in d && (d == c || (c == [] && |d| == 1))
    && (Closed(h[|h| - 1]) ==> Closed(k[|k| - 1]))
  }

  lemma Unmoved(h: seq<Task>, c: seq<Answer>)
    requires h != [] && Ours !in c
    ensures Moved(h, c, h, c)
  {}

  lemma MovedOn(h: seq<Task>, c: seq<Answer>, k: seq<Task>, d: seq<Answer>, l: seq<Task>, e: seq<Answer>)
    requires Moved(h, c, k, d) && Moved(k, d, l, e)
    ensures Moved(h, c, l, e) && (|h| < |k| || |k| < |l| ==> |h| < |l|)
  {}

  lemma MovedMeans(h: seq<Task>, c: seq<Answer>, k: seq<Task>, d: seq<Answer>)
    requires Moved(h, c, k, d) && k != []
    requires var last := k[|k| - 1].result; d == if last.Some? then [last.value] else []
    ensures h <= k && Ours !in d && |d| <= 1 && (c != [] ==> d == c)
    ensures Closed(h[|h| - 1]) ==> Closed(k[|k| - 1])
    ensures |h| < |k| || h[|h| - 1] != k[|k| - 1] ==> !Undisturbed(h, k)
  {}

  /** Nobody but this answer changed the task. */
  ghost predicate Undisturbed(before: seq<Task>, after: seq<Task>) {
    after == before || (|after| == |before| + 1 && before <= after && after[|before|].result == Some(Ours))
  }

  /** A call to the task manager with its answer: a read, None when it failed, or a commit. */
  datatype Call = Read(seen: Option<Task>) | Commit(expected: nat, answer: Result<Task, CallError>)

  /**
   * The task manager. A commit takes effect only on an open task at the expected revision; every change raises the
   * revision. `history` is every state the task has had, `commits` the results that took effect, in order, and `log`
   * the calls made by the function below with what they answered.
   */
  class TaskManager {
    var task: Task
    ghost var history: seq<Task>
    ghost var commits: seq<Answer>
    ghost var log: seq<Call>

    constructor (task: Task)
      requires task.result.None?
      ensures Valid() && this.task == task && commits == [] && log == []
    {
      this.task := task;
      history := [task];
      commits := [];
      log := [];
    }

    ghost predicate Valid()
      reads this
    {
      && history != [] && history[|history| - 1] == task
      && Evolves(history)
      && commits == if task.result.Some? then [task.result.value] else []
    }

    lemma Latest()
      requires Valid()
      ensures history != [] && history[|history| - 1] == task
      ensures commits == if task.result.Some? then [task.result.value] else []
    {}

    /** Others change the task, any number of times. */
    method Others()
      requires Valid()
      modifies this
      ensures Valid() && old(history) <= history && log == old(log)
      ensures Closed(old(task)) ==> task.result == old(task).result && Closed(task)
      ensures commits == old(commits) || (old(commits) == [] && |commits| == 1 && commits[0].Theirs?)
      ensures task.revision >= old(task).revision && (task.revision == old(task).revision ==> task == old(task))
    {
      var changes: nat := *;
      while changes > 0
        invariant Valid() && old(history) <= history && log == old(log)
        invariant Closed(old(task)) ==> task.result == old(task).result && Closed(task)
        invariant commits == old(commits) || (old(commits) == [] && |commits| == 1 && commits[0].Theirs?)
        invariant task.revision >= old(task).revision && (task.revision == old(task).revision ==> task == old(task))
      {
        var who: nat := *;
        var next: Task;
        if Closed(task) {
          var terminal: bool := *;
          next := task.(revision := task.revision + 1, terminal := task.terminal || terminal);
        } else if * {
          next := task.(revision := task.revision + 1);
        } else if * {
          next := task.(revision := task.revision + 1, terminal := true);
        } else {
          next := Task(task.revision + 1, who % 2 == 0, Some(Theirs(who)));
          commits := commits + [Theirs(who)];
        }
        history := history + [next];
        task := next;
        changes := changes - 1;
      }
    }

    /** None is a failed call. */
    method GetTask() returns (r: Option<Task>)
      requires Valid()
      modifies this
      ensures Valid() && old(history) <= history
      ensures Closed(old(task)) ==> task.result == old(task).result && Closed(task)
      ensures commits == old(commits) || (old(commits) == [] && |commits| == 1 && commits[0].Theirs?)
      ensures Ours !in commits ==> Moved(old(history), old(commits), history, commits)
      ensures r.Some? ==> r.value == task
      ensures log == old(log) + [Read(r)]
    {
      Others();
      if * { r := None; } else { r := Some(task); }
      log := log + [Read(r)];
    }

    /** `commitResult` with `expected_revision`; OtherError may come before or after it takes effect. */
    method CommitResult(expected: nat) returns (r: Result<Task, CallError>)
      requires Valid()
      modifies this
      ensures Valid() && old(history) <= history
      ensures r.Ok? ==> r.value == task && task.result == Some(Ours) && commits == [Ours]
      ensures r.Err? && !r.error.OtherError? ==>
                commits == old(commits) || (old(commits) == [] && |commits| == 1 && commits[0].Theirs?)
      ensures r.Err? && r.error.OtherError? ==>
                commits == old(commits) || (old(commits) == [] && |commits| == 1)
      ensures r == Err(AlreadyCompleted) ==> Closed(task)
      ensures r.Err? && Ours !in commits ==> Moved(old(history), old(commits), history, commits)
      ensures r == Err(RevisionConflict) ==> task.revision != expected
      ensures log == old(log) + [Commit(expected, r)]
      ensures Closed(old(task)) ==> r.Err? && Closed(task) && commits == old(commits)
      ensures commits != old(commits) && commits == [Ours] ==>
                exists i :: 0 <= i < |history| - 1 && history[i].revision == expected && !Closed(history[i])
                    && history[i + 1].result == Some(Ours)
    {
      Others();
      r := Take(expected);
      log := log + [Commit(expected, r)];
    }

    /** The commit once it has reached the task manager. */
    method Take(expected: nat) returns (r: Result<Task, CallError>)
      requires Valid()
      modifies this
      ensures Valid() && old(history) <= history && log == old(log)
      ensures r == Err(AlreadyCompleted) <==> Closed(old(task))
      ensures r == Err(RevisionConflict) ==> old(task).revision != expected
      ensures r.Ok? ==> r.value == task && commits == [Ours]
      ensures r.Ok? || (r == Err(OtherError) && commits != old(commits)) ==>
                !Closed(old(task)) && old(task).revision == expected
                && task == Task(expected + 1, task.terminal, Some(Ours)) && history == old(history) + [task]
      ensures r.Err? && (r.error.OtherError? ==> commits == old(commits)) ==>
                task == old(task) && history == old(history) && commits == old(commits)
    {
      if Closed(task) {
        return Err(AlreadyCompleted);
      }
      if * {
        return Err(OtherError);
      }
      if task.revision != expected {
        return Err(RevisionConflict);
      }
      var terminal: bool := *;
      task := Task(task.revision + 1, terminal, Some(Ours));
      history := history + [task];
      commits := commits + [Ours];
      if * {
        return Err(OtherError);
      }
      return Ok(task);
    }
  }

  // ---- the calls of one answer

  /** A read found the task open, and the commit with its revision was refused because the task had moved on. */
  predicate Refused(read: Call, commit: Call) {
    && read.Read? && read.seen.Some? && !Closed(read.seen.value)
    && commit == Commit(read.seen.value.revision, Err(RevisionConflict))
  }

  /** After its refused rounds the function makes its last calls and returns. */
  ghost predicate Ends(rest: seq<Call>, r: Outcome, lastRead: bool) {
    && rest != [] && rest[0].Read?
    && match rest[0].seen
       case None => |rest| == 1 && r == Threw
       case Some(t) =>
         if lastRead then |rest| == 1 && r == if t.terminal then AlreadyClosed(t) else GaveUp
         else if Closed(t) then |rest| == 1 && r == AlreadyClosed(t)
         else
           && |rest| >= 2 && rest[1].Commit? && rest[1].expected == t.revision
           && EndsCommit(rest[1].answer, rest[2..], r)
  }

  ghost predicate EndsCommit(answer: Result<Task, CallError>, rest: seq<Call>, r: Outcome) {
    match answer
    case Ok(t) => rest == [] && r == Committed(t)
    case Err(OtherError) => rest == [] && r == Threw
    case Err(RevisionConflict) => false
    case Err(AlreadyCompleted) =>
      |rest| == 1 && rest[0].Read? && r == if rest[0].seen.Some? then AlreadyClosed(rest[0].seen.value) else Threw
  }

  ghost predicate AllRefused(calls: seq<Call>, rounds: nat) {
    |calls| == 2 * rounds && forall i: nat | i < rounds :: Refused(calls[2 * i], calls[2 * i + 1])
  }

  lemma NoneRefused()
    ensures AllRefused([], 0)
  {}

  lemma OneMoreRefused(calls: seq<Call>, rounds: nat, read: Call, commit: Call)
    requires AllRefused(calls, rounds) && Refused(read, commit)
    ensures AllRefused(calls + [read, commit], rounds + 1)
  {}

  lemma Told(log: seq<Call>, calls: seq<Call>, rest: seq<Call>, rounds: nat, r: Outcome)
    requires AllRefused(calls, rounds) && rounds <= 3 && Ends(rest, r, rounds == 3)
    ensures Story((log + calls + rest)[|log|..], rounds, r)
  {
    assert (log + calls + rest)[|log|..] == calls + rest;
    assert (calls + rest)[..2 * rounds] == calls && (calls + rest)[2 * rounds..] == rest;
  }

  lemma ToldRead(log: seq<Call>, calls: seq<Call>, rounds: nat, seen: Option<Task>, r: Outcome)
    requires AllRefused(calls, rounds) && rounds <= 3
    requires match seen
             case None => r == Threw
             case Some(t) =>
               if rounds == 3 then r == if t.terminal then AlreadyClosed(t) else GaveUp
               else Closed(t) && r == AlreadyClosed(t)
    ensures Story((log + calls + [Read(seen)])[|log|..], rounds, r)
  {
    Told(log, calls, [Read(seen)], rounds, r);
  }

  /** The calls of one answer: refused rounds, three at most, and what follows them. */
  ghost predicate Story(calls: seq<Call>, rounds: nat, r: Outcome) {
    && rounds <= 3 && 2 * rounds <= |calls| && AllRefused(calls[..2 * rounds], rounds)
    && Ends(calls[2 * rounds..], r, rounds == 3)
  }

  predicate Failed(call: Call) {
    match call
    case Read(seen) => seen.None?
    case Commit(_, answer) => answer == Err(OtherError)
  }

  lemma RefusedAt(calls: seq<Call>, rounds: nat, i: nat)
    requires 2 * rounds <= |calls| && AllRefused(calls[..2 * rounds], rounds)
    ensures i < 2 * rounds ==> Refused(calls[i / 2 * 2], calls[i / 2 * 2 + 1])
  {
    assert i < 2 * rounds ==> Refused(calls[..2 * rounds][2 * (i / 2)], calls[..2 * rounds][2 * (i / 2) + 1]);
  }

  /**
   * What each outcome tells of the calls: Committed, that the last commit was taken; Threw, that the last call failed;
   * GaveUp, that three commits were refused for their revision and the task was not in a terminal phase even then;
   * AlreadyClosed, that the last read gave this task, closed, or after a commit refused because it was.
   */
  lemma StoryTells(calls: seq<Call>, rounds: nat, r: Outcome)
    requires Story(calls, rounds, r)
    ensures calls != []
    ensures forall t :: r == Committed(t) <==> exists e :: calls[|calls| - 1] == Commit(e, Ok(t))
    ensures r.Threw? <==> Failed(calls[|calls| - 1])
    ensures r.Threw? <==> exists i :: 0 <= i < |calls| && Failed(calls[i])
    ensures r.GaveUp? <==>
              && |calls| == 7 && Refused(calls[0], calls[1]) && Refused(calls[2], calls[3])
              && Refused(calls[4], calls[5])
              && calls[6].Read? && calls[6].seen.Some? && !calls[6].seen.value.terminal
    ensures r.AlreadyClosed? ==>
              && calls[|calls| - 1] == Read(Some(r.task))
              && (!Closed(r.task) ==>
                    |calls| > 1 && calls[|calls| - 2].Commit? && calls[|calls| - 2].answer == Err(AlreadyCompleted))
  {
    var last := calls[|calls| - 1];
    assert last == calls[2 * rounds..][|calls| - 2 * rounds - 1];
    forall i: nat | i < |calls|
      ensures i < 2 * rounds ==> !Failed(calls[i]) && (calls[i].Commit? ==> calls[i].answer == Err(RevisionConflict))
    {
      RefusedAt(calls, rounds, i);
    }
    if rounds == 3 {
      RefusedAt(calls, rounds, 0);
      RefusedAt(calls, rounds, 2);
      RefusedAt(calls, rounds, 4);
    }
  }

  /** Every commit is made with the revision of an open task that was read just before it. */
  lemma CommitsFollowReads(calls: seq<Call>, rounds: nat, r: Outcome, i: nat)
    requires Story(calls, rounds, r) && i < |calls| && calls[i].Commit?
    ensures i > 0 && calls[i - 1].Read? && calls[i - 1].seen.Some? && !Closed(calls[i - 1].seen.value)
    ensures calls[i].expected == calls[i - 1].seen.value.revision
  {
    if i < 2 * rounds {
      RefusedAt(calls, rounds, i);
    } else {
      var rest := calls[2 * rounds..];
      assert rest[i - 2 * rounds] == calls[i];
    }
  }

  /**
   * What the outcome tells of the task, from its state and the results that had taken effect before to those after: a
   * result of ours took effect or not, on a task that was open; what is reported closed is, by somebody else.
   */
  ghost predicate Tells(before: Task, c: seq<Answer>, after: Task, d: seq<Answer>, r: Outcome) {
    && |d| <= 1 && (c != [] ==> d == c)
    && match r
       case Committed(t) =>
         !Closed(before) && c == [] && d == [Ours] && after.result == Some(Ours) && t.result == Some(Ours)
       case AlreadyClosed(t) => Ours !in d && Closed(t) && t.result != Some(Ours)
       case GaveUp => Ours !in d && !Closed(before)
       case Threw => true
  }

  lemma TellsLater(h: seq<Task>, c: seq<Answer>, k: seq<Task>, d: seq<Answer>, after: Task, e: seq<Answer>, r: Outcome)
    requires Moved(h, c, k, d) && k != [] && Tells(k[|k| - 1], d, after, e, r)
    requires |d| <= 1
    ensures Tells(h[|h| - 1], c, after, e, r)
  {}

  lemma OutcomeLater(h: seq<Task>, c: seq<Answer>, k: seq<Task>, d: seq<Answer>, l: seq<Task>, e: seq<Answer>,
      r: Outcome)
    requires Moved(h, c, k, d) && k != [] && k <= l && Tells(k[|k| - 1], d, l[|l| - 1], e, r)
    requires var last := l[|l| - 1].result; e == if last.Some? then [last.value] else []
    requires !Closed(k[|k| - 1]) && Undisturbed(k, l) ==> r.Committed? || r.Threw?
    ensures h <= l && (!Closed(h[|h| - 1]) && Undisturbed(h, l) ==> r.Committed? || r.Threw?)
  {
    if |h| < |k| {
      if !r.Committed? && !r.Threw? {
        ClosedElsewhere(h, l, e);
      }
    } else {
      assert h == k;
    }
  }

  lemma TellsMoved(h: seq<Task>, c: seq<Answer>, k: seq<Task>, d: seq<Answer>, r: Outcome)
    requires Moved(h, c, k, d) && k != [] && |d| <= 1
    requires r.Threw? || (r.GaveUp? && !Closed(h[|h| - 1]))
             || (r.AlreadyClosed? && Closed(r.task) && r.task.result != Some(Ours))
    ensures Tells(h[|h| - 1], c, k[|k| - 1], d, r)
  {}

  lemma ClosedElsewhere(h: seq<Task>, k: seq<Task>, d: seq<Answer>)
    requires h != [] && k != []
    requires var last := k[|k| - 1].result; d == if last.Some? then [last.value] else []
    requires Ours !in d && (|h| < |k| || h[|h| - 1] != k[|k| - 1])
    ensures !Undisturbed(h, k)
  {}

  /** One turn of the loop; None goes on to the next. */
  method Attempt(tasks: TaskManager) returns (r: Option<Outcome>, ghost calls: seq<Call>)
    requires tasks.Valid() && Ours !in tasks.commits
    modifies tasks
    ensures tasks.Valid() && tasks.log == old(tasks.log) + calls
    ensures r.None? ==>
              && |calls| == 2 && Refused(calls[0], calls[1])
              && Moved(old(tasks.history), old(tasks.commits), tasks.history, tasks.commits)
              && |old(tasks.history)| < |tasks.history| && !Closed(old(tasks.task))
    ensures r.Some? ==>
              && Ends(calls, r.value, false) && old(tasks.history) <= tasks.history
              && Tells(old(tasks.task), old(tasks.commits), tasks.task, tasks.commits, r.value)
              && (!Closed(old(tasks.task)) && Undisturbed(old(tasks.history), tasks.history) ==>
                    r.value.Committed? || r.value.Threw?)
  {
    hide Moved, Undisturbed, TaskManager.Valid;
    ghost var h, c := tasks.history, tasks.commits;
    tasks.Latest();
    var task := tasks.GetTask();
    tasks.Latest();
    MovedMeans(h, c, tasks.history, tasks.commits);
    calls := [Read(task)];
    if task.None? {
      return Some(Threw), calls;
    }
    if Closed(task.value) {
      return Some(AlreadyClosed(task.value)), calls;
    }
    ghost var k, d := tasks.history, tasks.commits;
    var committed := tasks.CommitResult(task.value.revision);
    tasks.Latest();
    calls := calls + [Commit(task.value.revision, committed)];
    match committed {
      case Ok(t) =>
        return Some(Committed(t)), calls;
      case Err(OtherError) =>
        return Some(Threw), calls;
      case Err(RevisionConflict) =>
        MovedOn(h, c, k, d, tasks.history, tasks.commits);
        MovedMeans(k, d, tasks.history, tasks.commits);
        return None, calls;
      case Err(AlreadyCompleted) =>
        MovedOn(h, c, k, d, tasks.history, tasks.commits);
        ghost var k', d' := tasks.history, tasks.commits;
        var last := tasks.GetTask();
        tasks.Latest();
        MovedOn(h, c, k', d', tasks.history, tasks.commits);
        MovedMeans(h, c, tasks.history, tasks.commits);
        calls := calls + [Read(last)];
        return Some(if last.None? then Threw else AlreadyClosed(last.value)), calls;
    }
  }

  /**
   * At most one commit takes effect, and only on an open task that had no result; the outcome says whether it did,
   * unless the call threw an error of the task manager. The calls made tell the outcome, and an open task that nobody
   * else changes is answered unless a call fails.
   */
  method CommitNotifyAnswer(tasks: TaskManager) returns (r: Outcome, ghost rounds: nat)
    requires tasks.Valid() && Ours !in tasks.commits
    modifies tasks
    ensures tasks.Valid() && old(tasks.history) <= tasks.history
    ensures Tells(old(tasks.task), old(tasks.commits), tasks.task, tasks.commits, r)
    ensures old(tasks.log) <= tasks.log && Story(tasks.log[|old(tasks.log)|..], rounds, r)
    ensures !Closed(old(tasks.task)) && Undisturbed(old(tasks.history), tasks.history) ==> r.Committed? || r.Threw?
  {
    hide Story, AllRefused, Moved, Undisturbed, TaskManager.Valid, Tells, Ends;
    ghost var log, h, c := tasks.log, tasks.history, tasks.commits;
    tasks.Latest();
    ghost var calls := [];
    NoneRefused();
    Unmoved(h, c);
    var attempt := 0;
    while attempt < 3
      invariant 0 <= attempt <= 3 && tasks.Valid() && Ours !in tasks.commits
      invariant tasks.log == log + calls && AllRefused(calls, attempt)
      invariant Moved(h, c, tasks.history, tasks.commits)
      invariant attempt > 0 ==> |h| < |tasks.history| && !Closed(old(tasks.task))
    {
      ghost var k, d := tasks.history, tasks.commits;
      tasks.Latest();
      MovedMeans(h, c, k, d);
      var done, turn := Attempt(tasks);
      tasks.Latest();
      if done.Some? {
        Told(log, calls, turn, attempt, done.value);
        TellsLater(h, c, k, d, tasks.task, tasks.commits, done.value);
        OutcomeLater(h, c, k, d, tasks.history, tasks.commits, done.value);
        return done.value, attempt;
      }
      MovedOn(h, c, k, d, tasks.history, tasks.commits);
      assert turn == [turn[0], turn[1]];
      OneMoreRefused(calls, attempt, turn[0], turn[1]);
      calls := calls + turn;
      attempt := attempt + 1;
    }
    ghost var k, d := tasks.history, tasks.commits;
    var task := tasks.GetTask();
    tasks.Latest();
    MovedOn(h, c, k, d, tasks.history, tasks.commits);
    MovedMeans(h, c, tasks.history, tasks.commits);
    r, rounds := if task.None? then Threw else if task.value.terminal then AlreadyClosed(task.value) else GaveUp, 3;
    ToldRead(log, calls, 3, task, r);
    TellsMoved(h, c, tasks.history, tasks.commits, r);
  }
}
