/** Which calls of an event queue wait, and why a call gets null (src/kevent_client.ts). */
module EventQueueRuns {
  import opened Wrappers
  import opened EventQueue

  /** Step `k` is the call number `c`, made with this timeout. */
  ghost predicate MadeBy<T(!new)>(ops: seq<Op<T>>, k: nat, c: nat, wait: Wait) {
    k < |ops| && ops[k] == Shift(wait) && Run(ops[..k]).0.calls == c
  }

  /** After step `k` the call's timer goes off. */
  ghost predicate Rings<T(!new)>(ops: seq<Op<T>>, k: nat, c: nat) {
    exists j :: k < j < |ops| && ops[j] == Timer(c)
  }

  /** The call made at step `k` has no more reason to wait: it polls, its time is over, or the queue is closed. */
  ghost predicate Over<T(!new)>(ops: seq<Op<T>>, k: nat, c: nat, wait: Wait) {
    wait.Poll? || Closed(ops) || (wait.Timed? && Rings(ops, k, c))
  }

  ghost predicate WaiterOf<T(!new)>(ops: seq<Op<T>>, w: Waiter) {
    exists k: nat, wait :: MadeBy(ops, k, w.call, wait) && !Over(ops, k, w.call, wait) && w.timed == wait.Timed?
  }

  ghost predicate NullOf<T(!new)>(ops: seq<Op<T>>, c: nat) {
    exists k: nat, wait :: MadeBy(ops, k, c, wait) && Over(ops, k, c, wait)
  }

  lemma RunSnoc<T(!new)>(ops: seq<Op<T>>, op: Op<T>)
    ensures Run(ops + [op]).0 == Step(Run(ops).0, op).0
    ensures Run(ops + [op]).1 == Run(ops).1 + Step(Run(ops).0, op).1
  {
    assert (ops + [op])[..|ops|] == ops;
  }

  lemma Made<T(!new)>(ops: seq<Op<T>>, op: Op<T>, k: nat, c: nat, wait: Wait)
    ensures MadeBy(ops, k, c, wait) ==> MadeBy(ops + [op], k, c, wait)
    ensures op == Shift(wait) && c == Run(ops).0.calls ==> MadeBy(ops + [op], |ops|, c, wait)
  {
    assert k <= |ops| ==> (ops + [op])[..k] == ops[..k];
    assert ops[..|ops|] == ops && (ops + [op])[..|ops|] == ops;
    hide Run;
  }

  lemma ClosedSnoc<T(!new)>(ops: seq<Op<T>>, op: Op<T>)
    ensures Closed(ops + [op]) <==> Closed(ops) || op.Close?
  {
    var all := ops + [op];
    if Closed(ops) {
      var i :| 0 <= i < |ops| && ops[i].Close?;
      assert all[i].Close?;
    }
    assert all[|ops|] == op;
  }

  lemma OverSnoc<T(!new)>(ops: seq<Op<T>>, op: Op<T>, k: nat, c: nat, wait: Wait)
    ensures Over(ops, k, c, wait) ==> Over(ops + [op], k, c, wait)
    ensures k < |ops| && !Over(ops, k, c, wait) && Over(ops + [op], k, c, wait) ==>
              op.Close? || (op == Timer(c) && wait.Timed?)
    ensures op.Close? || wait.Poll? ==> Over(ops + [op], k, c, wait)
    ensures k < |ops| && op == Timer(c) && wait.Timed? ==> Over(ops + [op], k, c, wait)
    ensures k >= |ops| && !op.Close? && !wait.Poll? && !Closed(ops) ==> !Over(ops + [op], k, c, wait)
  {
    ClosedSnoc(ops, op);
    hide Closed;
    var all := ops + [op];
    if j :| k < j < |ops| && ops[j] == Timer(c) {
      assert all[j] == Timer(c);
    }
    if k < |ops| && op == Timer(c) {
      assert all[|ops|] == Timer(c);
    }
  }

  /** A waiter was made by a call that may wait, and every null has its reason. */
  ghost predicate Explained<T(!new)>(ops: seq<Op<T>>) {
    && (forall i | 0 <= i < |Run(ops).0.waiters| :: WaiterOf(ops, Run(ops).0.waiters[i]))
    && (forall i | 0 <= i < |Run(ops).1| && Run(ops).1[i].value.None? :: NullOf(ops, Run(ops).1[i].call))
  }

  lemma WaiterStays<T(!new)>(ops: seq<Op<T>>, op: Op<T>, w: Waiter)
    requires WaiterOf(ops, w)
    ensures !op.Close? && !(op == Timer(w.call) && w.timed) ==> WaiterOf(ops + [op], w)
    ensures op.Close? || (op == Timer(w.call) && w.timed) ==> NullOf(ops + [op], w.call)
  {
    var k: nat, wait :| MadeBy(ops, k, w.call, wait) && !Over(ops, k, w.call, wait) && w.timed == wait.Timed?;
    assert k < |ops|;
    Made(ops, op, k, w.call, wait);
    OverSnoc(ops, op, k, w.call, wait);
    hide MadeBy, Over;
  }

  lemma NullStays<T(!new)>(ops: seq<Op<T>>, op: Op<T>, c: nat)
    requires NullOf(ops, c)
    ensures NullOf(ops + [op], c)
  {
    var k: nat, wait :| MadeBy(ops, k, c, wait) && Over(ops, k, c, wait);
    Made(ops, op, k, c, wait);
    OverSnoc(ops, op, k, c, wait);
    hide MadeBy, Over;
  }

  /** The call made by this step: it waits for a reason, or is refused for one. */
  lemma NewCall<T(!new)>(ops: seq<Op<T>>, wait: Wait)
    ensures var c, all := Run(ops).0.calls, ops + [Shift(wait)];
            if wait.Poll? || Closed(ops) then NullOf(all, c) else WaiterOf(all, Waiter(c, wait.Timed?))
  {
    var c, all := Run(ops).0.calls, ops + [Shift(wait)];
    Made(ops, Shift(wait), 0, c, wait);
    OverSnoc(ops, Shift(wait), |ops|, c, wait);
    ClosedSnoc(ops, Shift(wait));
    assert MadeBy(all, |ops|, c, wait);
    assert Closed(ops) ==> Over(all, |ops|, c, wait);
    hide MadeBy, Over, Closed;
  }

  lemma {:induction false} WithoutIn(waiters: seq<Waiter>, call: nat, w: Waiter)
    requires w in Without(waiters, call)
    ensures w in waiters
  {
    if waiters[0].call != call && w != waiters[0] {
      WithoutIn(waiters[1..], call, w);
    }
  }

  lemma WithoutKeeps(waiters: seq<Waiter>, call: nat)
    requires forall i, j | 0 <= i < j < |waiters| :: waiters[i].call < waiters[j].call
    ensures forall w | w in Without(waiters, call) :: w in waiters && w.call != call
  {
    WithoutCalls(waiters, call);
    forall w | w in Without(waiters, call)
      ensures w in waiters && w.call != call
    {
      WithoutIn(waiters, call, w);
      var i :| 0 <= i < |Without(waiters, call)| && Without(waiters, call)[i] == w;
      assert Waiting(Without(waiters, call), w.call);
    }
  }

  lemma WaitersExplained<T(!new)>(ops: seq<Op<T>>, op: Op<T>, w: Waiter)
    requires Good(Run(ops).0, Run(ops).1) && (Run(ops).0.closed <==> Closed(ops))
    requires forall v | v in Run(ops).0.waiters :: WaiterOf(ops, v)
    requires w in Step(Run(ops).0, op).0.waiters
    ensures WaiterOf(ops + [op], w)
  {
    var s := Run(ops).0;
    hide Run, Closed, WaiterOf;
    match op {
      case Push(_) =>
        assert w in s.waiters;
        WaiterStays(ops, op, w);
      case Shift(wait) =>
        if w in s.waiters {
          WaiterStays(ops, op, w);
        } else {
          assert w == Waiter(s.calls, wait.Timed?);
          NewCall(ops, wait);
        }
      case Timer(call) =>
        if Fires(s.waiters, call) {
          WithoutKeeps(s.waiters, call);
        }
        NotFired(s.waiters, call);
        WaiterStays(ops, op, w);
      case Close =>
    }
  }

  lemma NotFired(waiters: seq<Waiter>, call: nat)
    ensures !Fires(waiters, call) ==> forall w | w in waiters :: !(w.call == call && w.timed)
  {}

  lemma NullsExplained<T(!new)>(ops: seq<Op<T>>, op: Op<T>, a: Answer<T>)
    requires Good(Run(ops).0, Run(ops).1) && (Run(ops).0.closed <==> Closed(ops))
    requires forall v | v in Run(ops).0.waiters :: WaiterOf(ops, v)
    requires a in Step(Run(ops).0, op).1 && a.value.None?
    ensures NullOf(ops + [op], a.call)
  {
    var s := Run(ops).0;
    hide Run, Closed, WaiterOf, NullOf, Good;
    match op {
      case Push(_) =>
      case Shift(wait) => NewCall(ops, wait);
      case Timer(call) =>
        var i :| 0 <= i < |s.waiters| && s.waiters[i].call == call && s.waiters[i].timed;
        assert s.waiters[i] in s.waiters;
        WaiterStays(ops, op, s.waiters[i]);
      case Close =>
        var i :| 0 <= i < |s.waiters| && Nulls<T>(s.waiters)[i] == a;
        assert s.waiters[i] in s.waiters;
        WaiterStays(ops, op, s.waiters[i]);
    }
  }

  lemma {:induction false} RunExplained<T(!new)>(ops: seq<Op<T>>)
    ensures Explained(ops)
    decreases |ops|
  {
    if ops != [] {
      var before, op := ops[..|ops| - 1], ops[|ops| - 1];
      assert ops == before + [op];
      RunExplained(before);
      RunGood(before);
      RunClosed(before);
      RunSnoc(before, op);
      var s, answers := Run(before).0, Run(before).1;
      hide Run, Good, Step, WaiterOf, NullOf, Closed;
      forall i | 0 <= i < |Run(ops).0.waiters|
        ensures WaiterOf(ops, Run(ops).0.waiters[i])
      {
        WaitersExplained(before, op, Run(ops).0.waiters[i]);
      }
      forall i | 0 <= i < |Run(ops).1| && Run(ops).1[i].value.None?
        ensures NullOf(ops, Run(ops).1[i].call)
      {
        if i < |answers| {
          NullStays(before, op, answers[i].call);
        } else {
          NullsExplained(before, op, Run(ops).1[i]);
        }
      }
    }
  }

  // ---- a call, from its step on

  lemma StepCalls<T(!new)>(s: State<T>, op: Op<T>)
    ensures Step(s, op).0.calls == s.calls + if op.Shift? then 1 else 0
  {}

  lemma {:induction false} CallsGrow<T(!new)>(ops: seq<Op<T>>, k: nat, n: nat)
    requires k < n <= |ops| && ops[k].Shift?
    ensures Run(ops[..n]).0.calls > Run(ops[..k]).0.calls
    decreases n
  {
    assert ops[..n] == ops[..n - 1] + [ops[n - 1]];
    RunSnoc(ops[..n - 1], ops[n - 1]);
    StepCalls(Run(ops[..n - 1]).0, ops[n - 1]);
    hide Run, Step;
    if n > k + 1 {
      CallsGrow(ops, k, n - 1);
    }
  }

  /** A call is made at one step. */
  lemma MadeOnce<T(!new)>(ops: seq<Op<T>>, k: nat, l: nat, c: nat, v: Wait, w: Wait)
    requires MadeBy(ops, k, c, v) && MadeBy(ops, l, c, w)
    ensures k == l
  {
    if k < l {
      CallsGrow(ops, k, l);
    } else if l < k {
      CallsGrow(ops, l, k);
    }
  }

  /**
   * In every run: a call that waits does not poll, is not past its time, and the queue is open; a call that got null
   * polled, had its timer go off after it was made, or was overtaken by the close. Every call waits or was answered.
   */
  lemma CallExplained<T(!new)>(ops: seq<Op<T>>, k: nat, c: nat, wait: Wait)
    requires MadeBy(ops, k, c, wait)
    ensures var (s, answers) := Run(ops);
            && Waiting(s.waiters, c) != Answered(answers, c)
            && (Waiting(s.waiters, c) ==> !wait.Poll? && !Closed(ops) && !(wait.Timed? && Rings(ops, k, c)))
            && (forall i | 0 <= i < |answers| && answers[i] == Answer(c, None) ::
                  wait.Poll? || Closed(ops) || (wait.Timed? && Rings(ops, k, c)))
  {
    RunExplained(ops);
    RunGood(ops);
    CallsGrow(ops, k, |ops|);
    assert ops[..|ops|] == ops;
    var (s, answers) := Run(ops);
    hide Run, Closed, Rings;
    if i :| 0 <= i < |s.waiters| && s.waiters[i].call == c {
      assert WaiterOf(ops, s.waiters[i]);
      var l: nat, v :| MadeBy(ops, l, c, v) && !Over(ops, l, c, v) && s.waiters[i].timed == v.Timed?;
      MadeOnce(ops, k, l, c, wait, v);
    }
    forall i | 0 <= i < |answers| && answers[i] == Answer(c, None)
      ensures Over(ops, k, c, wait)
    {
      assert NullOf(ops, answers[i].call);
      var l: nat, v :| MadeBy(ops, l, c, v) && Over(ops, l, c, v);
      MadeOnce(ops, k, l, c, wait, v);
    }
  }
}
