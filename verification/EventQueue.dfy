/** The queue between an event stream and the calls that read it: `AsyncEventQueue` (src/kevent_client.ts). */
module EventQueue {
  import opened Wrappers

  /** How long a `shift` is ready to wait: a timeout of 0, a positive one, or none. */
  datatype Wait = Poll | Timed | Forever

  /** A pending `shift` call. Calls are numbered in the order they are made. */
  datatype Waiter = Waiter(call: nat, timed: bool)

  /** The value a call's promise resolves to; None is the `null` of a timeout or of a closed queue. */
  datatype Answer<T> = Answer(call: nat, value: Option<T>)

  datatype Op<T> = Push(item: T) | Shift(wait: Wait) | Timer(call: nat) | Close

  datatype State<T> = State(items: seq<T>, waiters: seq<Waiter>, closed: bool, calls: nat)

  function Nulls<T>(waiters: seq<Waiter>): (r: seq<Answer<T>>)
    ensures |r| == |waiters| && forall i | 0 <= i < |r| :: r[i] == Answer(waiters[i].call, None)
  {
    seq(|waiters|, i requires 0 <= i < |waiters| => Answer(waiters[i].call, None))
  }

  predicate Waiting(waiters: seq<Waiter>, call: nat) { exists i | 0 <= i < |waiters| :: waiters[i].call == call }

  /** `splice` out the waiter of a call. */
  function Without(waiters: seq<Waiter>, call: nat): seq<Waiter> {
    if waiters == [] then []
    else if waiters[0].call == call then waiters[1..]
    else [waiters[0]] + Without(waiters[1..], call)
  }

  /** A timer fires only for a call that still waits and has one; the timers of answered calls are cleared. */
  predicate Fires(waiters: seq<Waiter>, call: nat) {
    exists i | 0 <= i < |waiters| :: waiters[i].call == call && waiters[i].timed
  }

  /** What one operation does: the new state and the answers it gives, in order. */
  function Step<T>(s: State<T>, op: Op<T>): (State<T>, seq<Answer<T>>) {
    match op
    case Push(item) =>
      if s.closed then (s, [])
      else if s.waiters != [] then (s.(waiters := s.waiters[1..]), [Answer(s.waiters[0].call, Some(item))])
      else (s.(items := s.items + [item]), [])
    case Shift(wait) =>
      var call, t := s.calls, s.(calls := s.calls + 1);
      if s.items != [] then (t.(items := s.items[1..]), [Answer(call, Some(s.items[0]))])
      else if s.closed || wait.Poll? then (t, [Answer(call, None)])
      else (t.(waiters := s.waiters + [Waiter(call, wait.Timed?)]), [])
    case Timer(call) =>
      if Fires(s.waiters, call) then (s.(waiters := Without(s.waiters, call)), [Answer(call, None)]) else (s, [])
    case Close =>
      if s.closed then (s, []) else (s.(waiters := [], closed := true), Nulls(s.waiters))
  }

  lemma {:induction false} WithoutAt(waiters: seq<Waiter>, call: nat, i: nat)
    requires i < |waiters| && waiters[i].call == call && forall j | 0 <= j < i :: waiters[j].call != call
    ensures Without(waiters, call) == waiters[..i] + waiters[i + 1..]
  {
    if i > 0 {
      assert forall j | 0 <= j < i - 1 :: waiters[1..][j] == waiters[j + 1];
      WithoutAt(waiters[1..], call, i - 1);
      assert [waiters[0]] + waiters[1..][..i - 1] == waiters[..i];
      assert waiters[1..][i..] == waiters[i + 1..];
    }
  }

  // ---- the class

  class AsyncEventQueue<T(==)> {
    var items: seq<T>
    var waiters: seq<Waiter>
    var closed: bool
    var calls: nat

    function Now(): State<T>
      reads this
    {
      State(items, waiters, closed, calls)
    }

    constructor ()
      ensures Now() == Initial()
    {
      items, waiters, closed, calls := [], [], false, 0;
    }

    method PushItem(item: T) returns (answers: seq<Answer<T>>)
      modifies this
      ensures (Now(), answers) == Step(old(Now()), Push(item))
    {
      answers := [];
      if closed {
        return;
      }
      if waiters != [] {
        var waiter := waiters[0];
        waiters := waiters[1..];
        return [Answer(waiter.call, Some(item))];
      }
      items := items + [item];
    }

    method ShiftItem(wait: Wait) returns (answers: seq<Answer<T>>)
      modifies this
      ensures (Now(), answers) == Step(old(Now()), Shift(wait))
    {
      var call := calls;
      calls := calls + 1;
      if |items| > 0 {
        var item := items[0];
        items := items[1..];
        return [Answer(call, Some(item))];
      }
      if closed {
        return [Answer(call, None)];
      }
      if wait.Poll? {
        return [Answer(call, None)];
      }
      waiters := waiters + [Waiter(call, wait.Timed?)];
      return [];
    }

    method FireTimer(call: nat) returns (answers: seq<Answer<T>>)
      modifies this
      ensures (Now(), answers) == Step(old(Now()), Timer(call))
    {
      if !Fires(waiters, call) {
        return [];
      }
      var i := 0;
      ghost var k :| 0 <= k < |waiters| && waiters[k].call == call && waiters[k].timed;
      while waiters[i].call != call
        invariant 0 <= i <= k && forall j | 0 <= j < i :: waiters[j].call != call
        decreases k - i
      {
        i := i + 1;
      }
      WithoutAt(waiters, call, i);
      waiters := waiters[..i] + waiters[i + 1..];
      return [Answer(call, None)];
    }

    method CloseQueue() returns (answers: seq<Answer<T>>)
      modifies this
      ensures (Now(), answers) == Step(old(Now()), Close)
    {
      answers := [];
      if closed {
        return;
      }
      closed := true;
      ghost var all := waiters;
      while |waiters| > 0
        invariant |all| == |answers| + |waiters| && waiters == all[|answers|..] && answers == Nulls(all[..|answers|])
        invariant items == old(items) && calls == old(calls) && closed
      {
        var waiter := waiters[0];
        waiters := waiters[1..];
        assert all[..|answers| + 1] == all[..|answers|] + [waiter];
        answers := answers + [Answer(waiter.call, None)];
      }
      assert all[..|answers|] == all;
    }
  }

  // ---- whole runs

  function Initial<T>(): State<T> { State([], [], false, 0) }

  /** The state and all answers, in order, after any sequence of operations on a new queue. */
  function Run<T>(ops: seq<Op<T>>): (State<T>, seq<Answer<T>>) {
    if ops == [] then (Initial(), [])
    else
      var (s, answers) := Run(ops[..|ops| - 1]);
      var (t, more) := Step(s, ops[|ops| - 1]);
      (t, answers + more)
  }

  predicate Closed<T>(ops: seq<Op<T>>) { exists i | 0 <= i < |ops| :: ops[i].Close? }

  /** The values pushed before the first close, in order. */
  function Accepted<T>(ops: seq<Op<T>>): seq<T> {
    if ops == [] then []
    else
      var before, last := ops[..|ops| - 1], ops[|ops| - 1];
      Accepted(before) + if last.Push? && !Closed(before) then [last.item] else []
  }

  /** The values handed out, in the order of their answers. */
  function HandedOut<T>(answers: seq<Answer<T>>): seq<T> {
    if answers == [] then []
    else
      var last := answers[|answers| - 1];
      HandedOut(answers[..|answers| - 1]) + if last.value.Some? then [last.value.value] else []
  }

  predicate Answered<T>(answers: seq<Answer<T>>, call: nat) { exists i | 0 <= i < |answers| :: answers[i].call == call }

  /** What every run keeps. */
  ghost predicate Good<T>(s: State<T>, answers: seq<Answer<T>>) {
    && (s.items == [] || s.waiters == [])
    && (s.closed ==> s.waiters == [])
    && (forall i, j | 0 <= i < j < |s.waiters| :: s.waiters[i].call < s.waiters[j].call)
    && (forall i, j | 0 <= i < j < |answers| :: answers[i].call != answers[j].call)
    && (forall c: nat :: c < s.calls <==> (Waiting(s.waiters, c) || Answered(answers, c)))
    && (forall c: nat :: !(Waiting(s.waiters, c) && Answered(answers, c)))
    && (forall i, j | 0 <= i < j < |answers| && answers[i].value.Some? && answers[j].value.Some? ::
           answers[i].call < answers[j].call)
    && (forall i, j | 0 <= i < |answers| && 0 <= j < |s.waiters| && answers[i].value.Some? ::
           answers[i].call < s.waiters[j].call)
  }

  lemma {:induction false} WithoutCalls(waiters: seq<Waiter>, call: nat)
    requires forall i, j | 0 <= i < j < |waiters| :: waiters[i].call < waiters[j].call
    ensures var w := Without(waiters, call);
            && (forall i, j | 0 <= i < j < |w| :: w[i].call < w[j].call)
            && (forall c: nat :: Waiting(w, c) <==> Waiting(waiters, c) && c != call)
            && (forall i | 0 <= i < |w| :: w[i] in waiters)
  {
    if waiters != [] {
      var rest := waiters[1..];
      var w := Without(waiters, call);
      WaitingCons(waiters);
      if waiters[0].call == call {
        assert forall i | 0 <= i < |rest| :: rest[i] == waiters[i + 1];
      } else {
        assert forall i, j | 0 <= i < j < |rest| :: rest[i] == waiters[i + 1] && rest[j] == waiters[j + 1];
        WithoutCalls(rest, call);
        WaitingCons(w);
        assert w[1..] == Without(rest, call);
        forall i | 0 < i < |w|
          ensures w[i] in rest && waiters[0].call < w[i].call
        {
          assert w[i] == Without(rest, call)[i - 1];
        }
      }
    }
  }

  lemma WaitingCons(waiters: seq<Waiter>)
    requires waiters != []
    ensures forall c: nat :: Waiting(waiters, c) <==> c == waiters[0].call || Waiting(waiters[1..], c)
  {
    forall c: nat
      ensures Waiting(waiters, c) <==> c == waiters[0].call || Waiting(waiters[1..], c)
    {
      if Waiting(waiters[1..], c) {
        var i :| 0 <= i < |waiters[1..]| && waiters[1..][i].call == c;
        assert waiters[i + 1].call == c;
      }
      if Waiting(waiters, c) {
        var i :| 0 <= i < |waiters| && waiters[i].call == c;
        assert i > 0 ==> waiters[1..][i - 1].call == c;
      }
    }
  }

  lemma AnsweredSnoc<T>(answers: seq<Answer<T>>, a: Answer<T>)
    ensures forall c: nat :: Answered(answers + [a], c) <==> Answered(answers, c) || c == a.call
  {
    var all := answers + [a];
    forall c: nat
      ensures Answered(all, c) <==> Answered(answers, c) || c == a.call
    {
      if Answered(answers, c) {
        var i :| 0 <= i < |answers| && answers[i].call == c;
        assert all[i].call == c;
      }
      assert all[|answers|] == a;
    }
  }

  lemma WaitingSnoc(waiters: seq<Waiter>, w: Waiter)
    ensures forall c: nat :: Waiting(waiters + [w], c) <==> Waiting(waiters, c) || c == w.call
  {
    var all := waiters + [w];
    forall c: nat
      ensures Waiting(all, c) <==> Waiting(waiters, c) || c == w.call
    {
      if Waiting(waiters, c) {
        var i :| 0 <= i < |waiters| && waiters[i].call == c;
        assert all[i].call == c;
      }
      assert all[|waiters|] == w;
    }
  }

  lemma EachAnswered<T>(answers: seq<Answer<T>>)
    ensures forall i | 0 <= i < |answers| :: Answered(answers, answers[i].call)
  {}

  lemma EachWaiting(waiters: seq<Waiter>)
    ensures forall i | 0 <= i < |waiters| :: Waiting(waiters, waiters[i].call)
  {}

  lemma PushGood<T>(s: State<T>, answers: seq<Answer<T>>, item: T)
    requires Good(s, answers)
    ensures var (t, more) := Step(s, Push(item)); Good(t, answers + more)
  {
    if s.waiters != [] {
      assert !Waiting(s.waiters[1..], s.waiters[0].call);
    }
    hide Waiting, Answered;
    if s.closed || s.waiters == [] {
      assert answers + [] == answers;
    } else {
      var a := Answer(s.waiters[0].call, Some(item));
      WaitingCons(s.waiters);
      AnsweredSnoc(answers, a);
      EachAnswered(answers);
      EachWaiting(s.waiters);
      EachWaiting(s.waiters[1..]);
    }
  }

  lemma ShiftGood<T>(s: State<T>, answers: seq<Answer<T>>, wait: Wait)
    requires Good(s, answers)
    ensures var (t, more) := Step(s, Shift(wait)); Good(t, answers + more)
  {
    hide Waiting, Answered;
    var (t, more) := Step(s, Shift(wait));
    EachAnswered(answers);
    EachWaiting(s.waiters);
    if more != [] {
      AnsweredSnoc(answers, more[0]);
    } else {
      assert answers + [] == answers;
      WaitingSnoc(s.waiters, Waiter(s.calls, wait.Timed?));
    }
  }

  lemma TimerGood<T>(s: State<T>, answers: seq<Answer<T>>, call: nat)
    requires Good(s, answers)
    ensures var (t, more) := Step(s, Timer(call)); Good(t, answers + more)
  {
    if Fires(s.waiters, call) {
      AnsweredSnoc(answers, Answer(call, None));
      WithoutCalls(s.waiters, call);
      assert Waiting(s.waiters, call);
      EachAnswered(answers);
    } else {
      assert answers + [] == answers;
    }
  }

  lemma AnsweredNulls<T>(answers: seq<Answer<T>>, waiters: seq<Waiter>)
    ensures forall c: nat :: Answered(answers + Nulls(waiters), c) <==> Answered(answers, c) || Waiting(waiters, c)
  {
    var all := answers + Nulls(waiters);
    forall c: nat
      ensures Answered(all, c) <==> Answered(answers, c) || Waiting(waiters, c)
    {
      if Answered(answers, c) {
        var i :| 0 <= i < |answers| && answers[i].call == c;
        assert all[i].call == c;
      }
      if Waiting(waiters, c) {
        var i :| 0 <= i < |waiters| && waiters[i].call == c;
        assert all[|answers| + i].call == c;
      }
    }
  }

  lemma CloseGood<T>(s: State<T>, answers: seq<Answer<T>>)
    requires Good(s, answers)
    ensures var (t, more) := Step(s, Close); Good(t, answers + more)
  {
    if s.closed {
      assert answers + [] == answers;
    } else {
      AnsweredNulls(answers, s.waiters);
      EachAnswered(answers);
      EachWaiting(s.waiters);
      NobodyWaits();
      hide Waiting, Answered;
      var all := answers + Nulls<T>(s.waiters);
      forall i, j | 0 <= i < j < |all|
        ensures all[i].call != all[j].call
      {
        assert i >= |answers| ==> all[i].call == s.waiters[i - |answers|].call;
        assert j >= |answers| ==> all[j].call == s.waiters[j - |answers|].call;
      }
    }
  }

  lemma NobodyWaits()
    ensures forall c: nat :: !Waiting([], c)
  {}

  /**
   * In every run: values and waiters are never both queued; every call made is either still waiting or answered
   * exactly once; and calls are served first come, first served, so no call that waits is overtaken.
   */
  lemma {:induction false} RunGood<T>(ops: seq<Op<T>>)
    ensures Good(Run(ops).0, Run(ops).1)
    decreases |ops|
  {
    if ops != [] {
      var before, last := ops[..|ops| - 1], ops[|ops| - 1];
      RunGood(before);
      var (s, answers) := Run(before);
      match last
      case Push(item) => PushGood(s, answers, item);
      case Shift(wait) => ShiftGood(s, answers, wait);
      case Timer(call) => TimerGood(s, answers, call);
      case Close => CloseGood(s, answers);
    }
  }

  lemma {:induction false} HandedOutNulls<T>(answers: seq<Answer<T>>, more: seq<Answer<T>>)
    requires forall i | 0 <= i < |more| :: more[i].value.None?
    ensures HandedOut(answers + more) == HandedOut(answers)
    decreases |more|
  {
    if more == [] {
      assert answers + more == answers;
    } else {
      HandedOutNulls(answers, more[..|more| - 1]);
      assert (answers + more)[..|answers + more| - 1] == answers + more[..|more| - 1];
    }
  }

  lemma HandedOutSnoc<T>(answers: seq<Answer<T>>, a: Answer<T>)
    ensures HandedOut(answers + [a]) == HandedOut(answers) + if a.value.Some? then [a.value.value] else []
  {
    assert (answers + [a])[..|answers|] == answers;
  }

  lemma {:induction false} RunClosed<T>(ops: seq<Op<T>>)
    ensures Run(ops).0.closed <==> Closed(ops)
    decreases |ops|
  {
    if ops != [] {
      var before := ops[..|ops| - 1];
      RunClosed(before);
      if Closed(before) {
        var i :| 0 <= i < |before| && before[i].Close?;
        assert ops[i].Close?;
      }
      if Closed(ops) && !ops[|ops| - 1].Close? {
        var i :| 0 <= i < |ops| && ops[i].Close?;
        assert before[i].Close?;
      }
    }
  }

  lemma StepConserves<T>(s: State<T>, answers: seq<Answer<T>>, op: Op<T>, accepted: seq<T>)
    requires s.items == [] || s.waiters == []
    requires HandedOut(answers) + s.items == accepted
    ensures var (t, more) := Step(s, op);
            HandedOut(answers + more) + t.items == accepted + if op.Push? && !s.closed then [op.item] else []
  {
    hide HandedOut;
    var (t, more) := Step(s, op);
    if op.Push? && !s.closed && s.waiters != [] {
      HandedOutSnoc(answers, more[0]);
    } else if op.Shift? && s.items != [] {
      HandedOutSnoc(answers, more[0]);
      assert s.items == [s.items[0]] + t.items;
    } else {
      HandedOutNulls(answers, more);
    }
  }

  /**
   * Nothing is lost, repeated or reordered: what was handed out, then what is queued, is what was pushed before close.
   */
  lemma {:induction false} Conservation<T>(ops: seq<Op<T>>)
    ensures HandedOut(Run(ops).1) + Run(ops).0.items == Accepted(ops)
    decreases |ops|
  {
    hide Step, HandedOut, Closed;
    if ops != [] {
      var before, last := ops[..|ops| - 1], ops[|ops| - 1];
      Conservation(before);
      RunGood(before);
      RunClosed(before);
      var (s, answers) := Run(before);
      StepConserves(s, answers, last, Accepted(before));
    } else {
      HandedOutNone<T>();
    }
  }

  lemma HandedOutNone<T>()
    ensures HandedOut<T>([]) == []
  {}
}
