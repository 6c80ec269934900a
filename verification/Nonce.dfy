/** Local transactions of the name service and their nonces (src/bns_tx_executor.ts, src/bns_evm_tx.ts). */
module Nonce {
  import opened Wrappers

  // `enqueueLocalExecution`, `executeLocally` and the cached nonce of `BnsEvmTxBuilder`, step by step between the
  // points where the code awaits. The chain accepts a transaction whose nonce is the account's pending count.

  /**
   * How far an execution is. A nonce fetch samples the pending count some time before it answers; a submitted
   * transaction reaches the pool, or not, before the submit ends.
   */
  datatype Phase =
    | Queued
    | Preparing
    | Fetching(sample: Option<nat>)
    | Signing(nonce: nat)
    | Submitting(nonce: nat, inPool: bool)
    | Settled(ok: bool)

  /** `after` is the promise the execution was chained to: the tail when it was enqueued. */
  datatype Task = Task(after: Option<nat>, phase: Phase)

  datatype Signature = Signature(nonce: nat, pending: nat)

  datatype State = State(
    tasks: seq<Task>,
    tail: Option<nat>,
    nextNonce: Option<nat>,
    pending: nat,
    started: seq<nat>,
    signed: seq<Signature>,
    accepted: seq<nat>,
    rejected: nat)

  datatype Op =
    | Enqueue
    | Start(task: nat)
    | Prepared(task: nat, ok: bool)
    | Sample(task: nat)
    | Fetched(task: nat, ok: bool)
    | Signed(task: nat, ok: bool)
    | Arrive(task: nat)
    | SubmitReturns(task: nat)
    | SubmitThrows(task: nat)
    | OtherSender

  function Initial(pending: nat): State { State([], None, None, pending, [], [], [], 0) }

  predicate IsSettled(s: State, after: Option<nat>) {
    after.None? || (after.value < |s.tasks| && s.tasks[after.value].phase.Settled?)
  }

  function Become(s: State, i: nat, phase: Phase): State
    requires i < |s.tasks|
  {
    s.(tasks := s.tasks[i := s.tasks[i].(phase := phase)])
  }

  /** Any failure inside an execution drops the cached nonce. */
  function FailTask(s: State, i: nat): State
    requires i < |s.tasks|
  {
    Become(s.(nextNonce := None), i, Settled(false))
  }

  /** `nonce = this.nextNonce; this.nextNonce += 1`. */
  function Take(s: State, i: nat, n: nat): State
    requires i < |s.tasks|
  {
    Become(s.(nextNonce := Some(n + 1)), i, Signing(n))
  }

  /** One step; an operation that is not possible changes nothing. */
  function Step(s: State, op: Op): State {
    match op
    case Enqueue => s.(tasks := s.tasks + [Task(s.tail, Queued)], tail := Some(|s.tasks|))
    case OtherSender => s.(pending := s.pending + 1)
    case _ => if op.task < |s.tasks| then TaskStep(s, op, op.task) else s
  }

  function TaskStep(s: State, op: Op, i: nat): State
    requires i < |s.tasks|
  {
    match (op, s.tasks[i].phase)
    case (Start(_), Queued) =>
      if IsSettled(s, s.tasks[i].after) then Become(s.(started := s.started + [i]), i, Preparing) else s
    case (Prepared(_, ok), Preparing) =>
      if !ok then FailTask(s, i)
      else if s.nextNonce.Some? then Take(s, i, s.nextNonce.value)
      else Become(s, i, Fetching(None))
    case (Sample(_), Fetching(None)) => Become(s, i, Fetching(Some(s.pending)))
    case (Fetched(_, ok), Fetching(sample)) =>
      if !ok then FailTask(s, i) else if sample.Some? then Take(s, i, sample.value) else s
    case (Signed(_, ok), Signing(n)) =>
      if !ok then FailTask(s, i)
      else Become(s.(signed := s.signed + [Signature(n, s.pending)]), i, Submitting(n, false))
    case (Arrive(_), Submitting(n, false)) =>
      if n == s.pending then Become(s.(pending := s.pending + 1, accepted := s.accepted + [n]), i, Submitting(n, true))
      else s.(rejected := s.rejected + 1)
    case (SubmitReturns(_), Submitting(n, true)) => Become(s, i, Settled(true))
    case (SubmitThrows(_), Submitting(n, _)) => FailTask(s, i)
    case _ => s
  }

  function Run(pending: nat, ops: seq<Op>): State {
    if ops == [] then Initial(pending) else Step(Run(pending, ops[..|ops| - 1]), ops[|ops| - 1])
  }

  // ---- the promise chain

  predicate IsRunning(p: Phase) { !p.Queued? && !p.Settled? }

  /** Each task is chained to the one before it, and a task leaves the queue only when all before it are settled. */
  ghost predicate ChainInv(s: State) {
    && s.tail == (if s.tasks == [] then None else Some(|s.tasks| - 1))
    && (forall i | 0 <= i < |s.tasks| :: s.tasks[i].after == if i == 0 then None else Some(i - 1))
    && (forall i, j | 0 <= i < j < |s.tasks| && !s.tasks[j].phase.Queued? :: s.tasks[i].phase.Settled?)
    && |s.started| <= |s.tasks|
    && (forall k | 0 <= k < |s.started| :: s.started[k] == k)
    && (forall i | 0 <= i < |s.tasks| :: s.tasks[i].phase.Queued? <==> i >= |s.started|)
  }

  lemma ChainStep(s: State, op: Op)
    requires ChainInv(s)
    ensures ChainInv(Step(s, op))
  {
    if !op.Enqueue? && !op.OtherSender? && op.task < |s.tasks| {
      ChainTaskStep(s, op, op.task);
    }
  }

  lemma ChainTaskStep(s: State, op: Op, i: nat)
    requires ChainInv(s) && i < |s.tasks|
    ensures ChainInv(TaskStep(s, op, i))
  {
    var t := TaskStep(s, op, i);
    if op.Start? && s.tasks[i].phase.Queued? && IsSettled(s, s.tasks[i].after) {
      assert i > 0 ==> !s.tasks[i - 1].phase.Queued?;
      assert i == |s.started|;
    } else {
      assert s.tasks[i].phase.Queued? ==> t == s;
      ChainKept(s, t, i);
    }
  }

  /** A move within a running execution leaves the chain as it is. */
  lemma ChainKept(s: State, t: State, i: nat)
    requires ChainInv(s) && i < |s.tasks|
    requires t.tail == s.tail && t.started == s.started
    requires |t.tasks| == |s.tasks| && t.tasks[i].after == s.tasks[i].after
    requires t == s || (IsRunning(s.tasks[i].phase) && !t.tasks[i].phase.Queued?)
    requires forall k | 0 <= k < |s.tasks| && k != i :: t.tasks[k] == s.tasks[k]
    ensures ChainInv(t)
  {}

  lemma {:induction false} RunChain(pending: nat, ops: seq<Op>)
    ensures ChainInv(Run(pending, ops))
    decreases |ops|
  {
    if ops != [] {
      RunChain(pending, ops[..|ops| - 1]);
      ChainStep(Run(pending, ops[..|ops| - 1]), ops[|ops| - 1]);
    }
  }

  /** In every run executions never overlap, and they start one by one in the order they were enqueued. */
  lemma NoOverlap(pending: nat, ops: seq<Op>, i: nat, j: nat)
    requires i < j < |Run(pending, ops).tasks|
    ensures var s := Run(pending, ops);
            && (IsRunning(s.tasks[j].phase) ==> s.tasks[i].phase.Settled?)
            && (IsRunning(s.tasks[i].phase) ==> s.tasks[j].phase.Queued?)
            && (forall k | 0 <= k < |s.started| :: s.started[k] == k)
  {
    RunChain(pending, ops);
  }

  // ---- the nonce

  /** The step reads the pending count for an execution that fetches it. */
  predicate Reads(s: State, op: Op) { op.Sample? && op.task < |s.tasks| && s.tasks[op.task].phase == Fetching(None) }

  /** How many transactions of other senders came in since the pending count was last read. */
  function Drift(base: nat, ops: seq<Op>): nat {
    if ops == [] then 0
    else
      var before, op := ops[..|ops| - 1], ops[|ops| - 1];
      if op.OtherSender? then Drift(base, before) + 1 else if Reads(Run(base, before), op) then 0
          else Drift(base, before)
  }

  /** What a running execution knows about the chain is behind it by the drift. */
  predicate PhaseBehind(p: Phase, nextNonce: Option<nat>, pending: nat, drift: nat) {
    match p
    case Queued => true
    case Settled(_) => true
    case Preparing => nextNonce.None? || nextNonce.value + drift == pending
    case Fetching(sample) => nextNonce.None? && (sample.None? || sample.value + drift == pending)
    case Signing(n) => n + drift == pending && nextNonce == Some(n + 1)
    case Submitting(n, inPool) => nextNonce == Some(n + 1) && n + drift + (if inPool then 1 else 0) == pending
  }

  /** In every execution, and between executions, the nonce at hand is behind the pending count by the drift. */
  ghost predicate NonceInv(s: State, drift: nat) {
    && (forall i | 0 <= i < |s.tasks| :: PhaseBehind(s.tasks[i].phase, s.nextNonce, s.pending, drift))
    && ((forall i | 0 <= i < |s.tasks| :: !IsRunning(s.tasks[i].phase)) ==>
           s.nextNonce.None? || s.nextNonce.value + drift == s.pending)
  }

  lemma NonceStep(s: State, op: Op, drift: nat)
    requires ChainInv(s) && NonceInv(s, drift)
    ensures NonceInv(Step(s, op), if op.OtherSender? then drift + 1 else if Reads(s, op) then 0 else drift)
  {
    if op.Enqueue? {
      var t := Step(s, op);
      if forall i | 0 <= i < |t.tasks| :: !IsRunning(t.tasks[i].phase) {
        assert forall i | 0 <= i < |s.tasks| :: s.tasks[i] == t.tasks[i];
      }
    } else if op.OtherSender? {
      assert forall i | 0 <= i < |s.tasks| :: PhaseBehind(s.tasks[i].phase, s.nextNonce, s.pending + 1, drift + 1);
    } else if op.task < |s.tasks| {
      NonceTaskStep(s, op, op.task, drift);
    }
  }

  /** While one execution runs, the others say nothing about the chain. */
  lemma OthersQuiet(s: State, i: nat)
    requires ChainInv(s) && i < |s.tasks|
    requires IsRunning(s.tasks[i].phase) || (s.tasks[i].phase.Queued? && IsSettled(s, s.tasks[i].after))
    ensures forall k | 0 <= k < |s.tasks| && k != i :: !IsRunning(s.tasks[k].phase)
  {
    if s.tasks[i].phase.Queued? && i > 0 {
      assert s.tasks[i - 1].phase.Settled?;
      assert i == |s.started|;
    }
  }

  lemma NonceTaskStep(s: State, op: Op, i: nat, drift: nat)
    requires ChainInv(s) && NonceInv(s, drift) && i < |s.tasks| && !op.Enqueue? && !op.OtherSender? && op.task == i
    ensures NonceInv(TaskStep(s, op, i), if Reads(s, op) then 0 else drift)
  {
    var t := TaskStep(s, op, i);
    if t != s {
      OthersQuiet(s, i);
      hide ChainInv;
      assert forall k | 0 <= k < |s.tasks| && k != i :: t.tasks[k] == s.tasks[k] && !IsRunning(t.tasks[k].phase);
      NoncePhase(s, op, i, drift);
      if IsRunning(t.tasks[i].phase) {
        assert !(forall k | 0 <= k < |t.tasks| :: !IsRunning(t.tasks[k].phase));
      }
    }
  }

  /** The execution that moves is behind the chain by the drift after its move. */
  lemma NoncePhase(s: State, op: Op, i: nat, drift: nat)
    requires NonceInv(s, drift) && i < |s.tasks| && TaskStep(s, op, i) != s
    requires !op.Enqueue? && !op.OtherSender? && op.task == i
    requires forall k | 0 <= k < |s.tasks| && k != i :: !IsRunning(s.tasks[k].phase)
    ensures var t, after := TaskStep(s, op, i), if Reads(s, op) then 0 else drift;
            && PhaseBehind(t.tasks[i].phase, t.nextNonce, t.pending, after)
            && (!IsRunning(t.tasks[i].phase) ==> t.nextNonce.None? || t.nextNonce.value + after == t.pending)
  {
    assert PhaseBehind(s.tasks[i].phase, s.nextNonce, s.pending, drift);
    if s.tasks[i].phase.Queued? {
      assert forall k | 0 <= k < |s.tasks| :: !IsRunning(s.tasks[k].phase);
    }
  }

  lemma {:induction false} RunNonce(base: nat, ops: seq<Op>)
    ensures NonceInv(Run(base, ops), Drift(base, ops))
    decreases |ops|
  {
    if ops != [] {
      var before := ops[..|ops| - 1];
      RunNonce(base, before);
      RunChain(base, before);
      hide ChainInv, NonceInv;
      NonceStep(Run(base, before), ops[|ops| - 1], Drift(base, before));
    }
  }

  lemma RunNext(base: nat, ops: seq<Op>, op: Op)
    ensures Run(base, ops + [op]) == Step(Run(base, ops), op)
  {
    assert (ops + [op])[..|ops|] == ops;
  }

  /** The step signs a nonce. */
  predicate Signs(s: State, op: Op) { op.Signed? && op.ok && op.task < |s.tasks| && s.tasks[op.task].phase.Signing? }

  /** The step is the arrival of a transaction that the chain has not taken yet. */
  predicate Arrives(s: State, op: Op) {
    op.Arrive? && op.task < |s.tasks| && s.tasks[op.task].phase.Submitting? && !s.tasks[op.task].phase.inPool
  }

  /**
   * In every run, whoever else sends: a nonce is the pending count when it is signed exactly when no other sender's
   * transaction came in since the count was read; otherwise it is behind by their number.
   */
  lemma SignedIff(base: nat, ops: seq<Op>, op: Op)
    requires Signs(Run(base, ops), op)
    ensures var s, t := Run(base, ops), Run(base, ops + [op]);
            && |t.signed| == |s.signed| + 1
            && var last := t.signed[|s.signed|];
            last.nonce + Drift(base, ops) == last.pending && (last.nonce == last.pending <==> Drift(base, ops) == 0)
  {
    RunNonce(base, ops);
    RunNext(base, ops, op);
    var s := Run(base, ops);
    assert PhaseBehind(s.tasks[op.task].phase, s.nextNonce, s.pending, Drift(base, ops));
    hide Run, Drift;
  }

  /**
   * In every run, whoever else sends: a transaction that arrives is accepted exactly when there is no drift, and
   * refused otherwise.
   */
  lemma AcceptedIff(base: nat, ops: seq<Op>, op: Op)
    requires Arrives(Run(base, ops), op)
    ensures var s, t := Run(base, ops), Run(base, ops + [op]);
            if Drift(base, ops) == 0
                then t.rejected == s.rejected && t.accepted == s.accepted + [s.pending] && t.pending == s.pending + 1
            else t.rejected == s.rejected + 1 && t.accepted == s.accepted && t.pending == s.pending
  {
    RunNonce(base, ops);
    RunNext(base, ops, op);
    var s := Run(base, ops);
    assert PhaseBehind(s.tasks[op.task].phase, s.nextNonce, s.pending, Drift(base, ops));
    hide Run, Drift;
  }

  /** No other step signs, accepts or refuses. */
  lemma OtherwiseSame(s: State, op: Op)
    ensures !Signs(s, op) ==> Step(s, op).signed == s.signed
    ensures !Arrives(s, op) ==> Step(s, op).rejected == s.rejected && Step(s, op).accepted == s.accepted
    ensures !Arrives(s, op) ==> Step(s, op).pending == s.pending + if op.OtherSender? then 1 else 0
  {}

  /** Whenever the run signs a nonce, there is no drift. */
  ghost predicate SignsInStep(base: nat, ops: seq<Op>) {
    forall k | 0 <= k < |ops| && Signs(Run(base, ops[..k]), ops[k]) :: Drift(base, ops[..k]) == 0
  }

  /** Whenever a transaction of the run arrives, there is no drift. */
  ghost predicate ArrivesInStep(base: nat, ops: seq<Op>) {
    forall k | 0 <= k < |ops| && Arrives(Run(base, ops[..k]), ops[k]) :: Drift(base, ops[..k]) == 0
  }

  ghost predicate AllSignedPending(s: State) {
    forall k | 0 <= k < |s.signed| :: s.signed[k].nonce == s.signed[k].pending
  }

  lemma InStepNext(base: nat, ops: seq<Op>)
    requires ops != []
    ensures var before, op := ops[..|ops| - 1], ops[|ops| - 1];
            && (SignsInStep(base, ops)
                <==> (SignsInStep(base, before) && (Signs(Run(base, before), op) ==> Drift(base, before) == 0)))
            && (ArrivesInStep(base, ops)
                <==> (ArrivesInStep(base, before) && (Arrives(Run(base, before), op) ==> Drift(base, before) == 0)))
  {
    hide Run, Drift, Signs, Arrives;
    var n := |ops| - 1;
    forall k | 0 <= k < n
      ensures ops[..n][..k] == ops[..k] && ops[..n][k] == ops[k]
    {}
  }

  /**
   * In every run, whoever else sends: every signed nonce was the pending count exactly when each was signed without
   * drift, and no transaction is refused exactly when each arrived without drift.
   */
  lemma {:induction false} NoncesRightIff(base: nat, ops: seq<Op>)
    ensures AllSignedPending(Run(base, ops)) <==> SignsInStep(base, ops)
    ensures Run(base, ops).rejected == 0 <==> ArrivesInStep(base, ops)
    decreases |ops|
  {
    hide Drift, Signs, Arrives, Step, SignsInStep, ArrivesInStep;
    if ops != [] {
      var before, op := ops[..|ops| - 1], ops[|ops| - 1];
      var s := Run(base, before);
      assert ops == before + [op];
      NoncesRightIff(base, before);
      InStepNext(base, ops);
      OtherwiseSame(s, op);
      if Signs(s, op) { SignedIff(base, before, op); SignedKept(s, op); }
      if Arrives(s, op) { AcceptedIff(base, before, op); }
    } else {
      NothingInStep(base);
    }
  }

  lemma NothingInStep(base: nat)
    ensures SignsInStep(base, []) && ArrivesInStep(base, [])
  {}

  lemma SignedKept(s: State, op: Op)
    ensures s.signed <= Step(s, op).signed
  {}

  /**
   * Whatever fails in an execution, the cached nonce is dropped; one that succeeds leaves it one past what it signed.
   */
  lemma FailureResets(base: nat, ops: seq<Op>, op: Op, i: nat)
    requires i < |Run(base, ops).tasks| && i < |Run(base, ops + [op]).tasks|
    requires !Run(base, ops).tasks[i].phase.Settled?
    ensures var s, t := Run(base, ops), Run(base, ops + [op]);
            && (t.tasks[i].phase == Settled(false) ==> t.nextNonce == None)
            && (t.tasks[i].phase == Settled(true) ==>
                  s.tasks[i].phase.Submitting? && s.tasks[i].phase.inPool
                  && t.nextNonce == Some(s.tasks[i].phase.nonce + 1))
  {
    RunNonce(base, ops);
    RunNext(base, ops, op);
    hide Run, Drift;
    var s := Run(base, ops);
    assert PhaseBehind(s.tasks[i].phase, s.nextNonce, s.pending, Drift(base, ops));
  }

  // ---- a sole sender

  function Others(ops: seq<Op>): nat {
    if ops == [] then 0 else Others(ops[..|ops| - 1]) + if ops[|ops| - 1].OtherSender? then 1 else 0
  }

  /** The pending count is where the account stood, what was accepted and what others sent. */
  lemma {:induction false} PendingIs(base: nat, ops: seq<Op>)
    ensures Run(base, ops).pending == base + |Run(base, ops).accepted| + Others(ops)
    decreases |ops|
  {
    hide Step;
    if ops != [] {
      var before, op := ops[..|ops| - 1], ops[|ops| - 1];
      PendingIs(base, before);
      OtherwiseSame(Run(base, before), op);
      assert ops == before + [op];
      if Arrives(Run(base, before), op) { AcceptedIff(base, before, op); }
    }
  }

  lemma {:induction false} SolePrefix(ops: seq<Op>, k: nat)
    requires Others(ops) == 0 && k <= |ops|
    ensures Others(ops[..k]) == 0
    decreases |ops|
  {
    if k < |ops| {
      SolePrefix(ops[..|ops| - 1], k);
      assert ops[..|ops| - 1][..k] == ops[..k];
    } else {
      assert ops[..k] == ops;
    }
  }

  lemma {:induction false} NoDrift(base: nat, ops: seq<Op>)
    requires Others(ops) == 0
    ensures Drift(base, ops) == 0
    decreases |ops|
  {
    if ops != [] { NoDrift(base, ops[..|ops| - 1]); }
  }

  lemma {:induction false} AcceptedConsecutive(base: nat, ops: seq<Op>)
    requires Others(ops) == 0
    ensures Run(base, ops).accepted == seq(|Run(base, ops).accepted|, k => base + k)
    decreases |ops|
  {
    hide Step;
    if ops != [] {
      var before, op := ops[..|ops| - 1], ops[|ops| - 1];
      AcceptedConsecutive(base, before);
      PendingIs(base, before);
      NoDrift(base, before);
      OtherwiseSame(Run(base, before), op);
      assert ops == before + [op];
      if Arrives(Run(base, before), op) { AcceptedIff(base, before, op); }
    }
  }

  /**
   * With no other sender, whatever steps fail: every nonce signed was the pending count when it was signed, no
   * transaction is refused, and the accepted nonces are consecutive from where the account stood.
   */
  lemma NoncesConsecutive(base: nat, ops: seq<Op>)
    requires Others(ops) == 0
    ensures var s := Run(base, ops);
            && AllSignedPending(s) && s.rejected == 0
            && s.accepted == seq(|s.accepted|, k => base + k)
            && s.pending == base + |s.accepted|
  {
    forall k | 0 <= k < |ops|
      ensures Drift(base, ops[..k]) == 0
    {
      SolePrefix(ops, k);
      NoDrift(base, ops[..k]);
    }
    NoncesRightIff(base, ops);
    AcceptedConsecutive(base, ops);
    PendingIs(base, ops);
  }

  // ---- another sender

  predicate Idle(s: State) { forall i | 0 <= i < |s.tasks| :: s.tasks[i].phase.Settled? }

  /** The steps of one more execution in which nothing fails, up to its submit; with a nonce at hand it reads none. */
  function NextExecution(k: nat): seq<Op> { [Enqueue, Start(k), Prepared(k, true), Signed(k, true)] }

  /**
   * From every idle state with a cached nonce, whatever others have sent: the next execution signs the cached nonce,
   * and its transaction is refused exactly when another sender's came in since the count was read.
   */
  lemma NextRefusedIff(base: nat, ops: seq<Op>)
    requires Idle(Run(base, ops)) && Run(base, ops).nextNonce.Some?
    ensures var s := Run(base, ops);
            var k := |s.tasks|;
            var t := Run(base, ops + NextExecution(k) + [Arrive(k)]);
            && t.signed == s.signed + [Signature(s.nextNonce.value, s.pending)]
            && t.rejected == s.rejected + if Drift(base, ops) == 0 then 0 else 1
  {
    var s := Run(base, ops);
    var k := |s.tasks|;
    UpToSubmit(base, ops);
    hide Run, Drift, ChainInv;
    AcceptedIff(base, ops + NextExecution(k), Arrive(k));
    RunNext(base, ops + NextExecution(k), Arrive(k));
    OtherwiseSame(Run(base, ops + NextExecution(k)), Arrive(k));
  }

  lemma UpToSubmit(base: nat, ops: seq<Op>)
    requires Idle(Run(base, ops)) && Run(base, ops).nextNonce.Some?
    ensures var s := Run(base, ops);
            var k := |s.tasks|;
            var t := Run(base, ops + NextExecution(k));
            && Arrives(t, Arrive(k)) && t.signed == s.signed + [Signature(s.nextNonce.value, s.pending)]
            && t.rejected == s.rejected
            && Drift(base, ops + NextExecution(k)) == Drift(base, ops)
  {
    hide Run, Drift, Step, ChainInv;
    var s := Run(base, ops);
    var k := |s.tasks|;
    RunChain(base, ops);
    FourMore(base, ops, Enqueue, Start(k), Prepared(k, true), Signed(k, true));
    ReachesSubmit(s);
  }

  lemma FourMore(base: nat, ops: seq<Op>, a: Op, b: Op, c: Op, d: Op)
    requires !a.OtherSender? && !a.Sample? && !b.OtherSender? && !b.Sample?
    requires !c.OtherSender? && !c.Sample? && !d.OtherSender? && !d.Sample?
    ensures Run(base, ops + [a, b, c, d]) == Step(Step(Step(Step(Run(base, ops), a), b), c), d)
    ensures Drift(base, ops + [a, b, c, d]) == Drift(base, ops)
  {
    hide Run, Drift, Step;
    var one, two, three := ops + [a], ops + [a] + [b], ops + [a] + [b] + [c];
    RunNext(base, ops, a);
    RunNext(base, one, b);
    RunNext(base, two, c);
    RunNext(base, three, d);
    SameDrift(base, ops, a);
    SameDrift(base, one, b);
    SameDrift(base, two, c);
    SameDrift(base, three, d);
    assert three + [d] == ops + [a, b, c, d];
  }

  lemma SameDrift(base: nat, ops: seq<Op>, op: Op)
    requires !op.OtherSender? && !op.Sample?
    ensures Drift(base, ops + [op]) == Drift(base, ops)
  {
    assert (ops + [op])[..|ops|] == ops;
  }

  lemma ReachesSubmit(s: State)
    requires s.nextNonce.Some? && Idle(s) && ChainInv(s)
    ensures var k := |s.tasks|;
            var t := Step(Step(Step(Step(s, Enqueue), Start(k)), Prepared(k, true)), Signed(k, true));
            && Arrives(t, Arrive(k)) && t.signed == s.signed + [Signature(s.nextNonce.value, s.pending)]
            && t.rejected == s.rejected
  {
    var k := |s.tasks|;
    var s2 := Step(s, Enqueue);
    assert s2.tasks[k] == Task(s.tail, Queued) && forall i | 0 <= i < k :: s2.tasks[i] == s.tasks[i];
    var s3 := Step(s2, Start(k));
    assert s3.tasks[k].phase == Preparing;
    var s4 := Step(s3, Prepared(k, true));
    assert s4.tasks[k].phase == Signing(s.nextNonce.value) && s4.pending == s.pending;
    var s5 := Step(s4, Signed(k, true));
    assert s5.tasks[k].phase == Submitting(s.nextNonce.value, false);
  }

  /** So one transaction of another sender is enough, in every run that comes to an idle state with a cached nonce. */
  lemma OtherSenderBreaks(base: nat, ops: seq<Op>)
    requires Idle(Run(base, ops)) && Run(base, ops).nextNonce.Some?
    ensures var s := Run(base, ops);
            var k := |s.tasks|;
            Run(base, ops + [OtherSender] + NextExecution(k) + [Arrive(k)]).rejected == s.rejected + 1
  {
    RunNext(base, ops, OtherSender);
    assert (ops + [OtherSender])[..|ops|] == ops;
    assert Drift(base, ops + [OtherSender]) == Drift(base, ops) + 1;
    hide Run, Drift;
    NextRefusedIff(base, ops + [OtherSender]);
  }

  /** And a transaction of another sender does no harm before the count is read: reading it makes up for all of them. */
  lemma ReadingCatchesUp(base: nat, ops: seq<Op>, i: nat)
    requires Reads(Run(base, ops), Sample(i))
    ensures Drift(base, ops + [Sample(i)]) == 0
  {
    assert (ops + [Sample(i)])[..|ops|] == ops;
  }

  // ---- one execution, as the code runs it

  /** A signed transaction handed in, and whether the call returned. */
  datatype Submission = Submission(nonce: nat, returned: bool)

  /** The account on the chain. A submit that returns is in the pool; one that fails is in the pool or never arrives. */
  class Chain {
    var pending: nat
    var accepted: seq<nat>
    var refused: nat
    /** The answers to the calls for the count, None when they failed. */
    ghost var counted: seq<Option<nat>>
    ghost var submitted: seq<Submission>

    constructor (pending: nat)
      ensures this.pending == pending && accepted == [] && refused == 0 && counted == [] && submitted == []
    {
      this.pending, accepted, refused := pending, [], 0;
      counted, submitted := [], [];
    }

    method PendingCount() returns (r: Option<nat>)
      modifies this`counted
      ensures r.Some? ==> r.value == pending
      ensures counted == old(counted) + [r]
    {
      if * { r := None; } else { r := Some(pending); }
      counted := counted + [r];
    }

    method Submit(nonce: nat) returns (ok: bool)
      modifies this`pending, this`accepted, this`refused, this`submitted
      ensures submitted == old(submitted) + [Submission(nonce, ok)]
      ensures if nonce != old(pending)
                then refused == old(refused) + 1 && pending == old(pending) && accepted == old(accepted) && !ok
              else if pending == old(pending) then accepted == old(accepted) && refused == old(refused) && !ok
              else pending == old(pending) + 1 && accepted == old(accepted) + [nonce] && refused == old(refused)
    {
      ok := false;
      if nonce != pending {
        refused := refused + 1;
      } else if * {
        pending, accepted := pending + 1, accepted + [nonce];
        ok := *;
      }
      submitted := submitted + [Submission(nonce, ok)];
    }
  }

  class TxBuilder {
    const chain: Chain
    var nextNonce: Option<nat>

    constructor (chain: Chain)
      ensures this.chain == chain && Valid() && Behind() == 0
    {
      this.chain := chain;
      nextNonce := None;
    }

    predicate Valid()
      reads this, chain
    {
      nextNonce.Some? ==> nextNonce.value <= chain.pending
    }

    /** By how many transactions of other senders the cached nonce, if there is one, is behind the pending count. */
    function Behind(): nat
      reads this, chain
      requires Valid()
    {
      if nextNonce.Some? then chain.pending - nextNonce.value else 0
    }

    method ResetNonce()
      modifies this
      ensures nextNonce == None
    {
      nextNonce := None;
    }

    /** None is a failed fetch. */
    method AllocateNonce() returns (r: Option<nat>)
      requires Valid()
      modifies this, chain`counted
      ensures r.Some? ==> r.value + old(Behind()) == chain.pending && nextNonce == Some(r.value + 1)
      ensures r.None? ==> nextNonce == old(nextNonce) == None
      ensures if old(nextNonce).Some? then r == old(nextNonce) && chain.counted == old(chain.counted)
              else chain.counted == old(chain.counted) + [r]
    {
      if nextNonce.None? {
        nextNonce := chain.PendingCount();
        if nextNonce.None? {
          return None;
        }
      }
      var nonce := nextNonce.value;
      nextNonce := Some(nonce + 1);
      return Some(nonce);
    }

    /**
     * The body `executeLocally` enqueues; `prepared` and `signs` say whether those steps succeed. The cached nonce, or
     * the count that was fetched for want of one, is signed and submitted once. However far the cached nonce was
     * behind, it is in step afterwards: being behind costs one refused transaction.
     */
    method Execute(prepared: bool, signs: bool) returns (signed: Option<nat>, ok: bool)
      requires Valid()
      modifies this, chain
      ensures Valid() && Behind() == 0
      ensures if !prepared || old(nextNonce).Some? then chain.counted == old(chain.counted)
              else |chain.counted| == |old(chain.counted)| + 1 && old(chain.counted) <= chain.counted
      ensures signed == if !prepared || !signs then None
                        else if old(nextNonce).Some? then old(nextNonce)
                        else chain.counted[|old(chain.counted)|]
      ensures chain.submitted == old(chain.submitted) + if signed.Some? then [Submission(signed.value, ok)] else []
      ensures signed.Some? ==> signed.value + old(Behind()) == old(chain.pending)
      ensures chain.refused == old(chain.refused) + if signed.Some? && old(Behind()) > 0 then 1 else 0
      ensures ok ==> signed.Some? && old(Behind()) == 0 && chain.pending == old(chain.pending) + 1
      ensures (chain.pending == old(chain.pending) && chain.accepted == old(chain.accepted))
           || (signed.Some? && chain.pending == old(chain.pending) + 1
               && chain.accepted == old(chain.accepted) + [signed.value])
      ensures nextNonce == if ok then Some(chain.pending) else None
    {
      signed, ok := None, false;
      if !prepared {
        ResetNonce();
        return;
      }
      var nonce := AllocateNonce();
      if nonce.None? || !signs {
        ResetNonce();
        return;
      }
      signed := nonce;
      ok := chain.Submit(nonce.value);
      if !ok {
        ResetNonce();
      }
    }
  }
}
