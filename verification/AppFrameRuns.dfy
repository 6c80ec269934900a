/** What every run of the shell and an application in its frame accounts for (src/app-frame.ts). */
module AppFrameRuns {
  import opened Wrappers
  import opened AppFrame

  // ---- messages to the shell

  /** What the client says by this step; answers only to requests it handles, acts only after an accepted init. */
  function SaidBy(s: State, op: Op): seq<ToHost> {
    match op
    case SayHello(good) => [Hello(good)]
    case Answer(id) => if id in s.client.handling then [Reply(id)] else []
    case SendAct(what) => if s.client.inited then [Act(what)] else []
    case _ => []
  }

  function Said(ops: seq<Op>): seq<ToHost> {
    if ops == [] then [] else Said(ops[..|ops| - 1]) + SaidBy(Run(ops[..|ops| - 1]), ops[|ops| - 1])
  }

  function HeardBy(s: State, op: Op): seq<ToHost> { if op.ReachHost? && s.toHost != [] then [s.toHost[0]] else [] }

  /** The messages that reached the host, in order. */
  function Heard(ops: seq<Op>): seq<ToHost> {
    if ops == [] then [] else Heard(ops[..|ops| - 1]) + HeardBy(Run(ops[..|ops| - 1]), ops[|ops| - 1])
  }

  function Acts(ms: seq<ToHost>): seq<nat> {
    if ms == [] then []
    else Acts(ms[..|ms| - 1]) + if ms[|ms| - 1].Act? then [ms[|ms| - 1].what] else []
  }

  /** No message before the first good hello asks for anything. */
  ghost predicate HostHears(s: State, heard: seq<ToHost>) {
    && (s.host.ready <==> Hello(true) in heard)
    && s.host.acted == Acts(heard)
    && (!s.host.ready ==> !s.client.inited && forall m | m in s.toHost + heard :: m.Hello?)
  }

  lemma HearsStep(s: State, op: Op, heard: seq<ToHost>)
    requires HostHears(s, heard) && CallsInv(s) && (s.client.inited ==> s.host.ready)
    ensures HostHears(Step(s, op), heard + HeardBy(s, op))
  {
    var t, more := Step(s, op), heard + HeardBy(s, op);
    if op.ReachHost? && s.toHost != [] {
      assert more[..|more| - 1] == heard;
      assert s.toHost == [s.toHost[0]] + s.toHost[1..];
    } else {
      assert more == heard;
    }
  }

  /**
   * In every run: what the client said is what the host heard and what is on its way, in order; the host is ready
   * exactly when it heard a good hello, and it acted on every act it heard, once, in order.
   */
  lemma {:induction false} HostAccounts(ops: seq<Op>)
    ensures var s := Run(ops);
            && Said(ops) == Heard(ops) + s.toHost
            && (s.host.ready <==> Hello(true) in Heard(ops))
            && s.host.acted == Acts(Heard(ops))
            && HostHears(s, Heard(ops))
    decreases |ops|
  {
    if ops != [] {
      var before, op := ops[..|ops| - 1], ops[|ops| - 1];
      HostAccounts(before);
      hide HostHears, CallsInv, Step, SaidBy, HeardBy, Acts;
      RunCalls(before);
      InitedReady(Run(before));
      HearsStep(Run(before), op, Heard(before));
      SaidStep(Run(before), op);
      Shifted(Heard(before), Run(before).toHost, SaidBy(Run(before), op), HeardBy(Run(before), op), Run(ops).toHost);
      HearsMeans(Run(ops), Heard(ops));
    }
  }

  lemma InitedReady(s: State)
    requires CallsInv(s)
    ensures s.client.inited ==> s.host.ready
  {}

  lemma HearsMeans(s: State, heard: seq<ToHost>)
    requires HostHears(s, heard)
    ensures s.host.ready <==> Hello(true) in heard
    ensures s.host.acted == Acts(heard)
  {}

  lemma Shifted(a: seq<ToHost>, b: seq<ToHost>, c: seq<ToHost>, d: seq<ToHost>, e: seq<ToHost>)
    requires b + c == d + e
    ensures (a + b) + c == (a + d) + e
  {
    assert (a + b) + c == a + (b + c);
  }

  lemma SaidStep(s: State, op: Op)
    ensures s.toHost + SaidBy(s, op) == HeardBy(s, op) + Step(s, op).toHost
  {}

  // ---- requests

  function AskIds(ms: seq<ToClient>): set<nat> { set m | m in ms && m.Ask? :: m.id }

  /**
   * Requests that come to nothing by this step: they reach a client without an accepted init, or are lost on reload.
   */
  function DroppedBy(s: State, op: Op): set<nat> {
    match op
    case ReachClient => if s.toClient != [] && !s.client.inited then AskIds([s.toClient[0]]) else {}
    case Reload(lost) => if lost <= |s.toClient| then AskIds(s.toClient[..lost]) + s.client.handling else {}
    case _ => {}
  }

  function Dropped(ops: seq<Op>): set<nat> {
    if ops == [] then {} else Dropped(ops[..|ops| - 1]) + DroppedBy(Run(ops[..|ops| - 1]), ops[|ops| - 1])
  }

  predicate Ascending(ms: seq<ToClient>) {
    forall i, j | 0 <= i < j < |ms| && ms[i].Ask? && ms[j].Ask? :: ms[i].id < ms[j].id
  }

  /** Each request is on its way, with the client, answered or dropped: one of them; those on their way are newest. */
  ghost predicate Held(coming: set<nat>, handling: set<nat>, answered: set<nat>, dropped: set<nat>, asked: nat) {
    && (forall id: nat | id in handling :: id !in answered && id !in dropped)
    && (forall id: nat | id in answered :: id !in dropped)
    && (forall a: nat, b: nat | a in coming && (b in handling || b in answered || b in dropped) :: b < a)
    && (forall id: nat :: id < asked <==> id in coming || id in handling || id in answered || id in dropped)
  }

  ghost predicate AsksInv(s: State, dropped: set<nat>) {
    Ascending(s.toClient) && Held(AskIds(s.toClient), s.client.handling, s.answered, dropped, s.host.asked)
  }

  lemma BelowAsked(s: State, dropped: set<nat>)
    requires AsksInv(s, dropped)
    ensures forall id | id in AskIds(s.toClient) :: id < s.host.asked
  {
    hide AskIds, Ascending;
  }

  lemma HeldAsked(c: set<nat>, h: set<nat>, a: set<nat>, d: set<nat>, n: nat)
    requires Held(c, h, a, d, n)
    ensures Held(c + {n}, h, a, d, n + 1)
  {}

  lemma HeldAnswered(c: set<nat>, h: set<nat>, a: set<nat>, d: set<nat>, n: nat, id: nat)
    requires Held(c, h, a, d, n) && id in h
    ensures Held(c, h - {id}, a + {id}, d, n)
  {}

  lemma HeldTaken(c: set<nat>, h: set<nat>, a: set<nat>, d: set<nat>, n: nat, taken: set<nat>, left: set<nat>)
    requires Held(c, h, a, d, n) && c == taken + left && forall x, y | x in taken && y in left :: x < y
    ensures Held(left, h + taken, a, d, n) && Held(left, h, a, d + taken, n) && Held(left, {}, a, d + (taken + h), n)
  {
    assert forall id: nat | id in taken :: id in c;
    assert forall id: nat | id in left :: id in c;
    assert forall id: nat | id in c :: id in taken || id in left;
  }

  lemma AskIdsAppend(a: seq<ToClient>, b: seq<ToClient>)
    ensures AskIds(a + b) == AskIds(a) + AskIds(b)
  {
    assert forall m :: m in a + b <==> m in a || m in b;
  }

  lemma AskIdsSplit(ms: seq<ToClient>, k: nat)
    requires k <= |ms| && Ascending(ms)
    ensures AskIds(ms) == AskIds(ms[..k]) + AskIds(ms[k..]) && Ascending(ms[k..])
    ensures forall a, b | a in AskIds(ms[..k]) && b in AskIds(ms[k..]) :: a < b
  {
    assert ms == ms[..k] + ms[k..];
    AskIdsAppend(ms[..k], ms[k..]);
    forall a, b | a in AskIds(ms[..k]) && b in AskIds(ms[k..])
      ensures a < b
    {
      var i :| 0 <= i < k && ms[..k][i] == Ask(a);
      var j :| 0 <= j < |ms| - k && ms[k..][j] == Ask(b);
      assert ms[i] == Ask(a) && ms[j + k] == Ask(b);
    }
  }

  lemma AscendingSent(a: seq<ToClient>, b: seq<ToClient>, n: nat)
    requires Ascending(a) && forall x | x in AskIds(a) :: x < n
    requires |b| <= 1 || forall m | m in b :: !m.Ask?
    requires forall m | m in b && m.Ask? :: m.id == n
    ensures Ascending(a + b)
  {
    assert forall m | m in a && m.Ask? :: m.id in AskIds(a);
    assert forall i | 0 <= i < |a| :: (a + b)[i] == a[i] && a[i] in a;
    assert forall i | |a| <= i < |a + b| :: (a + b)[i] == b[i - |a|] && b[i - |a|] in b;
  }

  /** Messages without requests change nothing. */
  lemma AsksSent(s: State, t: State, sent: seq<ToClient>, dropped: set<nat>)
    requires AsksInv(s, dropped) && t.toClient == s.toClient + sent && forall m | m in sent :: !m.Ask?
    requires t.client == s.client && t.answered == s.answered && t.host.asked == s.host.asked
    ensures AsksInv(t, dropped)
  {
    AskIdsAppend(s.toClient, sent);
    assert AskIds(sent) == {};
    BelowAsked(s, dropped);
    AscendingSent(s.toClient, sent, s.host.asked);
    assert AskIds(s.toClient) + {} == AskIds(s.toClient);
    hide AskIds, Ascending, Held;
  }

  lemma AskIdsOne(m: ToClient)
    ensures AskIds([m]) == if m.Ask? then {m.id} else {}
  {
    assert m in [m];
  }

  lemma AsksAsked(s: State, dropped: set<nat>)
    requires AsksInv(s, dropped)
    ensures AsksInv(Step(s, AskClient), dropped)
  {
    if s.host.ready {
      var id := s.host.asked;
      AskIdsAppend(s.toClient, [Ask(id)]);
      AskIdsOne(Ask(id));
      BelowAsked(s, dropped);
      AscendingSent(s.toClient, [Ask(id)], id);
      HeldAsked(AskIds(s.toClient), s.client.handling, s.answered, dropped, id);
      hide AskIds, Ascending, Held;
    }
  }

  lemma AsksReached(s: State, dropped: set<nat>)
    requires AsksInv(s, dropped)
    ensures AsksInv(Step(s, ReachClient), dropped + DroppedBy(s, ReachClient))
  {
    assert dropped + {} == dropped;
    if s.toClient != [] {
      AskIdsSplit(s.toClient, 1);
      assert s.toClient[..1] == [s.toClient[0]];
      AskIdsOne(s.toClient[0]);
      hide AskIds, Ascending, Held;
      HeldTaken(AskIds(s.toClient), s.client.handling, s.answered, dropped, s.host.asked, AskIds([s.toClient[0]]),
                AskIds(s.toClient[1..]));
      assert s.client.handling + {} == s.client.handling;
    }
  }

  lemma AsksLost(s: State, dropped: set<nat>, lost: nat)
    requires AsksInv(s, dropped)
    ensures AsksInv(Step(s, Reload(lost)), dropped + DroppedBy(s, Reload(lost)))
  {
    assert dropped + {} == dropped;
    if lost <= |s.toClient| {
      AskIdsSplit(s.toClient, lost);
      hide AskIds, Ascending, Held;
      HeldTaken(AskIds(s.toClient), s.client.handling, s.answered, dropped, s.host.asked, AskIds(s.toClient[..lost]),
                AskIds(s.toClient[lost..]));
    }
  }

  lemma AsksStep(s: State, op: Op, dropped: set<nat>)
    requires AsksInv(s, dropped)
    ensures AsksInv(Step(s, op), dropped + DroppedBy(s, op))
  {
    assert dropped + {} == dropped && s.toClient + [] == s.toClient;
    hide AskIds, Ascending, Held;
    match op
    case AskClient => AsksAsked(s, dropped);
    case ReachClient => AsksReached(s, dropped);
    case Reload(lost) => AsksLost(s, dropped, lost);
    case ChangeFocus(on) => AsksSent(s, Step(s, op), SetFocused(s.host, on).1, dropped);
    case ReachHost(accepted) =>
      if s.toHost != [] {
        AsksSent(s, Step(s, op), HostReceive(s.host, s.toHost[0], accepted).1, dropped);
      }
    case Answer(id) =>
      if id in s.client.handling {
        HeldAnswered(AskIds(s.toClient), s.client.handling, s.answered, dropped, s.host.asked, id);
      }
    case _ => AsksSent(s, Step(s, op), [], dropped);
  }

  lemma {:induction false} RunAsks(ops: seq<Op>)
    ensures AsksInv(Run(ops), Dropped(ops))
    decreases |ops|
  {
    if ops != [] {
      var before, op := ops[..|ops| - 1], ops[|ops| - 1];
      RunAsks(before);
      hide AsksInv, Step;
      AsksStep(Run(before), op, Dropped(before));
    }
  }

  /**
   * In every run each request the host made is on its way, handled, answered or dropped, one of them; it is dropped
   * only where it reached a client without an accepted init or was lost on a reload.
   */
  lemma AsksAccounted(ops: seq<Op>, id: nat)
    ensures var s := Run(ops);
            && (id < s.host.asked
                <==> Ask(id) in s.toClient || id in s.client.handling || id in s.answered || id in Dropped(ops))
            && (Ask(id) in s.toClient ==> id !in s.client.handling && id !in s.answered && id !in Dropped(ops))
            && (id in s.client.handling ==> id !in s.answered && id !in Dropped(ops))
            && (id in s.answered ==> id !in Dropped(ops))
  {
    RunAsks(ops);
    assert id in AskIds(Run(ops).toClient) <==> Ask(id) in Run(ops).toClient;
    hide AskIds, Run, Ascending;
  }

  lemma RunNext(ops: seq<Op>, op: Op)
    ensures Run(ops + [op]) == Step(Run(ops), op)
    ensures Dropped(ops + [op]) == Dropped(ops) + DroppedBy(Run(ops), op)
  {
    assert (ops + [op])[..|ops|] == ops;
  }

  /** In every run a client with an accepted init handles each request that reaches it. */
  lemma ClientHandles(ops: seq<Op>, id: nat)
    requires Run(ops).client.inited && Run(ops).toClient != [] && Run(ops).toClient[0] == Ask(id)
    ensures var s, t := Run(ops), Run(ops + [ReachClient]);
            && id in t.client.handling && id !in s.client.handling && t.client.handling == s.client.handling + {id}
            && t.toClient == s.toClient[1..]
  {
    RunNext(ops, ReachClient);
    assert Ask(id) in Run(ops).toClient;
    AsksAccounted(ops, id);
  }

  // ---- how requests end

  /** The step brings the host an answer to a request that has not been rejected. */
  ghost predicate AnswersNow(ops: seq<Op>, k: nat, id: nat)
    requires k < |ops|
  {
    HeardBy(Run(ops[..k]), ops[k]) == [Reply(id)] && id !in Run(ops[..k]).rejected
  }

  /** The step is the time-out of a request that was made and not answered by then. */
  ghost predicate TimesOutNow(ops: seq<Op>, k: nat, id: nat)
    requires k < |ops|
  {
    ops[k] == TimeOut(id) && id < Run(ops[..k]).host.asked && id !in Run(ops[..k]).resolved
  }

  ghost predicate Answered(ops: seq<Op>, id: nat) { exists k: nat :: k < |ops| && AnswersNow(ops, k, id) }

  ghost predicate TimedOut(ops: seq<Op>, id: nat) { exists k: nat :: k < |ops| && TimesOutNow(ops, k, id) }

  lemma EndsStep(ops: seq<Op>, op: Op, id: nat)
    ensures Answered(ops + [op], id) <==> Answered(ops, id) || AnswersNow(ops + [op], |ops|, id)
    ensures TimedOut(ops + [op], id) <==> TimedOut(ops, id) || TimesOutNow(ops + [op], |ops|, id)
  {
    var all := ops + [op];
    forall k: nat | k < |ops|
      ensures AnswersNow(all, k, id) <==> AnswersNow(ops, k, id)
      ensures TimesOutNow(all, k, id) <==> TimesOutNow(ops, k, id)
    {
      assert all[..k] == ops[..k];
    }
    hide AnswersNow, TimesOutNow;
    if Answered(ops, id) {
      var k: nat :| k < |ops| && AnswersNow(ops, k, id);
      assert AnswersNow(all, k, id);
    }
    if TimedOut(ops, id) {
      var k: nat :| k < |ops| && TimesOutNow(ops, k, id);
      assert TimesOutNow(all, k, id);
    }
  }

  /** Each request is pending, resolved or rejected. */
  ghost predicate Partition(s: State) {
    forall id: nat :: id < s.host.asked <==> id in s.host.pending || id in s.resolved || id in s.rejected
  }

  lemma PartitionStep(s: State, op: Op)
    requires CallsInv(s) && Partition(s)
    ensures Partition(Step(s, op))
  {
    hide Distinct;
  }

  lemma ResolvedStep(s: State, op: Op, id: nat)
    requires CallsInv(s) && Partition(s) && forall x | x in s.answered :: x < s.host.asked
    ensures id in Step(s, op).resolved
       <==> id in s.resolved || (HeardBy(s, op) == [Reply(id)] && id !in s.rejected)
    ensures id in Step(s, op).rejected
       <==> id in s.rejected || (op == TimeOut(id) && id < s.host.asked && id !in s.resolved)
  {
    hide Distinct;
    if op.ReachHost? && s.toHost != [] {
      assert s.toHost[0] in s.toHost;
    }
  }

  lemma AnsweredAsked(ops: seq<Op>)
    ensures forall id | id in Run(ops).answered :: id < Run(ops).host.asked
  {
    forall id | id in Run(ops).answered
      ensures id < Run(ops).host.asked
    {
      AsksAccounted(ops, id);
    }
  }

  /**
   * In every run each request made is pending, resolved or rejected: resolved exactly when an answer to it reached the
   * host before its time-out, rejected exactly when its time-out came before an answer.
   */
  lemma {:induction false} RequestEnds(ops: seq<Op>, id: nat)
    ensures var s := Run(ops);
            && (id in s.resolved <==> Answered(ops, id)) && (id in s.rejected <==> TimedOut(ops, id))
            && (id in s.host.pending <==> id < s.host.asked && id !in s.resolved && id !in s.rejected)
            && Partition(s)
    decreases |ops|
  {
    if ops != [] {
      var before, op := ops[..|ops| - 1], ops[|ops| - 1];
      assert ops == before + [op] && ops[..|before|] == before;
      RequestEnds(before, id);
      RunCalls(before);
      AnsweredAsked(before);
      EndsStep(before, op, id);
      var s := Run(before);
      hide Run, CallsInv, Step, Answered, TimedOut;
      RunNext(before, op);
      ResolvedStep(s, op, id);
      PartitionStep(s, op);
    }
    RunCalls(ops);
    SettledOnce(ops);
    PendingIs(Run(ops), id);
  }

  lemma PendingIs(s: State, id: nat)
    requires CallsInv(s) && Partition(s)
    ensures id in s.host.pending <==> id < s.host.asked && id !in s.resolved && id !in s.rejected
  {
    assert forall x :: x in s.resolved + s.rejected <==> x in s.resolved || x in s.rejected;
  }

  // ---- the handshake

  /** Everything on its way to the client reaches it. */
  function Delivered(n: nat): seq<Op> { if n == 0 then [] else Delivered(n - 1) + [ReachClient] }

  ghost predicate WillInit(s: State) { s.client.inited || Init(true) in s.toClient }

  lemma {:induction false} DeliveredRun(ops: seq<Op>, n: nat)
    requires n <= |Run(ops).toClient| && WillInit(Run(ops))
    ensures var s, t := Run(ops), Run(ops + Delivered(n));
            t.host == s.host && t.toClient == s.toClient[n..] && WillInit(t)
  {
    if n == 0 {
      assert ops + [] == ops;
    } else {
      DeliveredRun(ops, n - 1);
      var s := Run(ops + Delivered(n - 1));
      assert ops + Delivered(n) == (ops + Delivered(n - 1)) + [ReachClient];
      RunNext(ops + Delivered(n - 1), ReachClient);
      hide Run, Step, WillInit;
      DeliveredOne(s);
    }
  }

  lemma DeliveredOne(s: State)
    requires s.toClient != [] && WillInit(s)
    ensures var t := Step(s, ReachClient);
            t.host == s.host && t.toClient == s.toClient[1..] && WillInit(t)
  {
    assert s.toClient == [s.toClient[0]] + s.toClient[1..];
  }

  /**
   * From every run: when a good hello reaches the host and what it sends then reaches a client that accepts the init,
   * the client is at work and has the host's focus.
   */
  lemma HelloInits(ops: seq<Op>)
    requires Run(ops).toHost != [] && Run(ops).toHost[0] == Hello(true)
    ensures var heard := ops + [ReachHost(true)];
            var t := Run(heard + Delivered(|Run(heard).toClient|));
            && t.client.inited && t.host.ready && t.toClient == []
            && t.client.focused == t.host.focused == Run(ops).host.focused
  {
    RunNext(ops, ReachHost(true));
    var heard := ops + [ReachHost(true)];
    var n := |Run(heard).toClient|;
    assert Init(true) in Run(heard).toClient;
    hide Run;
    DeliveredRun(heard, n);
    FocusAgrees(heard + Delivered(n));
  }
}
