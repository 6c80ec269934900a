/** The shell and an application in its frame (src/app-frame.ts). */
module AppFrame {
  import opened Wrappers

  // `AppFrameHost` and `AppFrameClient` talk over two channels that keep order. Checks of origin and payload become
  // a flag on the message they decide about.

  /** To the application: an init it will accept or not, the window's focus, a request. */
  datatype ToClient = Init(accepted: bool) | Focus(on: bool) | Ask(id: nat)

  /** To the shell: a hello whose nonce is right or not, the result of a request, anything else to act on. */
  datatype ToHost = Hello(good: bool) | Reply(id: nat) | Act(what: nat)

  datatype Host = Host(ready: bool, focused: Option<bool>, pending: set<nat>, asked: nat, acted: seq<nat>)

  datatype Client = Client(inited: bool, focused: Option<bool>, handling: set<nat>)

  const FRESH := Client(false, None, {})

  // ---- the host

  /**
   * `receive`: what the host becomes, what it sends, and the request it resolves. `accepted` is how the init it sends
   * will fare.
   */
  function HostReceive(h: Host, m: ToHost, accepted: bool): (Host, seq<ToClient>, Option<nat>) {
    match m
    case Hello(good) =>
      if !good then (h, [], None)
      else (h.(ready := true), [Init(accepted)] + FocusNow(h), None)
    case Reply(id) => if h.ready && id in h.pending then (h.(pending := h.pending - {id}), [], Some(id))
        else (h, [], None)
    case Act(what) => if h.ready then (h.(acted := h.acted + [what]), [], None) else (h, [], None)
  }

  function FocusNow(h: Host): seq<ToClient> { if h.focused.Some? then [Focus(h.focused.value)] else [] }

  function SetFocused(h: Host, on: bool): (Host, seq<ToClient>) {
    if h.focused == Some(on) then (h, []) else (h.(focused := Some(on)), if h.ready then [Focus(on)] else [])
  }

  class AppFrameHost {
    var ready: bool
    var focused: Option<bool>
    var pending: set<nat>
    var asked: nat
    var acted: seq<nat>

    function Now(): Host
      reads this
    {
      Host(ready, focused, pending, asked, acted)
    }

    constructor ()
      ensures Now() == Host(false, None, {}, 0, [])
    {
      ready, focused, pending, asked, acted := false, None, {}, 0, [];
    }

    method Receive(m: ToHost, accepted: bool) returns (sent: seq<ToClient>, resolved: Option<nat>)
      modifies this
      ensures (Now(), sent, resolved) == HostReceive(old(Now()), m, accepted)
    {
      sent, resolved := [], None;
      if m.Hello? {
        if !m.good {
          return;
        }
        ready := true;
        sent := [Init(accepted)];
        assert sent + [] == sent;
        if focused.Some? {
          sent := sent + [Focus(focused.value)];
        }
        return;
      }
      if !ready {
        return;
      }
      match m {
        case Reply(id) =>
          if id in pending {
            pending := pending - {id};
            resolved := Some(id);
          }
        case Act(what) =>
          acted := acted + [what];
      }
    }

    method ChangeFocus(on: bool) returns (sent: seq<ToClient>)
      modifies this
      ensures (Now(), sent) == SetFocused(old(Now()), on)
    {
      sent := [];
      if focused == Some(on) {
        return;
      }
      focused := Some(on);
      if ready {
        sent := [Focus(on)];
      }
    }
  }

  // ---- the client

  function ClientReceive(c: Client, m: ToClient): Client {
    match m
    case Init(accepted) => if accepted then c.(inited := true, focused := None) else c
    case Focus(on) => if c.inited then c.(focused := Some(on)) else c
    case Ask(id) => if c.inited then c.(handling := c.handling + {id}) else c
  }

  class AppFrameClient {
    var inited: bool
    var focused: Option<bool>
    var handling: set<nat>

    function Now(): Client
      reads this
    {
      Client(inited, focused, handling)
    }

    constructor ()
      ensures Now() == FRESH
    {
      inited, focused, handling := false, None, {};
    }

    /** `receive`; `reported` is the call of `onFocus`, made only when the focus changes. */
    method Receive(m: ToClient) returns (reported: Option<bool>)
      modifies this
      ensures Now() == ClientReceive(old(Now()), m)
      ensures reported.Some? <==> old(inited) && m.Focus? && focused != old(focused)
      ensures reported.Some? ==> reported == focused
    {
      reported := None;
      if m.Init? {
        if !m.accepted {
          return;
        }
        inited := true;
        focused := None;
        return;
      }
      if !inited {
        return;
      }
      match m {
        case Ask(id) =>
          handling := handling + {id};
        case Focus(on) =>
          if focused != Some(on) {
            focused := Some(on);
            reported := focused;
          }
      }
    }
  }

  // ---- the two together

  datatype State = State(
    host: Host,
    client: Client,
    toClient: seq<ToClient>,
    toHost: seq<ToHost>,
    answered: set<nat>,
    resolved: seq<nat>,
    rejected: seq<nat>)

  datatype Op =
    | ChangeFocus(on: bool)
    | AskClient
    | TimeOut(id: nat)
    | SayHello(good: bool)
    | Answer(id: nat)
    | SendAct(what: nat)
    | ReachHost(accepted: bool)
    | ReachClient
    | Reload(lost: nat)

  function Initial(): State { State(Host(false, None, {}, 0, []), FRESH, [], [], {}, [], []) }

  /**
   * One step; an operation that is not possible changes nothing. A reloaded client is new, and messages on their way
   * to the old one may be lost.
   */
  function Step(s: State, op: Op): State {
    match op
    case ChangeFocus(on) =>
      var (h, sent) := SetFocused(s.host, on);
      s.(host := h, toClient := s.toClient + sent)
    case AskClient =>
      if !s.host.ready then s
      else
        var id := s.host.asked;
        s.(host := s.host.(asked := id + 1, pending := s.host.pending + {id}), toClient := s.toClient + [Ask(id)])
    case TimeOut(id) =>
      if id !in s.host.pending then s
      else s.(host := s.host.(pending := s.host.pending - {id}), rejected := s.rejected + [id])
    case SayHello(good) => s.(toHost := s.toHost + [Hello(good)])
    case Answer(id) =>
      if id !in s.client.handling then s
      else s.(client := s.client.(handling := s.client.handling - {id}), toHost := s.toHost
          + [Reply(id)], answered := s.answered + {id})
    case SendAct(what) => if s.client.inited then s.(toHost := s.toHost + [Act(what)]) else s
    case ReachHost(accepted) =>
      if s.toHost == [] then s
      else
        var (h, sent, done) := HostReceive(s.host, s.toHost[0], accepted);
        s.(host := h, toHost := s.toHost[1..], toClient := s.toClient + sent,
           resolved := if done.Some? then s.resolved + [done.value] else s.resolved)
    case ReachClient =>
      if s.toClient == [] then s
      else s.(client := ClientReceive(s.client, s.toClient[0]), toClient := s.toClient[1..])
    case Reload(lost) => if lost > |s.toClient| then s else s.(client := FRESH, toClient := s.toClient[lost..])
  }

  function Run(ops: seq<Op>): State {
    if ops == [] then Initial() else Step(Run(ops[..|ops| - 1]), ops[|ops| - 1])
  }

  // ---- focus

  /** The client after everything on its way has reached it. */
  function Eventually(c: Client, ms: seq<ToClient>): Client
    decreases |ms|
  {
    if ms == [] then c else Eventually(ClientReceive(c, ms[0]), ms[1..])
  }

  predicate Agrees(c: Client, h: Host) { c.inited ==> c.focused == h.focused }

  /**
   * Whatever a client, the present one or a new one, still has coming ends in agreement; before hello nothing is
   * coming.
   */
  ghost predicate FocusInv(s: State) {
    && Agrees(Eventually(s.client, s.toClient), s.host)
    && (forall k | 0 <= k <= |s.toClient| :: Agrees(Eventually(FRESH, s.toClient[k..]), s.host))
    && (!s.host.ready ==> s.toClient == [] && !s.client.inited)
  }

  lemma {:induction false} EventuallyAppend(c: Client, a: seq<ToClient>, b: seq<ToClient>)
    ensures Eventually(c, a + b) == Eventually(Eventually(c, a), b)
    decreases |a|
  {
    if a == [] {
      assert a + b == b;
    } else {
      EventuallyAppend(ClientReceive(c, a[0]), a[1..], b);
      assert (a + b)[1..] == a[1..] + b;
    }
  }

  lemma EventuallyOne(c: Client, m: ToClient)
    ensures Eventually(c, [m]) == ClientReceive(c, m)
  {
    assert [m][1..] == [];
    assert Eventually(ClientReceive(c, m), []) == ClientReceive(c, m);
  }

  /** Messages that bring any agreeing client to agreement with the new host keep the invariant. */
  lemma SendKeeps(s: State, h: Host, sent: seq<ToClient>)
    requires FocusInv(s)
    requires forall c | Agrees(c, s.host) && (!s.host.ready ==> !c.inited) :: Agrees(Eventually(c, sent), h)
    requires forall j | 0 <= j <= |sent| :: Agrees(Eventually(FRESH, sent[j..]), h)
    requires !h.ready ==> !s.host.ready && sent == []
    ensures FocusInv(s.(host := h, toClient := s.toClient + sent))
  {
    var all := s.toClient + sent;
    NotReady(s);
    EventuallyAppend(s.client, s.toClient, sent);
    forall k | 0 <= k <= |all|
      ensures Agrees(Eventually(FRESH, all[k..]), h)
    {
      SuffixKeeps(s, h, sent, k);
    }
  }

  lemma SuffixKeeps(s: State, h: Host, sent: seq<ToClient>, k: nat)
    requires FocusInv(s) && k <= |s.toClient + sent|
    requires forall c | Agrees(c, s.host) && (!s.host.ready ==> !c.inited) :: Agrees(Eventually(c, sent), h)
    requires forall j | 0 <= j <= |sent| :: Agrees(Eventually(FRESH, sent[j..]), h)
    ensures Agrees(Eventually(FRESH, (s.toClient + sent)[k..]), h)
  {
    hide Eventually, Agrees;
    var all := s.toClient + sent;
    if k <= |s.toClient| {
      assert all[k..] == s.toClient[k..] + sent;
      EventuallyAppend(FRESH, s.toClient[k..], sent);
      NotReady(s);
    } else {
      assert all[k..] == sent[k - |s.toClient|..];
    }
  }

  lemma NotReady(s: State)
    requires FocusInv(s)
    ensures !s.host.ready ==> !Eventually(s.client, s.toClient).inited
    ensures !s.host.ready ==> forall k | 0 <= k <= |s.toClient| :: !Eventually(FRESH, s.toClient[k..]).inited
  {}

  /** The messages the host ever sends at once. */
  lemma OneMessage(m: ToClient, before: Host, h: Host)
    requires h.ready && !m.Init?
    requires if m.Focus? then h.focused == Some(m.on) else h.focused == before.focused
    ensures forall c | Agrees(c, before) :: Agrees(Eventually(c, [m]), h)
    ensures forall j | 0 <= j <= 1 :: Agrees(Eventually(FRESH, [m][j..]), h)
  {
    forall c | Agrees(c, before)
      ensures Agrees(Eventually(c, [m]), h)
    {
      EventuallyOne(c, m);
    }
    EventuallyOne(FRESH, m);
    assert [m][0..] == [m] && [m][1..] == [];
  }

  lemma HelloMessages(before: Host, accepted: bool)
    ensures var sent := [Init(accepted)] + FocusNow(before);
            && (forall c | Agrees(c, before) && (!before.ready ==> !c.inited) ::
                   Agrees(Eventually(c, sent), before.(ready := true)))
            && (forall j | 0 <= j <= |sent| :: Agrees(Eventually(FRESH, sent[j..]), before.(ready := true)))
  {
    var sent := [Init(accepted)] + FocusNow(before);
    forall c | Agrees(c, before) && (!before.ready ==> !c.inited)
      ensures Agrees(Eventually(c, sent), before.(ready := true))
    {
      EventuallyAppend(c, [Init(accepted)], FocusNow(before));
      EventuallyOne(c, Init(accepted));
      if before.focused.Some? {
        EventuallyOne(ClientReceive(c, Init(accepted)), Focus(before.focused.value));
      }
    }
    assert sent[0..] == sent && sent[1..] == FocusNow(before);
    if before.focused.Some? {
      EventuallyOne(FRESH, Focus(before.focused.value));
      assert sent[2..] == [];
    }
  }

  lemma SameFocus(s: State, t: State)
    requires FocusInv(s) && t.host.focused == s.host.focused && t.host.ready == s.host.ready && t.toClient == s.toClient
    requires t.client.inited == s.client.inited && t.client.focused == s.client.focused
    ensures FocusInv(t)
  {
    EventuallyFocus(s.client, t.client, s.toClient);
  }

  lemma {:induction false} EventuallyFocus(c: Client, d: Client, ms: seq<ToClient>)
    requires c.inited == d.inited && c.focused == d.focused
    ensures Eventually(c, ms).inited == Eventually(d, ms).inited
    ensures Eventually(c, ms).focused == Eventually(d, ms).focused
    decreases |ms|
  {
    if ms != [] {
      EventuallyFocus(ClientReceive(c, ms[0]), ClientReceive(d, ms[0]), ms[1..]);
    }
  }

  lemma FocusChanged(s: State, on: bool)
    requires FocusInv(s)
    ensures FocusInv(Step(s, ChangeFocus(on)))
  {
    hide FocusInv, Eventually;
    var (h, sent) := SetFocused(s.host, on);
    if sent == [] {
      FocusUnsent(s, h);
      assert s.toClient + [] == s.toClient;
    } else {
      OneMessage(Focus(on), s.host, h);
      SendKeeps(s, h, sent);
    }
  }

  lemma FocusAsked(s: State)
    requires FocusInv(s)
    ensures FocusInv(Step(s, AskClient))
  {
    hide FocusInv, Eventually;
    if s.host.ready {
      var t := Step(s, AskClient);
      OneMessage(Ask(s.host.asked), s.host, t.host);
      SendKeeps(s, t.host, [Ask(s.host.asked)]);
    }
  }

  lemma FocusReached(s: State, accepted: bool)
    requires FocusInv(s)
    ensures FocusInv(Step(s, ReachHost(accepted)))
  {
    hide FocusInv, Eventually, Agrees;
    if s.toHost != [] {
      var t := Step(s, ReachHost(accepted));
      var (h, sent, done) := HostReceive(s.host, s.toHost[0], accepted);
      if sent == [] {
        assert s.toClient + [] == s.toClient;
        SameFocus(s, t);
      } else {
        HelloMessages(s.host, accepted);
        SendKeeps(s, s.host.(ready := true), sent);
        SameFocus(s.(host := s.host.(ready := true), toClient := s.toClient + sent), t);
      }
    }
  }

  /** A change that is not sent is not a change, or nobody listens yet. */
  lemma FocusUnsent(s: State, h: Host)
    requires FocusInv(s) && h.ready == s.host.ready && (h.focused == s.host.focused || !s.host.ready)
    ensures FocusInv(s.(host := h))
  {
    NotReady(s);
  }

  lemma FocusClient(s: State, op: Op)
    requires FocusInv(s) && (op.ReachClient? || op.Reload?)
    ensures FocusInv(Step(s, op))
  {
    var t := Step(s, op);
    if op.ReachClient? && s.toClient != [] {
      assert forall k | 0 <= k <= |t.toClient| :: t.toClient[k..] == s.toClient[k + 1..];
    } else if op.Reload? && op.lost <= |s.toClient| {
      assert forall k | 0 <= k <= |t.toClient| :: t.toClient[k..] == s.toClient[k + op.lost..];
      assert t.toClient == s.toClient[op.lost..];
    }
  }

  lemma FocusStep(s: State, op: Op)
    requires FocusInv(s)
    ensures FocusInv(Step(s, op))
  {
    hide FocusInv, HostReceive, SetFocused, ClientReceive;
    match op
    case ChangeFocus(on) => FocusChanged(s, on);
    case AskClient => FocusAsked(s);
    case ReachHost(accepted) => FocusReached(s, accepted);
    case ReachClient => FocusClient(s, op);
    case Reload(_) => FocusClient(s, op);
    case _ => SameFocus(s, Step(s, op));
  }

  lemma {:induction false} RunFocus(ops: seq<Op>)
    ensures FocusInv(Run(ops))
    decreases |ops|
  {
    if ops != [] {
      RunFocus(ops[..|ops| - 1]);
      FocusStep(Run(ops[..|ops| - 1]), ops[|ops| - 1]);
    }
  }

  /**
   * In every run, once nothing is on its way to it, a client with an accepted init has the host's idea of the
   * focus, both possibly unset: however often hello was said, whatever inits it refused, and even if it was reloaded.
   */
  lemma FocusAgrees(ops: seq<Op>)
    requires Run(ops).toClient == [] && Run(ops).client.inited
    ensures Run(ops).client.focused == Run(ops).host.focused
  {
    RunFocus(ops);
  }

  // ---- nothing before init, and requests

  predicate Distinct(s: seq<nat>) { forall i, j | 0 <= i < j < |s| :: s[i] != s[j] }

  /** Each side acts only once it may, and every request is pending, resolved by its own answer, or rejected: once. */
  ghost predicate CallsInv(s: State) {
    && (!s.client.inited ==> s.client.focused.None? && s.client.handling == {})
    && (!s.host.ready ==>
           s.host.acted == [] && s.host.pending == {} && s.resolved == [] && s.toClient == [] && !s.client.inited)
    && Distinct(s.resolved + s.rejected)
    && (forall id | id in s.resolved + s.rejected :: id < s.host.asked && id !in s.host.pending)
    && (forall id | id in s.host.pending :: id < s.host.asked)
    && (forall id | id in s.resolved :: id in s.answered)
    && (forall m | m in s.toHost && m.Reply? :: m.id in s.answered)
  }

  lemma DistinctSettled(a: seq<nat>, b: seq<nat>, id: nat)
    requires Distinct(a + b) && id !in a + b
    ensures Distinct((a + [id]) + b) && Distinct(a + (b + [id]))
    ensures forall x :: x in (a + [id]) + b <==> x in a + b || x == id
    ensures forall x :: x in a + (b + [id]) <==> x in a + b || x == id
  {
    var c := (a + [id]) + b;
    forall i, j | 0 <= i < j < |c|
      ensures c[i] != c[j]
    {
      var p := if i > |a| then i - 1 else i;
      var q := if j > |a| then j - 1 else j;
      assert i != |a| ==> c[i] == (a + b)[p];
      assert j != |a| ==> c[j] == (a + b)[q];
    }
    assert a + (b + [id]) == (a + b) + [id];
    assert forall x :: x in c <==> x in a + [id] || x in b;
  }

  lemma CallsStep(s: State, op: Op)
    requires CallsInv(s)
    ensures CallsInv(Step(s, op))
  {
    var t := Step(s, op);
    if op.TimeOut? && op.id in s.host.pending {
      hide Distinct;
      DistinctSettled(s.resolved, s.rejected, op.id);
    } else if op.ReachHost? && s.toHost != [] {
      hide Distinct;
      assert s.toHost[0] in s.toHost;
      var done := HostReceive(s.host, s.toHost[0], op.accepted).2;
      if done.Some? {
        DistinctSettled(s.resolved, s.rejected, done.value);
      }
    }
  }

  lemma {:induction false} RunCalls(ops: seq<Op>)
    ensures CallsInv(Run(ops))
    decreases |ops|
  {
    if ops != [] {
      RunCalls(ops[..|ops| - 1]);
      CallsStep(Run(ops[..|ops| - 1]), ops[|ops| - 1]);
    }
  }

  /**
   * Before an accepted init the client has acted on nothing; before a good hello the host has acted on nothing and
   * sent nothing.
   */
  lemma NothingBeforeInit(ops: seq<Op>)
    ensures var s := Run(ops);
            && (!s.client.inited ==> s.client.focused.None? && s.client.handling == {})
            && (!s.host.ready ==> s.host.acted == [] && s.toClient == [] && s.resolved == [] && !s.client.inited)
  {
    RunCalls(ops);
  }

  /** Each request of the host is settled at most once, and resolved only by an answer the client gave to it. */
  lemma SettledOnce(ops: seq<Op>)
    ensures var s := Run(ops);
            && Distinct(s.resolved + s.rejected)
            && (forall id | id in s.resolved + s.rejected :: id !in s.host.pending)
            && (forall id | id in s.resolved :: id in s.answered)
  {
    RunCalls(ops);
  }
}
