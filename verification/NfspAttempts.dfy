/** How often a write of the file-system client is sent, and how it ends (src/nfsp.ts). */
module NfspAttempts {
  import opened Wrappers
  import opened Nfsp

  /** How many of the write's attempts the network failed while it was being tried. */
  function Failures(ops: seq<Op>, w: nat): nat {
    if ops == [] then 0
    else
      Failures(ops[..|ops| - 1], w)
      + if ops[|ops| - 1] == NetworkFailure(w) && IsTrying(Run(ops[..|ops| - 1]), w) then 1 else 0
  }

  /** While it was being tried, an attempt got an answer that is no answer. */
  function BadAnswers(ops: seq<Op>, w: nat): nat {
    if ops == [] then 0
    else
      BadAnswers(ops[..|ops| - 1], w)
      + if ops[|ops| - 1] == BadAnswer(w) && IsTrying(Run(ops[..|ops| - 1]), w) then 1 else 0
  }

  function Least(a: nat, b: nat): nat { if a < b then a else b }

  /** One write: tried as often as it failed and once more, within its retries; its posts are those attempts. */
  ghost predicate Counted(s: State, w: nat, failures: nat, bad: nat) {
    if w >= |s.writes| then failures == 0 && bad == 0
    else
      var write := s.writes[w];
      && (forall a: nat, key :: Post(w, a, key) in s.posts <==> key == write.key && a <= Least(failures, write.retries))
      && (write.status.Trying? ==> bad == 0 && failures <= write.retries && write.status.attempt == failures)
      && (write.status.Failed? <==> failures > write.retries || bad > 0)
      && failures <= write.retries + 1
  }

  lemma OtherWrites(s: State, op: Op, w: nat, failures: nat, bad: nat)
    requires PostsInv(s) && Counted(s, w, failures, bad)
    requires !op.BeginWrite? && !op.NetworkFailure? && !op.BadAnswer? && !op.TakeReply?
    ensures Counted(Step(s, op), w, failures, bad)
  {
    if op.Serve? { ServeTouches(s, op.post, op.ok); }
    hide ServePost;
    var t := Step(s, op);
    assert t.writes == s.writes && t.posts == s.posts;
  }

  lemma BeginCounted(s: State, w: nat, retries: nat, failures: nat, bad: nat)
    requires PostsInv(s) && Counted(s, w, failures, bad)
    ensures Counted(Step(s, BeginWrite(retries)), w, failures, bad)
  {
    var t := Step(s, BeginWrite(retries));
    assert forall a: nat, key :: Post(w, a, key) in t.posts <==>
      Post(w, a, key) in s.posts || (w == |s.writes| && a == 0 && key == t.writes[w].key);
  }

  lemma FailureCounted(s: State, w: nat, v: nat, failures: nat, bad: nat)
    requires PostsInv(s) && Counted(s, w, failures, bad)
    ensures Counted(Step(s, NetworkFailure(v)), w, failures + if v == w && IsTrying(s, w) then 1 else 0, bad)
  {
    var t := Step(s, NetworkFailure(v));
    if IsTrying(s, v) && s.writes[v].status.attempt < s.writes[v].retries {
      var n := s.writes[v].status.attempt + 1;
      assert forall a: nat, key :: Post(w, a, key) in t.posts <==>
        Post(w, a, key) in s.posts || (w == v && a == n && key == s.writes[v].key);
    } else {
      assert t.posts == s.posts;
    }
  }

  lemma SettledCounted(s: State, op: Op, w: nat, failures: nat, bad: nat)
    requires Counted(s, w, failures, bad) && (op.BadAnswer? || op.TakeReply?)
    ensures Counted(Step(s, op), w, failures, bad + if op == BadAnswer(w) && IsTrying(s, w) then 1 else 0)
  {
    assert Step(s, op).posts == s.posts;
  }

  lemma {:induction false} RunCounted(ops: seq<Op>, w: nat)
    ensures Counted(Run(ops), w, Failures(ops, w), BadAnswers(ops, w))
    decreases |ops|
  {
    hide Counted, Step, Inv;
    if ops == [] {
      NothingCounted(w);
    } else {
      var before, op := ops[..|ops| - 1], ops[|ops| - 1];
      RunCounted(before, w);
      RunInv(before);
      PostsOf(Run(before));
      var s, failures, bad := Run(before), Failures(before, w), BadAnswers(before, w);
      match op {
        case BeginWrite(retries) => BeginCounted(s, w, retries, failures, bad);
        case NetworkFailure(v) => FailureCounted(s, w, v, failures, bad);
        case BadAnswer(_) => SettledCounted(s, op, w, failures, bad);
        case TakeReply(_) => SettledCounted(s, op, w, failures, bad);
        case _ => OtherWrites(s, op, w, failures, bad);
      }
    }
  }

  lemma NothingCounted(w: nat)
    ensures Counted(Initial(), w, 0, 0)
  {}

  lemma PostsOf(s: State)
    requires Inv(s)
    ensures PostsInv(s)
  {}

  /**
   * In every run a write is sent once for every failure of the network and once more, within its retries, each time
   * with its key; it fails exactly when every attempt it had was lost, or one got an answer that is none.
   */
  lemma Attempts(ops: seq<Op>, w: nat)
    requires w < |Run(ops).writes|
    ensures var s := Run(ops);
            var write := s.writes[w];
            && (forall a: nat, key ::
                  Post(w, a, key) in s.posts <==> key == write.key && a <= Failures(ops, w) && a <= write.retries)
            && (write.status.Failed? <==> Failures(ops, w) == write.retries + 1 || BadAnswers(ops, w) > 0)
            && (write.status.Trying? ==> write.status.attempt == Failures(ops, w))
  {
    RunCounted(ops, w);
    hide Run, Failures, BadAnswers;
  }

  // ---- an answer that arrives

  /** The attempt of a write now being tried. */
  function Current(s: State, w: nat): Post
    requires IsTrying(s, w)
  {
    Post(w, s.writes[w].status.attempt, s.writes[w].key)
  }

  /** The server has not answered the key, and may still. */
  predicate Fresh(s: State, key: Key) {
    key !in s.table && !(key.session.Some? && key.session.value in s.ended)
  }

  /** What the server answers: the outcome; else as it did before, or a refusal. */
  function AnswerOf(s: State, key: Key, ok: bool): bool {
    if Fresh(s, key) then ok else key in s.table && s.table[key]
  }

  /**
   * From every run: the attempt being made is on the network; when it is served and its answer taken, the write is
   * returned or refused as the server answered, and has taken effect if the server did not know the key and did it.
   */
  lemma ServedSettles(ops: seq<Op>, w: nat, ok: bool)
    requires IsTrying(Run(ops), w)
    ensures var s := Run(ops);
            var post := Current(s, w);
            var reply := Reply(w, post.attempt, AnswerOf(s, post.key, ok));
            var t := Run(ops + [Serve(post, ok), TakeReply(reply)]);
            && post in s.posts && reply in t.replies
            && t.writes == s.writes[w := s.writes[w].(status := if reply.ok then Returned else Refused)]
            && t.effects == s.effects + if Fresh(s, post.key) && ok then [w] else []
  {
    var s := Run(ops);
    RunCounted(ops, w);
    RunInv(ops);
    var post := Current(s, w);
    assert post in s.posts;
    var reply := Reply(w, post.attempt, AnswerOf(s, post.key, ok));
    TableInSession(s, post.key);
    RunTwoMore(ops, Serve(post, ok), TakeReply(reply));
    hide Run, Failures, BadAnswers, Inv;
    ServedThenTaken(s, w, ok);
  }

  lemma TableInSession(s: State, key: Key)
    requires Inv(s)
    ensures key in s.table ==> key.session.Some?
  {}

  lemma ServedThenTaken(s: State, w: nat, ok: bool)
    requires IsTrying(s, w) && Current(s, w) in s.posts
    requires (Current(s, w).key in s.table ==> Current(s, w).key.session.Some?)
    ensures var post := Current(s, w);
            var reply := Reply(w, post.attempt, AnswerOf(s, post.key, ok));
            var t := Step(Step(s, Serve(post, ok)), TakeReply(reply));
            && reply in t.replies
            && t.writes == s.writes[w := s.writes[w].(status := if reply.ok then Returned else Refused)]
            && t.effects == s.effects + if Fresh(s, post.key) && ok then [w] else []
  {}
}
