/** Numbered writes of the file-system client (src/nfsp.ts). */
module Nfsp {
  import opened Wrappers

  // The client numbers each write within its session and repeats it under the same number when the network fails;
  // the server answers a number it has answered before from its replay table. The network may lose, repeat, delay
  // and reorder everything.

  /** Outside a session (before hello, after bye) a write carries no session. */
  datatype Key = Key(session: Option<nat>, number: nat)

  /** One POST: attempt number `attempt` of a logical write. */
  datatype Post = Post(write: nat, attempt: nat, key: Key)

  datatype Reply = Reply(write: nat, attempt: nat, ok: bool)

  /** What the caller sees of a write: still trying, returned, refused by the server, or failed for another reason. */
  datatype Status = Trying(attempt: nat) | Returned | Refused | Failed

  datatype Write = Write(key: Key, retries: nat, status: Status)

  datatype State = State(
    // the client
    session: Option<nat>,
    number: nat,
    writes: seq<Write>,
    // what the network holds: anything in it may arrive at any time, any number of times, or never
    posts: set<Post>,
    replies: set<Reply>,
    offers: set<nat>,
    // the server
    issued: nat,
    ended: set<nat>,
    table: map<Key, bool>,
    effects: seq<nat>)

  datatype Op =
    | ServerHello
    | AdoptHello(session: nat)
    | Bye
    | ServerEnds(session: nat)
    | BeginWrite(retries: nat)
    | Serve(post: Post, ok: bool)
    | TakeReply(reply: Reply)
    | NetworkFailure(write: nat)
    | BadAnswer(write: nat)

  function Initial(): State { State(None, 0, [], {}, {}, {}, 0, {}, map[], []) }

  /** The client sends an attempt of write `w`. */
  function Send(s: State, w: nat, attempt: nat): State
    requires w < |s.writes|
  {
    s.(posts := s.posts + {Post(w, attempt, s.writes[w].key)},
       writes := s.writes[w := s.writes[w].(status := Trying(attempt))])
  }

  function Settle(s: State, w: nat, status: Status): State
    requires w < |s.writes|
  {
    s.(writes := s.writes[w := s.writes[w].(status := status)])
  }

  predicate IsTrying(s: State, w: nat) { w < |s.writes| && s.writes[w].status.Trying? }

  /** The server handles a post: a replay, a refusal for an ended session, or an execution whose outcome is `ok`. */
  function ServePost(s: State, post: Post, ok: bool): State {
    var key := post.key;
    if key.session.None? then
      s.(effects := if ok then s.effects + [post.write] else s.effects,
         replies := s.replies + {Reply(post.write, post.attempt, ok)})
    else if key in s.table then s.(replies := s.replies + {Reply(post.write, post.attempt, s.table[key])})
    else if key.session.value in s.ended then s.(replies := s.replies + {Reply(post.write, post.attempt, false)})
    else
      s.(table := s.table[key := ok],
         effects := if ok then s.effects + [post.write] else s.effects,
         replies := s.replies + {Reply(post.write, post.attempt, ok)})
  }

  /** One step; an operation that is not possible changes nothing. */
  function Step(s: State, op: Op): State {
    match op
    case ServerHello => s.(offers := s.offers + {s.issued}, issued := s.issued + 1)
    case AdoptHello(n) => if n !in s.offers then s else s.(session := Some(n), number := 0, offers := s.offers - {n})
    case Bye => s.(session := None)
    case ServerEnds(n) => s.(ended := s.ended + {n})
    case BeginWrite(retries) =>
      var t := s.(number := s.number + 1, writes := s.writes
          + [Write(Key(s.session, s.number + 1), retries, Trying(0))]);
      Send(t, |s.writes|, 0)
    case Serve(post, ok) => if post !in s.posts then s else ServePost(s, post, ok)
    case TakeReply(r) =>
      if r in s.replies && IsTrying(s, r.write) && s.writes[r.write].status.attempt == r.attempt
      then Settle(s, r.write, if r.ok then Returned else Refused)
      else s
    case NetworkFailure(w) =>
      if !IsTrying(s, w) then s
      else if s.writes[w].status.attempt < s.writes[w].retries then Send(s, w, s.writes[w].status.attempt + 1)
      else Settle(s, w, Failed)
    case BadAnswer(w) => if IsTrying(s, w) then Settle(s, w, Failed) else s
  }

  function Run(ops: seq<Op>): State {
    if ops == [] then Initial() else Step(Run(ops[..|ops| - 1]), ops[|ops| - 1])
  }

  // ---- what every run keeps

  /** Sessions are adopted once, and numbers only grow within one, so no key is given out twice. */
  ghost predicate KeysInv(s: State) {
    && (forall n | n in s.offers :: n < s.issued)
    && (s.session.Some? ==> s.session.value < s.issued && s.session.value !in s.offers)
    && (forall i | 0 <= i < |s.writes| && s.writes[i].key.session.Some? ::
          && s.writes[i].key.session.value < s.issued && s.writes[i].key.session.value !in s.offers
          && (s.writes[i].key.session == s.session ==> s.writes[i].key.number <= s.number))
    && (forall i, j | 0 <= i < j < |s.writes| && s.writes[i].key.session.Some? :: s.writes[i].key != s.writes[j].key)
  }

  /** Posts carry their write's key; the table holds keys of writes only; attempts stay within the retries. */
  ghost predicate PostsInv(s: State) {
    && (forall p | p in s.posts ::
           p.write < |s.writes| && p.key == s.writes[p.write].key && p.attempt <= s.writes[p.write].retries)
    && (forall k | k in s.table :: k.session.Some? && KeyOfWrite(s, k))
    && (forall w: nat | IsTrying(s, w) :: s.writes[w].status.attempt <= s.writes[w].retries)
    && (forall e | e in s.effects :: e < |s.writes|)
  }

  ghost predicate KeyOfWrite(s: State, k: Key) { exists i | 0 <= i < |s.writes| :: s.writes[i].key == k }

  predicate InSession(s: State, w: nat) { w < |s.writes| && s.writes[w].key.session.Some? }

  function Times(s: State, w: nat): nat { multiset(s.effects)[w] }

  /** A write has taken effect once if the table says it succeeded, and not at all otherwise. */
  ghost predicate EffectsInv(s: State) {
    forall w: nat | InSession(s, w) ::
        Times(s, w) == if s.writes[w].key in s.table && s.table[s.writes[w].key] then 1 else 0
  }

  /** An answer agrees with the table; a refusal that is not from the table is from an ended session. */
  ghost predicate RepliesInv(s: State) {
    && (forall r: Reply | r in s.replies ::
           r.write < |s.writes| && (InSession(s, r.write) ==> Backed(s, r.write, r.ok)))
    && (forall w: nat | InSession(s, w) && s.writes[w].status.Returned? :: Backed(s, w, true))
    && (forall w: nat | InSession(s, w) && s.writes[w].status.Refused? :: Backed(s, w, false))
  }

  ghost predicate Backed(s: State, w: nat, ok: bool)
    requires InSession(s, w)
  {
    var key := s.writes[w].key;
    if key in s.table then s.table[key] == ok else !ok && key.session.value in s.ended
  }

  ghost predicate Inv(s: State) { KeysInv(s) && PostsInv(s) && EffectsInv(s) && RepliesInv(s) }

  /** Serving a post touches the table, the effects and the replies. */
  lemma ServeTouches(s: State, post: Post, ok: bool)
    ensures var t := ServePost(s, post, ok); t == s.(table := t.table, effects := t.effects, replies := t.replies)
    ensures forall e | e in ServePost(s, post, ok).effects :: e in s.effects || e == post.write
  {}

  lemma KeysStep(s: State, op: Op)
    requires KeysInv(s)
    ensures KeysInv(Step(s, op))
  {
    hide ServePost;
    if op.Serve? { ServeTouches(s, op.post, op.ok); }
  }

  /** A step keeps every write's key and retries, and adds at most one write. */
  ghost predicate KeepsWrites(s: State, t: State) {
    && |s.writes| <= |t.writes|
    && forall i | 0 <= i < |s.writes| ::
           t.writes[i].key == s.writes[i].key && t.writes[i].retries == s.writes[i].retries
  }

  lemma WritesKept(s: State, op: Op)
    requires PostsInv(s)
    ensures KeepsWrites(s, Step(s, op))
  {}

  lemma TableStep(s: State, op: Op)
    requires PostsInv(s)
    ensures var t := Step(s, op); forall k | k in t.table :: k.session.Some? && KeyOfWrite(t, k)
  {
    var t := Step(s, op);
    WritesKept(s, op);
    forall k | k in t.table
      ensures k.session.Some? && KeyOfWrite(t, k)
    {
      if k in s.table {
        var i :| 0 <= i < |s.writes| && s.writes[i].key == k;
        assert t.writes[i].key == k;
      } else {
        assert t.writes[op.post.write].key == k;
      }
    }
  }

  lemma PostsStep(s: State, op: Op)
    requires PostsInv(s)
    ensures PostsInv(Step(s, op))
  {
    WritesKept(s, op);
    TableStep(s, op);
    hide KeyOfWrite, ServePost;
    if op.Serve? { ServeTouches(s, op.post, op.ok); }
  }

  lemma CountedSnoc(effects: seq<nat>, e: nat)
    ensures forall w: nat :: multiset(effects + [e])[w] == multiset(effects)[w] + if w == e then 1 else 0
  {}

  /** Serving a post counts for its own write alone. */
  lemma EffectsServeOne(s: State, post: Post, ok: bool, w: nat)
    requires InSession(s, w) && Times(s, w) == if s.writes[w].key in s.table && s.table[s.writes[w].key] then 1 else 0
    requires post.write == w <==> post.key == s.writes[w].key
    ensures var t := ServePost(s, post, ok);
            Times(t, w) == if t.writes[w].key in t.table && t.table[t.writes[w].key] then 1 else 0
  {
    CountedSnoc(s.effects, post.write);
  }

  lemma EffectsServe(s: State, post: Post, ok: bool)
    requires KeysInv(s) && PostsInv(s) && EffectsInv(s) && post in s.posts
    ensures EffectsInv(ServePost(s, post, ok))
  {
    var t := ServePost(s, post, ok);
    forall w: nat | InSession(t, w)
      ensures Times(t, w) == if t.writes[w].key in t.table && t.table[t.writes[w].key] then 1 else 0
    {
      assert InSession(s, w) && s.writes[post.write].key == post.key;
      EffectsServeOne(s, post, ok, w);
    }
  }

  lemma EffectsBegin(s: State, retries: nat)
    requires KeysInv(s) && PostsInv(s) && EffectsInv(s)
    ensures EffectsInv(Step(s, BeginWrite(retries)))
  {
    var t := Step(s, BeginWrite(retries));
    NewKey(s, retries);
    forall w: nat | InSession(t, w)
      ensures Times(t, w) == if t.writes[w].key in t.table && t.table[t.writes[w].key] then 1 else 0
    {
      if w == |s.writes| {
        assert w !in s.effects;
      } else {
        assert InSession(s, w) && t.writes[w].key == s.writes[w].key;
      }
    }
  }

  lemma EffectsStep(s: State, op: Op)
    requires KeysInv(s) && PostsInv(s) && EffectsInv(s)
    ensures EffectsInv(Step(s, op))
  {
    hide ServePost;
    match op
    case BeginWrite(retries) =>
      EffectsBegin(s, retries);
    case Serve(post, ok) =>
      if post in s.posts {
        EffectsServe(s, post, ok);
      }
    case _ =>
      hide KeysInv, PostsInv;
      var t := Step(s, op);
      assert t.effects == s.effects && t.table == s.table && |t.writes| == |s.writes|;
      forall w: nat | InSession(t, w)
        ensures Times(t, w) == if t.writes[w].key in t.table && t.table[t.writes[w].key] then 1 else 0
      {
        assert t.writes[w].key == s.writes[w].key && InSession(s, w);
      }
  }

  lemma NewKey(s: State, retries: nat)
    requires KeysInv(s) && PostsInv(s)
    ensures Key(s.session, s.number + 1) !in s.table
  {
    var k := Key(s.session, s.number + 1);
    assert k.session.Some? ==> !KeyOfWrite(s, k);
  }

  lemma BackedStep(s: State, op: Op, w: nat, ok: bool)
    requires InSession(s, w) && Backed(s, w, ok)
    ensures InSession(Step(s, op), w) && Backed(Step(s, op), w, ok)
  {
    var t := Step(s, op);
    assert t.writes[w].key == s.writes[w].key && s.ended <= t.ended;
    assert forall k | k in s.table :: k in t.table && t.table[k] == s.table[k];
  }

  lemma NewReply(s: State, post: Post, ok: bool, r: Reply)
    requires KeysInv(s) && PostsInv(s) && post in s.posts
    requires r in ServePost(s, post, ok).replies && r !in s.replies
    ensures var t := ServePost(s, post, ok);
            r.write < |t.writes| && (InSession(t, r.write) ==> Backed(t, r.write, r.ok))
  {}

  lemma RepliesStep(s: State, op: Op)
    requires KeysInv(s) && PostsInv(s) && RepliesInv(s)
    ensures RepliesInv(Step(s, op))
  {
    var t := Step(s, op);
    WritesKept(s, op);
    forall r: Reply | r in t.replies
      ensures r.write < |t.writes| && (InSession(t, r.write) ==> Backed(t, r.write, r.ok))
    {
      if r in s.replies {
        if InSession(s, r.write) {
          BackedStep(s, op, r.write, r.ok);
        }
      } else {
        NewReply(s, op.post, op.ok, r);
      }
    }
    forall w: nat | InSession(t, w) && (t.writes[w].status.Returned? || t.writes[w].status.Refused?)
      ensures Backed(t, w, t.writes[w].status.Returned?)
    {
      NewAnswer(s, op, w);
      BackedStep(s, op, w, t.writes[w].status.Returned?);
    }
  }

  /** A write is settled by a reply to it. */
  lemma NewAnswer(s: State, op: Op, w: nat)
    requires RepliesInv(s)
    requires var t := Step(s, op); InSession(t, w) && (t.writes[w].status.Returned? || t.writes[w].status.Refused?)
    ensures InSession(s, w) && Backed(s, w, Step(s, op).writes[w].status.Returned?)
  {
    hide Backed;
    var t := Step(s, op);
    if op.BeginWrite? {
      assert w < |s.writes|;
    }
    if t.writes[w].status != s.writes[w].status {
      assert op.TakeReply? && op.reply in s.replies && op.reply.write == w;
    }
  }

  lemma {:induction false} RunInv(ops: seq<Op>)
    ensures Inv(Run(ops))
    decreases |ops|
  {
    if ops != [] {
      var before, last := ops[..|ops| - 1], ops[|ops| - 1];
      RunInv(before);
      KeysStep(Run(before), last);
      PostsStep(Run(before), last);
      EffectsStep(Run(before), last);
      RepliesStep(Run(before), last);
    }
  }

  // ---- the promises

  /** In every run, no two logical writes of a session share a number, and each takes effect at most once. */
  lemma AtMostOnce(ops: seq<Op>, w: nat)
    requires InSession(Run(ops), w)
    ensures Times(Run(ops), w) <= 1
    ensures forall v: nat | v < |Run(ops).writes| && v != w :: Run(ops).writes[v].key != Run(ops).writes[w].key
  {
    RunInv(ops);
  }

  /**
   * A write that returned has taken effect exactly once; one the server refused never did; and neither ever changes.
   */
  lemma {:induction false} AnswersAreFinal(ops: seq<Op>, more: seq<Op>, w: nat)
    requires InSession(Run(ops), w) && (Run(ops).writes[w].status.Returned? || Run(ops).writes[w].status.Refused?)
    ensures var s := Run(ops + more);
            && InSession(s, w) && s.writes[w].status == Run(ops).writes[w].status
            && Times(s, w) == if s.writes[w].status.Returned? then 1 else 0
    decreases |more|
  {
    hide Step, Inv, Times;
    if more == [] {
      assert ops + more == ops;
    } else {
      var before, last := more[..|more| - 1], more[|more| - 1];
      AnswersAreFinal(ops, before, w);
      assert (ops + more)[..|ops + more| - 1] == ops + before && (ops + more)[|ops + more| - 1] == last;
      StatusStays(Run(ops + before), last, w);
    }
    RunInv(ops + more);
    CountedByStatus(Run(ops + more), w);
  }

  lemma StatusStays(s: State, op: Op, w: nat)
    requires InSession(s, w) && !s.writes[w].status.Trying?
    ensures InSession(Step(s, op), w) && Step(s, op).writes[w].status == s.writes[w].status
  {}

  lemma CountedByStatus(s: State, w: nat)
    requires Inv(s) && InSession(s, w) && (s.writes[w].status.Returned? || s.writes[w].status.Refused?)
    ensures Times(s, w) == if s.writes[w].status.Returned? then 1 else 0
  {}

  /** One write sends no more than `retries` + 1 posts, all under the same session and number. */
  lemma PostsShareKey(ops: seq<Op>, p: Post)
    requires p in Run(ops).posts
    ensures var s := Run(ops);
            && p.write < |s.writes|
            && p.key == s.writes[p.write].key && p.attempt <= s.writes[p.write].retries
  {
    RunInv(ops);
  }

  lemma {:induction false} KeptInRun(ops: seq<Op>, more: seq<Op>, w: nat)
    requires w < |Run(ops).writes|
    ensures w < |Run(ops + more).writes| && Run(ops + more).writes[w].key == Run(ops).writes[w].key
    decreases |more|
  {
    hide Step, KeysInv, PostsInv, EffectsInv, RepliesInv;
    if more == [] {
      assert ops + more == ops;
    } else {
      var before, last := more[..|more| - 1], more[|more| - 1];
      KeptInRun(ops, before, w);
      assert (ops + more)[..|ops + more| - 1] == ops + before && (ops + more)[|ops + more| - 1] == last;
      RunInv(ops + before);
      assert PostsInv(Run(ops + before));
      WritesKept(Run(ops + before), last);
    }
  }

  lemma RunTwoMore(ops: seq<Op>, a: Op, b: Op)
    ensures Run(ops + [a, b]) == Step(Step(Run(ops), a), b)
  {
    hide Step;
    var one, two := ops + [a], ops + [a, b];
    assert two[..|two| - 1] == one && two[|two| - 1] == b && one[..|one| - 1] == ops && one[|one| - 1] == a;
  }

  /** A post without a session takes effect each time it arrives. */
  lemma SessionlessTwice(ops: seq<Op>, p: Post)
    requires p in Run(ops).posts && p.key.session.None?
    ensures Times(Run(ops + [Serve(p, true), Serve(p, true)]), p.write) == Times(Run(ops), p.write) + 2
  {
    RunTwoMore(ops, Serve(p, true), Serve(p, true));
    var s := Run(ops);
    CountedSnoc(s.effects, p.write);
    CountedSnoc(s.effects + [p.write], p.write);
  }

  /**
   * Whatever the network does from now on, a write on it takes effect at most once: exactly when it was made in a
   * session.
   */
  lemma AtMostOnceIff(ops: seq<Op>, p: Post)
    requires p in Run(ops).posts
    ensures (forall more: seq<Op> :: Times(Run(ops + more), p.write) <= 1) <==> p.key.session.Some?
  {
    hide Run, Times, Inv;
    RunInv(ops);
    PostsShareKey(ops, p);
    if p.key.session.Some? {
      forall more: seq<Op>
        ensures Times(Run(ops + more), p.write) <= 1
      {
        KeptInRun(ops, more, p.write);
        AtMostOnce(ops + more, p.write);
      }
    } else {
      SessionlessTwice(ops, p);
    }
  }

  // ---- the client's own code

  /** What a POST ends in: an answer, or a failure of the network. */
  datatype PostResult = Answered(ok: bool) | Lost

  /** The transport, with a record of the posts made. */
  class Transport {
    var posted: seq<Key>
    var results: seq<PostResult>

    constructor ()
      ensures posted == [] && results == []
    {
      posted, results := [], [];
    }

    method MakePost(key: Key) returns (r: PostResult)
      modifies this
      ensures posted == old(posted) + [key] && results == old(results) + [r]
    {
      if * {
        r := Lost;
      } else {
        var ok: bool := *;
        r := Answered(ok);
      }
      posted, results := posted + [key], results + [r];
    }
  }

  class NfspClient {
    const transport: Transport
    var session: Option<nat>
    var number: nat
    /** The keys of all writes so far. */
    ghost var used: seq<Key>

    /** No key of a session was used twice, and those of the present session have numbers up to the present one. */
    ghost predicate Valid()
      reads this
    {
      && (forall i, j | 0 <= i < j < |used| && used[i].session.Some? :: used[i] != used[j])
      && (session.Some? ==> forall i | 0 <= i < |used| && used[i].session == session :: used[i].number <= number)
    }

    constructor (transport: Transport)
      ensures Valid() && this.transport == transport && session == None && number == 0 && used == []
    {
      this.transport := transport;
      session, number, used := None, 0, [];
    }

    /** What `hello` does with the session it is given, which the server has not given before. */
    method AdoptSession(given: nat)
      requires Valid() && forall i | 0 <= i < |used| :: used[i].session != Some(given)
      modifies this`session, this`number
      ensures Valid() && session == Some(given) && number == 0
    {
      session := Some(given);
      number := 0;
    }

    method EndSession()
      requires Valid()
      modifies this`session
      ensures Valid() && session == None
    {
      session := None;
    }

    /**
     * `write`: every post carries the one key, in a session never used before; only a lost post is repeated; the last
     * result is the caller's.
     */
    method DoWrite(retries: nat) returns (r: PostResult)
      requires Valid()
      modifies this`number, this`used, transport
      ensures Valid() && number == old(number) + 1 && used == old(used) + [Key(session, number)]
      ensures session.Some? ==> Key(session, number) !in old(used)
      ensures var n := |transport.posted| - |old(transport.posted)|;
              var key := Key(session, number);
              && 1 <= n <= retries + 1 && |transport.results| == |old(transport.results)| + n
              && transport.posted == old(transport.posted) + seq(n, i => key)
              && transport.results == old(transport.results) + seq(n, i => if i < n - 1 then Lost else r)
              && (r.Lost? ==> n == retries + 1)
    {
      number := number + 1;
      var key := Key(session, number);
      used := used + [key];
      r := Lost;
      ghost var posted, results := transport.posted, transport.results;
      var attempt := 0;
      while attempt <= retries
        invariant 0 <= attempt <= retries + 1 && r == Lost
        invariant number == old(number) + 1 && session == old(session) && used == old(used) + [key]
        invariant transport.posted == posted + seq(attempt, i => key)
        invariant transport.results == results + seq(attempt, i => Lost)
      {
        r := transport.MakePost(key);
        assert seq(attempt, i => key) + [key] == seq(attempt + 1, i => key);
        assert seq(attempt, i => Lost) + [r] == seq(attempt + 1, i => if i < attempt then Lost else r);
        if r.Answered? {
          return;
        }
        attempt := attempt + 1;
      }
    }
  }

  // ---- the upload of a buffer

  /** One chunk sent: where it was to go, and the offset the server answered, None when it failed. */
  datatype Sent = Sent(offset: nat, chunk: seq<nat>, answer: Option<nat>)

  /**
   * The server's side of one upload: it appends what is sent at its own offset, at least one byte of it, and refuses
   * the rest. `asked` are the answers to the question for the offset, `sent` the chunks sent.
   */
  class Upload {
    var stored: seq<nat>
    ghost var asked: seq<Option<nat>>
    ghost var sent: seq<Sent>

    constructor (stored: seq<nat>)
      ensures this.stored == stored && asked == [] && sent == []
    {
      this.stored, asked, sent := stored, [], [];
    }

    /** Where the server stands. */
    method Offset() returns (r: Option<nat>)
      modifies this`asked
      ensures asked == old(asked) + [r] && (r.Some? ==> r.value == |stored|)
    {
      if * { r := None; } else { r := Some(|stored|); }
      asked := asked + [r];
    }

    method Patch(offset: nat, chunk: seq<nat>) returns (r: Option<nat>)
      modifies this`stored, this`sent
      ensures sent == old(sent) + [Sent(offset, chunk, r)]
      ensures r.None? ==> stored == old(stored)
      ensures r.Some? ==> offset == |old(stored)| && r.value == |stored|
                          && old(stored) <= stored <= old(stored) + chunk && (chunk != [] ==> stored != old(stored))
    {
      if offset != |stored| || chunk == [] {
        r := None;
      } else if * {
        r := None;
      } else {
        var taken: nat :| 0 < taken <= |chunk|;
        stored := stored + chunk[..taken];
        r := Some(|stored|);
      }
      sent := sent + [Sent(offset, chunk, r)];
    }
  }

  /** What goes out from an offset: as much as the limit and the content allow. */
  function ChunkAt(content: seq<nat>, chunkSize: nat, offset: nat): seq<nat>
    requires offset <= |content|
  {
    content[offset..if offset + chunkSize < |content| then offset + chunkSize else |content|]
  }

  /** The chunks go out one after the other, each from where the server says it stands, until one fails. */
  ghost predicate SentInOrder(sent: seq<Sent>, content: seq<nat>, chunkSize: nat, first: nat) {
    forall i | 0 <= i < |sent| ::
      && (if i == 0 then sent[i].offset == first else sent[i - 1].answer == Some(sent[i].offset))
      && sent[i].offset < |content| && sent[i].chunk == ChunkAt(content, chunkSize, sent[i].offset)
  }

  /** The progress reported is what the server answered. */
  ghost predicate Reported(sent: seq<Sent>, progress: seq<nat>) {
    |progress| <= |sent| && forall i | 0 <= i < |progress| :: sent[i].answer == Some(progress[i])
  }

  ghost predicate Next(sent: seq<Sent>, first: nat, offset: nat) {
    if sent == [] then offset == first else sent[|sent| - 1].answer == Some(offset)
  }

  lemma OneMoreSent(sent: seq<Sent>, content: seq<nat>, chunkSize: nat, first: nat, p: Sent, progress: seq<nat>)
    requires SentInOrder(sent, content, chunkSize, first) && Next(sent, first, p.offset) && p.offset < |content|
    requires p.chunk == ChunkAt(content, chunkSize, p.offset)
    requires Reported(sent, progress) && |progress| == |sent|
    ensures SentInOrder(sent + [p], content, chunkSize, first)
    ensures Reported(sent + [p], progress)
    ensures p.answer.Some? ==> Next(sent + [p], first, p.answer.value)
                               && Reported(sent + [p], progress + [p.answer.value])
  {}

  lemma Tail<T>(s: seq<T>, t: seq<T>)
    ensures (s + t)[|s|..] == t && s <= s + t
  {}

  lemma StoredNext(content: seq<nat>, chunkSize: nat, before: seq<nat>, after: seq<nat>)
    requires before <= content && before <= after <= before + ChunkAt(content, chunkSize, |before|)
    ensures after <= content
  {
    var chunk := ChunkAt(content, chunkSize, |before|);
    assert before + chunk == content[..|before| + |chunk|];
  }

  /**
   * `uploadContent`: resuming from any prefix, when it returns the server holds the content; when it fails, still a
   * prefix, and it fails only when a call does. Progress is reported after every chunk but a failing one.
   */
  method UploadContent(upload: Upload, content: seq<nat>, chunkSize: nat) returns (done: bool, progress: seq<nat>)
    requires chunkSize > 0 && upload.stored <= content
    modifies upload
    ensures upload.stored <= content && old(upload.stored) <= upload.stored
    ensures done ==> upload.stored == content
    ensures |upload.asked| == |old(upload.asked)| + 1 && old(upload.sent) <= upload.sent
    ensures var sent := upload.sent[|old(upload.sent)|..];
            && SentInOrder(sent, content, chunkSize, |old(upload.stored)|) && Reported(sent, progress)
            && match upload.asked[|old(upload.asked)|]
               case None => !done && sent == [] && progress == []
               case Some(_) => if done then |progress| == |sent|
                               else sent != [] && |progress| == |sent| - 1 && sent[|sent| - 1].answer == None
  {
    hide SentInOrder, Reported, ChunkAt;
    progress := [];
    ghost var sent: seq<Sent> := [];
    ghost var first, log := |upload.stored|, upload.sent;
    NoneSent(content, chunkSize, first);
    var start := upload.Offset();
    if start.None? {
      assert upload.sent == log + sent;
      Tail(log, sent);
      return false, progress;
    }
    var offset := start.value;
    while offset < |content|
      invariant offset == |upload.stored| && upload.stored <= content && old(upload.stored) <= upload.stored
      invariant upload.asked == old(upload.asked) + [start] && upload.sent == log + sent
      invariant SentInOrder(sent, content, chunkSize, first) && Reported(sent, progress) && |progress| == |sent|
      invariant Next(sent, first, offset)
      decreases |content| - offset
    {
      var end := if offset + chunkSize < |content| then offset + chunkSize else |content|;
      var chunk := content[offset..end];
      IsChunkAt(content, chunkSize, offset, end);
      ghost var before := upload.stored;
      var next := upload.Patch(offset, chunk);
      OneMoreSent(sent, content, chunkSize, first, Sent(offset, chunk, next), progress);
      assert log + sent + [Sent(offset, chunk, next)] == log + (sent + [Sent(offset, chunk, next)]);
      sent := sent + [Sent(offset, chunk, next)];
      if next.None? {
        Tail(log, sent);
        return false, progress;
      }
      StoredNext(content, chunkSize, before, upload.stored);
      offset := next.value;
      progress := progress + [offset];
    }
    Tail(log, sent);
    return true, progress;
  }

  lemma NoneSent(content: seq<nat>, chunkSize: nat, first: nat)
    ensures SentInOrder([], content, chunkSize, first) && Reported([], [])
  {}

  lemma IsChunkAt(content: seq<nat>, chunkSize: nat, offset: nat, end: nat)
    requires offset < |content| && chunkSize > 0
    requires end == if offset + chunkSize < |content| then offset + chunkSize else |content|
    ensures content[offset..end] == ChunkAt(content, chunkSize, offset) != []
  {}
}
