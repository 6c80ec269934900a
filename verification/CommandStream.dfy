/** The command stream of an executor (src/executor_client.ts). */
module CommandStream {
  import opened Wrappers
  import opened JsText
  import opened BigEndian
  import opened Framing

  // Frames of a kind byte, a length and a payload; control frames carry JSON, data frames carry uploaded bytes.
  // JSON is a parameter: `replyOf` says what a control payload holds.

  const MAX_FRAME := 1024 * 1024
  const CHUNK := 16384
  const CONTROL: Byte := 1
  const DATA: Byte := 2

  // ---- frames

  function FrameHead(b: Bytes): Head {
    if |b| < 5 then More
    else
      var length := Be32(b, 1);
      if length > MAX_FRAME || (b[0] != CONTROL && b[0] != DATA) then Malformed
      else if |b| < length + 5 then More
      else Whole(length + 5)
  }

  lemma FrameDecisive()
    ensures Decisive(FrameHead)
  {
    hide Be32;
    forall b: Bytes | FrameHead(b).Whole?
      ensures FrameHead(b[..FrameHead(b).size]) == FrameHead(b)
    {
      Be32Within(b, 0, b[..FrameHead(b).size], 1);
    }
    forall a: Bytes, b: Bytes | !FrameHead(a).More?
      ensures FrameHead(a + b) == FrameHead(a)
    {
      Be32Within(a + b, 0, a, 1);
    }
  }

  function FrameOf(kind: Byte, payload: Bytes): Bytes
    requires |payload| <= MAX_FRAME
  {
    [kind] + Bytes32(|payload|) + payload
  }

  lemma FrameOfComplete(kind: Byte, payload: Bytes)
    requires |payload| <= MAX_FRAME && (kind == CONTROL || kind == DATA)
    ensures Complete(FrameHead, FrameOf(kind, payload))
    ensures FrameOf(kind, payload)[0] == kind && FrameOf(kind, payload)[5..] == payload
  {
    Bytes32Be32([kind], |payload|, payload);
  }

  /** `encodeExecutorControl`, of the encoded JSON; None is its "exceeds 1 MiB". */
  function EncodeControl(payload: Bytes): Option<Bytes> {
    if |payload| > MAX_FRAME then None else Some(FrameOf(CONTROL, payload))
  }

  function EncodeAll(payloads: seq<Bytes>): seq<Bytes>
    requires forall i | 0 <= i < |payloads| :: EncodeControl(payloads[i]).Some?
  {
    seq(|payloads|, i requires 0 <= i < |payloads| => EncodeControl(payloads[i]).value)
  }

  // ---- replies

  /** What a control payload says: a farewell, or a reply that may name the request it answers. */
  datatype Reply = Closing | Answer(request: Option<nat>, failed: bool)

  function Halts(replyOf: Bytes -> Option<Reply>): Bytes -> bool {
    (frame: Bytes) => |frame| < 5
        || (frame[0] == CONTROL && (replyOf(frame[5..]).None? || replyOf(frame[5..]).value.Closing?))
  }

  /**
   * Control messages that were encoded arrive as they were, however the stream is cut and whatever unfinished frame
   * follows.
   */
  lemma ControlRoundTrip(replyOf: Bytes -> Option<Reply>, payloads: seq<Bytes>, rest: Bytes, chunks: seq<Bytes>)
    requires forall i | 0 <= i < |payloads| ::
               EncodeControl(payloads[i]).Some? && replyOf(payloads[i]).Some? && replyOf(payloads[i]).value.Answer?
    requires FrameHead(rest).More?
    requires Flatten(chunks) == Flatten(EncodeAll(payloads)) + rest
    ensures var fed := Feed(FrameHead, Halts(replyOf), chunks);
            && fed.alive && fed.rest == rest && |fed.frames| == |payloads|
            && forall i | 0 <= i < |payloads| :: |fed.frames[i]| >= 5 && fed.frames[i][5..] == payloads[i]
  {
    hide FrameHead, FrameOf, Parse, Feed, Flatten;
    var frames, halts := EncodeAll(payloads), Halts(replyOf);
    FrameDecisive();
    ChunksForgotten(FrameHead, halts, chunks);
    forall i | 0 <= i < |frames|
      ensures Complete(FrameHead, frames[i]) && !halts(frames[i]) && |frames[i]| >= 5 && frames[i][5..] == payloads[i]
    {
      FrameOfComplete(CONTROL, payloads[i]);
      CompleteHasHeader(frames[i]);
    }
    ParseIff(FrameHead, halts, Flatten(chunks), frames, rest);
  }

  lemma CompleteHasHeader(frame: Bytes)
    requires Complete(FrameHead, frame)
    ensures |frame| >= 5
  {}

  // ---- requests

  datatype Settlement = Resolved(request: nat) | Rejected(request: nat)

  function Remove(pending: seq<nat>, id: nat): (r: seq<nat>)
    ensures forall x :: x in r <==> x in pending && x != id
  {
    if pending == [] then []
    else if pending[0] == id then Remove(pending[1..], id)
    else [pending[0]] + Remove(pending[1..], id)
  }

  /** The request a frame settles among those pending. */
  function Settles(replyOf: Bytes -> Option<Reply>, pending: seq<nat>, frame: Bytes): Option<Settlement> {
    if |frame| < 5 || frame[0] != CONTROL then None
    else
      match replyOf(frame[5..])
      case Some(Answer(Some(id), failed)) =>
        if id !in pending then None else Some(if failed then Rejected(id) else Resolved(id))
      case _ => None
  }

  /** The requests left and those settled, after the frames. */
  function Settle(replyOf: Bytes -> Option<Reply>, pending: seq<nat>, frames: seq<Bytes>): (seq<nat>, seq<Settlement>) {
    if frames == [] then (pending, [])
    else
      var (left, done) := Settle(replyOf, pending, frames[..|frames| - 1]);
      match Settles(replyOf, left, frames[|frames| - 1])
      case None => (left, done)
      case Some(s) => (Remove(left, s.request), done + [s])
  }

  function Rejections(pending: seq<nat>): (r: seq<Settlement>)
    ensures |r| == |pending| && forall i | 0 <= i < |r| :: r[i] == Rejected(pending[i])
  {
    seq(|pending|, i requires 0 <= i < |pending| => Rejected(pending[i]))
  }

  /** Every request made is pending or settled, not both, and settled once. */
  ghost predicate Accounted(made: set<nat>, pending: seq<nat>, settled: seq<Settlement>) {
    && (forall i, j | 0 <= i < j < |pending| :: pending[i] != pending[j])
    && (forall i, j | 0 <= i < j < |settled| :: settled[i].request != settled[j].request)
    && (forall id :: id in made <==> id in pending || HasSettled(settled, id))
    && (forall id | id in pending :: !HasSettled(settled, id))
  }

  ghost predicate HasSettled(settled: seq<Settlement>, id: nat) {
    exists i | 0 <= i < |settled| :: settled[i].request == id
  }

  // ---- what frames and replies mean, apart from how they are handled

  /** The length a frame's header states. */
  function StatedLength(b: Bytes): int
    requires |b| >= 5
  {
    b[1] as int * 0x100_0000 + b[2] as int * 0x1_0000 + b[3] as int * 0x100 + b[4] as int
  }

  /** What the start of a buffer says: a kind of 1 or 2 and a length of at most 1 MiB, then so many bytes. */
  lemma HeadIs(b: Bytes)
    ensures FrameHead(b).Malformed? <==> |b| >= 5 && (StatedLength(b) > 1048576 || (b[0] != 1 && b[0] != 2))
    ensures FrameHead(b).Whole?
       <==> |b| >= 5 && |b| >= 5 + StatedLength(b) && StatedLength(b) <= 1048576 && (b[0] == 1 || b[0] == 2)
    ensures FrameHead(b).Whole? ==> FrameHead(b).size == 5 + StatedLength(b)
  {}

  /** The frame is a control frame whose reply names request `id`, with an error or without. */
  ghost predicate Replies(replyOf: Bytes -> Option<Reply>, frame: Bytes, id: nat, failed: bool) {
    |frame| >= 5 && frame[0] == 1 && replyOf(frame[5..]) == Some(Answer(Some(id), failed))
  }

  /** The frame is a control frame that cannot be read, or says farewell. */
  ghost predicate Closes(replyOf: Bytes -> Option<Reply>, frame: Bytes) {
    |frame| >= 5 && frame[0] == 1 && (replyOf(frame[5..]) == None || replyOf(frame[5..]) == Some(Closing))
  }

  /** Frame `k` is the first that names request `id`. */
  ghost predicate FirstReply(replyOf: Bytes -> Option<Reply>, frames: seq<Bytes>, k: int, id: nat, failed: bool) {
    && 0 <= k < |frames| && Replies(replyOf, frames[k], id, failed)
    && forall j | 0 <= j < k :: !Named(replyOf, frames[j], id)
  }

  ghost predicate Named(replyOf: Bytes -> Option<Reply>, frame: Bytes, id: nat) {
    Replies(replyOf, frame, id, true) || Replies(replyOf, frame, id, false)
  }

  lemma HaltsIff(replyOf: Bytes -> Option<Reply>, frame: Bytes)
    requires Complete(FrameHead, frame)
    ensures Halts(replyOf)(frame) <==> Closes(replyOf, frame)
  {}

  lemma SettlesIff(replyOf: Bytes -> Option<Reply>, pending: seq<nat>, frame: Bytes, id: nat)
    ensures Settles(replyOf, pending, frame) == Some(Resolved(id))
       <==> id in pending && Replies(replyOf, frame, id, false)
    ensures Settles(replyOf, pending, frame) == Some(Rejected(id))
       <==> id in pending && Replies(replyOf, frame, id, true)
  {}

  lemma FirstReplyNext(replyOf: Bytes -> Option<Reply>, frames: seq<Bytes>, id: nat, failed: bool)
    requires frames != []
    ensures var before, last := frames[..|frames| - 1], frames[|frames| - 1];
            (exists k :: FirstReply(replyOf, frames, k, id, failed)) <==>
            || (exists k :: FirstReply(replyOf, before, k, id, failed))
            || (Replies(replyOf, last, id, failed) && forall j | 0 <= j < |before| :: !Named(replyOf, before[j], id))
  {
    hide Replies, Named;
    var before, last := frames[..|frames| - 1], frames[|frames| - 1];
    assert forall j | 0 <= j < |before| :: frames[j] == before[j];
    if k :| FirstReply(replyOf, frames, k, id, failed) {
      if k < |before| { assert FirstReply(replyOf, before, k, id, failed); }
    }
    if k :| FirstReply(replyOf, before, k, id, failed) { assert FirstReply(replyOf, frames, k, id, failed); }
    if Replies(replyOf, last, id, failed) && forall j | 0 <= j < |before| :: !Named(replyOf, before[j], id) {
      assert FirstReply(replyOf, frames, |before|, id, failed);
    }
  }

  /**
   * Over the frames handled: a pending request is resolved exactly when the first reply that names it has no error,
   * rejected exactly when that has one, and stays pending exactly when no reply names it.
   */
  lemma {:induction false} SettleMeans(replyOf: Bytes -> Option<Reply>, pending: seq<nat>, frames: seq<Bytes>, id: nat)
    ensures var (left, done) := Settle(replyOf, pending, frames);
            && (Resolved(id) in done <==> id in pending && exists k :: FirstReply(replyOf, frames, k, id, false))
            && (Rejected(id) in done <==> id in pending && exists k :: FirstReply(replyOf, frames, k, id, true))
            && (id in left <==> id in pending && forall k | 0 <= k < |frames| :: !Named(replyOf, frames[k], id))
    decreases |frames|
  {
    hide Settles, Replies, FirstReply;
    if frames != [] {
      var before, last := frames[..|frames| - 1], frames[|frames| - 1];
      var (left, done) := Settle(replyOf, pending, before);
      SettleMeans(replyOf, pending, before, id);
      SettlesIff(replyOf, left, last, id);
      var s := Settles(replyOf, left, last);
      if s.Some? { SettlesIff(replyOf, left, last, s.value.request); }
      FirstReplyNext(replyOf, frames, id, true);
      FirstReplyNext(replyOf, frames, id, false);
      assert forall j | 0 <= j < |before| :: frames[j] == before[j];
    } else {
      NoReply(replyOf, id);
    }
  }

  lemma NoReply(replyOf: Bytes -> Option<Reply>, id: nat)
    ensures forall k, failed :: !FirstReply(replyOf, [], k, id, failed)
  {}

  /** Requests are settled in the order of the replies that settle them. */
  lemma {:induction false} SettledInOrder(replyOf: Bytes -> Option<Reply>, pending: seq<nat>, frames: seq<Bytes>,
      i: nat, j: nat, k: int, l: int)
    requires var done := Settle(replyOf, pending, frames).1;
             && i < j < |done|
             && FirstReply(replyOf, frames, k, done[i].request, done[i].Rejected?)
             && FirstReply(replyOf, frames, l, done[j].request, done[j].Rejected?)
    ensures k < l
    decreases |frames|
  {
    hide Replies, Settles;
    var before, last := frames[..|frames| - 1], frames[|frames| - 1];
    var (left, done) := Settle(replyOf, pending, before);
    var all := Settle(replyOf, pending, frames).1;
    SettleMeans(replyOf, pending, before, all[i].request);
    SettleMeans(replyOf, pending, before, all[j].request);
    assert forall m | 0 <= m < |before| :: frames[m] == before[m];
    OneKind(replyOf, frames, k, all[i].request);
    OneKind(replyOf, frames, l, all[j].request);
    if j < |done| {
      assert all[i] == done[i] && all[j] == done[j];
      FoundBefore(replyOf, pending, before, done[i]);
      FoundBefore(replyOf, pending, before, done[j]);
      SameFirst(replyOf, frames, k, done[i]);
      SameFirst(replyOf, frames, l, done[j]);
      SettledInOrder(replyOf, pending, before, i, j, k, l);
    } else {
      assert all[i] == done[i];
      FoundBefore(replyOf, pending, before, done[i]);
      SameFirst(replyOf, frames, k, done[i]);
      var s := Settles(replyOf, left, last);
      SettlesIff(replyOf, left, last, s.value.request);
      assert s.value == all[j] && all[j].request in left;
    }
  }

  lemma OneKind(replyOf: Bytes -> Option<Reply>, frames: seq<Bytes>, k: int, id: nat)
    ensures !(FirstReply(replyOf, frames, k, id, true) && FirstReply(replyOf, frames, k, id, false))
  {}

  ghost predicate HasFirst(replyOf: Bytes -> Option<Reply>, frames: seq<Bytes>, s: Settlement) {
    exists k :: FirstReply(replyOf, frames, k, s.request, s.Rejected?)
  }

  lemma FoundBefore(replyOf: Bytes -> Option<Reply>, pending: seq<nat>, before: seq<Bytes>, s: Settlement)
    requires s in Settle(replyOf, pending, before).1
    ensures HasFirst(replyOf, before, s)
  {
    SettleMeans(replyOf, pending, before, s.request);
    hide Settle, FirstReply;
    assert s == if s.Rejected? then Rejected(s.request) else Resolved(s.request);
  }

  lemma SameFirst(replyOf: Bytes -> Option<Reply>, frames: seq<Bytes>, k: int, s: Settlement)
    requires frames != [] && HasFirst(replyOf, frames[..|frames| - 1], s)
    requires FirstReply(replyOf, frames, k, s.request, s.Rejected?)
    ensures FirstReply(replyOf, frames[..|frames| - 1], k, s.request, s.Rejected?)
  {
    hide Replies;
    var before := frames[..|frames| - 1];
    var m :| FirstReply(replyOf, before, m, s.request, s.Rejected?);
    assert forall j | 0 <= j < |before| :: frames[j] == before[j];
    assert Named(replyOf, frames[m], s.request);
    assert k <= m;
  }

  /** Taking a request out of those pending leaves the others in their order. */
  lemma {:induction false} RemoveIs(pending: seq<nat>, k: nat)
    requires k < |pending| && forall i, j | 0 <= i < j < |pending| :: pending[i] != pending[j]
    ensures Remove(pending, pending[k]) == pending[..k] + pending[k + 1..]
  {
    var id, rest := pending[k], pending[1..];
    assert forall i, j | 0 <= i < j < |rest| :: rest[i] == pending[i + 1] && rest[j] == pending[j + 1];
    if k == 0 {
      assert id !in rest;
      RemoveAbsent(rest, id);
    } else {
      RemoveIs(rest, k - 1);
      assert pending[..k] == [pending[0]] + rest[..k - 1] && pending[k + 1..] == rest[k..];
    }
  }

  lemma {:induction false} RemoveDistinct(pending: seq<nat>, id: nat)
    requires forall i, j | 0 <= i < j < |pending| :: pending[i] != pending[j]
    ensures forall i, j | 0 <= i < j < |Remove(pending, id)| :: Remove(pending, id)[i] != Remove(pending, id)[j]
  {
    if pending != [] {
      var rest := pending[1..];
      assert forall i, j | 0 <= i < j < |rest| :: rest[i] == pending[i + 1] && rest[j] == pending[j + 1];
      RemoveDistinct(rest, id);
      if pending[0] != id {
        assert pending[0] !in rest;
        assert Remove(pending, id) == [pending[0]] + Remove(rest, id);
      }
    }
  }

  lemma HasSettledSnoc(settled: seq<Settlement>, s: Settlement)
    ensures forall id :: HasSettled(settled + [s], id) <==> HasSettled(settled, id) || id == s.request
  {
    var all := settled + [s];
    forall id
      ensures HasSettled(all, id) <==> HasSettled(settled, id) || id == s.request
    {
      if HasSettled(settled, id) {
        var i :| 0 <= i < |settled| && settled[i].request == id;
        assert all[i].request == id;
      }
      assert all[|settled|] == s;
    }
  }

  lemma AccountOne(made: set<nat>, pending: seq<nat>, settled: seq<Settlement>, s: Settlement)
    requires Accounted(made, pending, settled) && s.request in pending
    ensures Accounted(made, Remove(pending, s.request), settled + [s])
  {
    RemoveDistinct(pending, s.request);
    HasSettledSnoc(settled, s);
    assert forall i | 0 <= i < |settled| :: HasSettled(settled, settled[i].request);
  }

  lemma {:induction false} SettleAccounts(replyOf: Bytes -> Option<Reply>, made: set<nat>, pending: seq<nat>,
      settled: seq<Settlement>, frames: seq<Bytes>)
    requires Accounted(made, pending, settled)
    ensures var (left, done) := Settle(replyOf, pending, frames); Accounted(made, left, settled + done)
    decreases |frames|
  {
    hide Accounted;
    if frames == [] {
      assert settled + [] == settled;
    } else {
      var before, last := frames[..|frames| - 1], frames[|frames| - 1];
      SettleAccounts(replyOf, made, pending, settled, before);
      var (left, done) := Settle(replyOf, pending, before);
      var s := Settles(replyOf, left, last);
      if s.Some? {
        AccountOne(made, left, settled + done, s.value);
        assert (settled + done) + [s.value] == settled + (done + [s.value]);
      }
    }
  }

  lemma {:induction false} RejectAllAccounts(made: set<nat>, pending: seq<nat>, settled: seq<Settlement>)
    requires Accounted(made, pending, settled)
    ensures Accounted(made, [], settled + Rejections(pending))
    decreases |pending|
  {
    hide Accounted;
    if pending == [] {
      assert settled + Rejections([]) == settled;
    } else {
      var id, rest := pending[0], pending[1..];
      HeadAlone(made, pending, settled);
      AccountOne(made, pending, settled, Rejected(id));
      RemoveAbsent(rest, id);
      assert Remove(pending, id) == rest;
      RejectAllAccounts(made, rest, settled + [Rejected(id)]);
      assert (settled + [Rejected(id)]) + Rejections(rest) == settled + Rejections(pending);
    }
  }

  lemma HeadAlone(made: set<nat>, pending: seq<nat>, settled: seq<Settlement>)
    requires Accounted(made, pending, settled) && pending != []
    ensures pending[0] !in pending[1..]
  {}

  lemma {:induction false} RemoveAbsent(pending: seq<nat>, id: nat)
    requires id !in pending
    ensures Remove(pending, id) == pending
  {
    if pending != [] {
      RemoveAbsent(pending[1..], id);
    }
  }

  lemma AccountNew(made: set<nat>, pending: seq<nat>, settled: seq<Settlement>, id: nat)
    requires Accounted(made, pending, settled) && id !in made
    ensures Accounted(made + {id}, pending + [id], settled)
  {}

  /**
   * The client's end of one stream. `made` is every request it accepted, `settled` the promises it settled, in order.
   */
  class Stream {
    var buffer: Bytes
    var sequence: nat
    var pending: seq<nat>
    var closed: bool
    var settled: seq<Settlement>
    ghost var made: set<nat>
    const replyOf: Bytes -> Option<Reply>

    ghost predicate Valid()
      reads this
    {
      && Accounted(made, pending, settled)
      && (forall id | id in made :: 1 <= id <= sequence)
      && (closed ==> pending == [])
    }

    constructor (replyOf: Bytes -> Option<Reply>)
      ensures Valid() && !closed && buffer == [] && pending == [] && settled == [] && made == {}
      ensures this.replyOf == replyOf
    {
      buffer, sequence, pending, closed, settled, made := [], 0, [], false, [], {};
      this.replyOf := replyOf;
    }

    /**
     * `receive`, and the failure handling when it throws. Once the stream is closed the socket delivers nothing more.
     */
    method Receive(bytes: Bytes)
      requires Valid() && !closed
      modifies this`buffer, this`pending, this`closed, this`settled
      ensures Valid()
      ensures var p := Parse(FrameHead, Halts(replyOf), old(buffer) + bytes);
              var (left, done) := Settle(replyOf, old(pending), p.frames);
              && buffer == p.rest && closed == !p.alive
              && (if p.alive then pending == left && settled == old(settled) + done
                  else pending == [] && settled == old(settled) + done + Rejections(left))
    {
      hide Parse, Settle, Then, Halts, Accounted;
      ghost var halts := Halts(replyOf);
      ghost var start, was := pending, settled;
      buffer := buffer + bytes;
      ghost var all := Parse(FrameHead, halts, buffer);
      ghost var done: seq<Bytes> := [];
      ThenNothing(all);
      SettleNothing(replyOf, start);
      ghost var settling: seq<Settlement> := [];
      while |buffer| >= 5
        invariant !closed && (pending, settling) == Settle(replyOf, start, done) && settled == was + settling
        invariant all == Then(Parsed(done, [], true), Parse(FrameHead, halts, buffer))
        decreases |buffer|
      {
        var length := Be32(buffer, 1);
        if length > MAX_FRAME || (buffer[0] != CONTROL && buffer[0] != DATA) {
          ParseNothing(FrameHead, halts, buffer);
          ThenEnd(done, buffer, false);
          SettleAccounts(replyOf, made, start, was, done);
          Fail();
          return;
        }
        if |buffer| < length + 5 {
          break;
        }
        var kind := buffer[0];
        var payload := buffer[5..length + 5];
        ghost var frame := buffer[..length + 5];
        NextFrame(replyOf, buffer, length);
        buffer := buffer[length + 5..];
        SettleNext(replyOf, start, done, frame);
        if kind == CONTROL {
          var reply := replyOf(payload);
          if reply.None? || reply.value.Closing? {
            ThenEnd(done, buffer, false);
            SettleAccounts(replyOf, made, start, was, done);
            Fail();
            return;
          }
          if reply.value.request.Some? && reply.value.request.value in pending {
            var id := reply.value.request.value;
            var s := if reply.value.failed then Rejected(id) else Resolved(id);
            assert Settles(replyOf, pending, frame) == Some(s);
            pending := Remove(pending, id);
            settled := settled + [s];
            settling := settling + [s];
          } else {
            assert Settles(replyOf, pending, frame) == None;
          }
        }
        ThenFrame(done, frame, Parse(FrameHead, halts, buffer));
        done := done + [frame];
      }
      ParseNothing(FrameHead, halts, buffer);
      ThenEnd(done, buffer, true);
      SettleAccounts(replyOf, made, start, was, done);
    }

    /** `fail`: every pending request is rejected, in the order they were made. */
    method Fail()
      requires Valid()
      modifies this`pending, this`closed, this`settled
      ensures Valid() && closed && pending == [] && settled == old(settled) + Rejections(old(pending))
    {
      RejectAllAccounts(made, pending, settled);
      closed := true;
      settled := settled + Rejections(pending);
      pending := [];
    }

    /** `request`; None is the rejection of a closed stream. `sent` says whether the socket takes the frame. */
    method Request(sent: bool) returns (id: Option<nat>)
      requires Valid()
      modifies this`sequence, this`pending, this`settled, this`made
      ensures Valid() && (id.None? <==> closed)
      ensures id.None? ==> unchanged(this)
      ensures id.Some? ==>
                && id.value == sequence == old(sequence) + 1 && id.value !in old(made) && made == old(made) + {id.value}
                && (if sent then pending == old(pending) + [id.value] && settled == old(settled)
                    else pending == old(pending) && settled == old(settled) + [Rejected(id.value)])
    {
      if closed {
        return None;
      }
      sequence := sequence + 1;
      AccountNew(made, pending, settled, sequence);
      made := made + {sequence};
      if sent {
        pending := pending + [sequence];
      } else {
        AccountOne(made, pending + [sequence], settled, Rejected(sequence));
        RemoveLast(pending, sequence);
        settled := settled + [Rejected(sequence)];
      }
      return Some(sequence);
    }

    /** The timer of a request; it is cleared when the request is settled. */
    method TimeOut(id: nat)
      requires Valid() && id in pending
      modifies this`pending, this`settled
      ensures Valid() && pending == Remove(old(pending), id) && settled == old(settled) + [Rejected(id)]
    {
      AccountOne(made, pending, settled, Rejected(id));
      pending := Remove(pending, id);
      settled := settled + [Rejected(id)];
    }
  }

  lemma {:induction false} RemoveLast(pending: seq<nat>, id: nat)
    requires id !in pending
    ensures Remove(pending + [id], id) == pending
  {
    if pending != [] {
      RemoveLast(pending[1..], id);
      assert (pending + [id])[1..] == pending[1..] + [id];
    } else {
      assert Remove([id], id) == [];
    }
  }

  lemma SettleNothing(replyOf: Bytes -> Option<Reply>, pending: seq<nat>)
    ensures Settle(replyOf, pending, []) == (pending, [])
  {}

  lemma SettleNext(replyOf: Bytes -> Option<Reply>, pending: seq<nat>, frames: seq<Bytes>, frame: Bytes)
    ensures Settle(replyOf, pending, frames + [frame]) ==
            var (left, done) := Settle(replyOf, pending, frames);
            match Settles(replyOf, left, frame)
            case None => (left, done)
            case Some(s) => (Remove(left, s.request), done + [s])
  {
    assert (frames + [frame])[..|frames|] == frames;
  }

  lemma NextFrame(replyOf: Bytes -> Option<Reply>, b: Bytes, length: nat)
    requires |b| >= 5 && Be32(b, 1) == length <= MAX_FRAME && |b| >= length + 5 && (b[0] == CONTROL || b[0] == DATA)
    ensures b[..length + 5][0] == b[0] && b[..length + 5][5..] == b[5..length + 5]
    ensures var payload, rest := b[5..length + 5], b[length + 5..];
            Parse(FrameHead, Halts(replyOf), b) ==
            if b[0] == CONTROL && (replyOf(payload).None? || replyOf(payload).value.Closing?)
                then Parsed([], rest, false)
            else var p := Parse(FrameHead, Halts(replyOf), rest); p.(frames := [b[..length + 5]] + p.frames)
  {
    hide Parse, Be32;
    assert b[..length + 5][5..] == b[5..length + 5];
    ParseFrame(FrameHead, Halts(replyOf), b, length + 5);
  }

  // ---- uploads

  /** What the bytes of a data frame say. */
  datatype Chunk = Chunk(offset: nat, id: Bytes, data: Bytes)

  function ChunkFrame(c: Chunk): Bytes
    requires 1 <= |c.id| <= 128 && |c.data| <= CHUNK && c.offset < 0x1_0000_0000_0000_0000
  {
    FrameOf(DATA, [4] + Bytes64(c.offset) + Bytes16(|c.id|) + c.id + c.data)
  }

  /** How a data frame is read: the tag, the offset, the operation's id, the bytes. */
  function ReadChunk(frame: Bytes): Option<Chunk> {
    if |frame| < 16 || frame[5] != 4 then None
    else
      var n := Be16(frame, 14);
      if 16 + n > |frame| then None else Some(Chunk(Be64(frame, 6), frame[16..16 + n], frame[16 + n..]))
  }

  lemma ChunkFrameReads(c: Chunk)
    requires 1 <= |c.id| <= 128 && |c.data| <= CHUNK && c.offset < 0x1_0000_0000_0000_0000
    ensures Complete(FrameHead, ChunkFrame(c)) && ChunkFrame(c)[0] == DATA
    ensures ReadChunk(ChunkFrame(c)) == Some(c)
  {
    hide Bytes64, Bytes16, Bytes32, Be64, Be16, FrameHead;
    var o, n := Bytes64(c.offset), Bytes16(|c.id|);
    var payload := [4] + o + n + c.id + c.data;
    FrameOfComplete(DATA, payload);
    var head := [DATA] + Bytes32(|payload|);
    FrameParts(head, o, n, c.id, c.data);
    Bytes64Be64(head + [4], c.offset, n + c.id + c.data);
    Bytes16Be16(head + [4] + o, |c.id|, c.id + c.data);
    assert ChunkFrame(c) == head + payload;
  }

  /** The pieces of a chunk's frame, after a header of five bytes. */
  lemma FrameParts(head: Bytes, o: Bytes, n: Bytes, id: Bytes, data: Bytes)
    requires |head| == 5 && |o| == 8 && |n| == 2
    ensures var frame := head + ([4] + o + n + id + data);
            && frame == (head + [4]) + o + (n + id + data) && frame == (head + [4] + o) + n + (id + data)
            && |frame| == 16 + |id| + |data| && frame[5] == 4
            && frame[16..16 + |id|] == id && frame[16 + |id|..] == data
  {
    var frame := head + ([4] + o + n + id + data);
    var front := head + [4] + o + n;
    assert frame == front + id + data && |front| == 16;
  }

  /** The bytes an upload's chunks carry, joined. */
  function Joined(chunks: seq<Chunk>): Bytes {
    if chunks == [] then [] else Joined(chunks[..|chunks| - 1]) + chunks[|chunks| - 1].data
  }

  /** Chunks of one operation, each at the offset where the one before it ended. */
  ghost predicate Contiguous(chunks: seq<Chunk>, id: Bytes) {
    forall k | 0 <= k < |chunks| ::
        chunks[k].id == id && chunks[k].offset == |Joined(chunks[..k])| && 0 < |chunks[k].data| <= CHUNK
  }

  lemma JoinedNext(chunks: seq<Chunk>, c: Chunk)
    ensures Joined(chunks + [c]) == Joined(chunks) + c.data
  {
    assert (chunks + [c])[..|chunks|] == chunks;
  }

  /**
   * The data frames `write` sends; None is its "Invalid operation ID". Read back they are the content, in order and
   * without a gap.
   */
  method WriteFrames(id: Bytes, content: Bytes) returns (r: Option<seq<Bytes>>, ghost chunks: seq<Chunk>)
    requires |content| < 0x20_0000_0000_0000
    ensures r.None? <==> |id| == 0 || |id| > 128
    ensures r.Some? ==>
              && |r.value| == |chunks|
              && (forall k | 0 <= k < |chunks| ::
                     Complete(FrameHead, r.value[k]) && ReadChunk(r.value[k]) == Some(chunks[k]))
              && Joined(chunks) == content && Contiguous(chunks, id)
              && (forall k | 0 <= k < |chunks| :: r.value[k][0] == DATA)
              && (forall k | 0 <= k < |chunks| - 1 :: |chunks[k].data| == CHUNK)
  {
    hide Joined, ReadChunk, FrameHead;
    chunks := [];
    if |id| == 0 || |id| > 128 {
      return None, [];
    }
    var frames: seq<Bytes> := [];
    var offset := 0;
    JoinedNothing();
    while offset < |content|
      invariant |frames| == |chunks| && Joined(chunks) == content[..if offset < |content| then offset else |content|]
      invariant Contiguous(chunks, id)
      invariant forall k | 0 <= k < |chunks| ::
                  Complete(FrameHead, frames[k]) && ReadChunk(frames[k]) == Some(chunks[k])
      invariant forall k | 0 <= k < |chunks| :: |frames[k]| > 0 && frames[k][0] == DATA
      invariant forall k | 0 <= k < |chunks| :: |chunks[k].data| == CHUNK || (k == |chunks| - 1 && offset >= |content|)
    {
      var end := if offset + CHUNK < |content| then offset + CHUNK else |content|;
      var chunk := content[offset..end];
      ghost var c := Chunk(offset, id, chunk);
      ChunkFrameReads(c);
      JoinedNext(chunks, c);
      assert content[..offset] + chunk == content[..end];
      ContiguousNext(chunks, id, c);
      frames := frames + [FrameOf(DATA, [4] + Bytes64(offset) + Bytes16(|id|) + id + chunk)];
      chunks := chunks + [c];
      offset := offset + CHUNK;
    }
    assert content[..|content|] == content;
    return Some(frames), chunks;
  }

  lemma JoinedNothing()
    ensures Joined([]) == []
  {}

  lemma ContiguousNext(chunks: seq<Chunk>, id: Bytes, c: Chunk)
    requires Contiguous(chunks, id) && c.id == id && c.offset == |Joined(chunks)| && 0 < |c.data| <= CHUNK
    ensures Contiguous(chunks + [c], id)
  {
    var all := chunks + [c];
    forall k | 0 <= k < |all|
      ensures all[k].id == id && all[k].offset == |Joined(all[..k])| && 0 < |all[k].data| <= CHUNK
    {
      assert all[..k] == if k < |chunks| then chunks[..k] else chunks;
    }
  }
}
