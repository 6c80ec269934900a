/** The two transports of the event client (src/kevent_client.ts). */
module KeventStreams {
  import opened Wrappers
  import opened JsText
  import opened BigEndian
  import opened Framing

  // Length-prefixed frames on the native socket, `NativeKEventProtocolClient`, and newline-separated frames on the
  // browser's stream, `BrowserKEventReader`. JSON is a parameter: `readable` says which payloads parse.

  const MAX_NATIVE_FRAME_SIZE := 1024 * 1024

  // ---- the native socket

  function NativeHead(b: Bytes): Head {
    if |b| < 4 then More
    else
      var length := Be32(b, 0);
      if length == 0 || length > MAX_NATIVE_FRAME_SIZE then Malformed
      else if |b| < 4 + length then More
      else Whole(4 + length)
  }

  /** A frame that is not JSON makes the handler throw: the connection is given up. */
  function NativeHalts(readable: Bytes -> bool): Bytes -> bool {
    (frame: Bytes) => |frame| < 4 || !readable(frame[4..])
  }

  lemma NativeDecisive()
    ensures Decisive(NativeHead)
  {
    forall b: Bytes | NativeHead(b).Whole?
      ensures NativeHead(b[..NativeHead(b).size]) == NativeHead(b)
    {}
    forall a: Bytes, b: Bytes | !NativeHead(a).More?
      ensures NativeHead(a + b) == NativeHead(a)
    {
      Be32Within(a + b, 0, a, 0);
    }
  }

  /** The frame `callInternal` writes; None is its "invalid payload size". */
  function EncodeNative(payload: Bytes): (r: Option<Bytes>) {
    if |payload| == 0 || |payload| > MAX_NATIVE_FRAME_SIZE then None
    else Some(Bytes32(|payload|) + payload)
  }

  lemma EncodeNativeComplete(payload: Bytes)
    requires EncodeNative(payload).Some?
    ensures Complete(NativeHead, EncodeNative(payload).value)
    ensures EncodeNative(payload).value[4..] == payload
  {
    var frame := EncodeNative(payload).value;
    assert frame == [] + Bytes32(|payload|) + payload;
    Bytes32Be32([], |payload|, payload);
  }

  function EncodeAll(payloads: seq<Bytes>): seq<Bytes>
    requires forall i | 0 <= i < |payloads| :: EncodeNative(payloads[i]).Some?
  {
    seq(|payloads|, i requires 0 <= i < |payloads| => EncodeNative(payloads[i]).value)
  }

  /**
   * What encoders wrote, in whatever chunks it arrives and with any unfinished frame after it, is received as
   * the payloads that were sent, and the unfinished bytes are kept.
   */
  lemma NativeRoundTrip(readable: Bytes -> bool, payloads: seq<Bytes>, rest: Bytes, chunks: seq<Bytes>)
    requires forall i | 0 <= i < |payloads| :: EncodeNative(payloads[i]).Some? && readable(payloads[i])
    requires NativeHead(rest).More?
    requires Flatten(chunks) == Flatten(EncodeAll(payloads)) + rest
    ensures var fed := Feed(NativeHead, NativeHalts(readable), chunks);
            fed.alive && fed.rest == rest && Payloads(fed.frames) == payloads
  {
    hide NativeHead, EncodeNative, Parse, Feed, Flatten;
    var frames, halts := EncodeAll(payloads), NativeHalts(readable);
    NativeDecisive();
    ChunksForgotten(NativeHead, halts, chunks);
    forall i | 0 <= i < |frames|
      ensures Complete(NativeHead, frames[i]) && !halts(frames[i]) && Payload(frames[i]) == payloads[i]
    {
      EncodeNativeComplete(payloads[i]);
      CompleteHasHeader(frames[i]);
    }
    ParseIff(NativeHead, halts, Flatten(chunks), frames, rest);
    assert Payloads(frames) == payloads;
  }

  lemma CompleteHasHeader(frame: Bytes)
    requires Complete(NativeHead, frame)
    ensures |frame| > 4
  {}

  function Payload(frame: Bytes): Bytes { if |frame| < 4 then [] else frame[4..] }

  function Payloads(frames: seq<Bytes>): (r: seq<Bytes>)
    ensures |r| == |frames|
  {
    seq(|frames|, i requires 0 <= i < |frames| => Payload(frames[i]))
  }

  /** The responses matched to the calls that wait for one, first to first; those nobody waits for are dropped. */
  function Matched(pending: seq<nat>, responses: seq<Bytes>): seq<(nat, Bytes)> {
    if pending == [] || responses == [] then []
        else [(pending[0], responses[0])] + Matched(pending[1..], responses[1..])
  }

  function Unanswered(pending: seq<nat>, responses: seq<Bytes>): seq<nat> {
    if |responses| < |pending| then pending[|responses|..] else []
  }

  /** The client during one connection; `pending` holds the calls that wait for a response. */
  class NativeConnection {
    var readBuffer: Bytes
    var pending: seq<nat>
    var failed: bool
    const readable: Bytes -> bool

    constructor (readable: Bytes -> bool)
      ensures readBuffer == [] && pending == [] && !failed && this.readable == readable
    {
      readBuffer, pending, failed := [], [], false;
      this.readable := readable;
    }

    /** `handleSocketData`, and the failure handling when it throws: `rejected` are the calls it rejects. */
    method HandleSocketData(chunk: Bytes) returns (resolved: seq<(nat, Bytes)>, rejected: seq<nat>)
      requires !failed
      modifies this
      ensures var p := Parse(NativeHead, NativeHalts(readable), old(readBuffer) + chunk);
              var responses := Payloads(p.frames);
              && readBuffer == p.rest && failed == !p.alive
              && resolved == Matched(old(pending), responses)
              && (if p.alive then pending == Unanswered(old(pending), responses) && rejected == []
                  else pending == [] && rejected == Unanswered(old(pending), responses))
    {
      hide Matched, Parse, Then, NativeHalts;
      ghost var halts := NativeHalts(readable);
      ghost var start := pending;
      readBuffer := readBuffer + chunk;
      ghost var all := Parse(NativeHead, halts, readBuffer);
      ghost var done: seq<Bytes> := [];
      resolved, rejected := [], [];
      EmptyMatched(start);
      ThenNothing(all);
      while |readBuffer| >= 4
        invariant !failed && rejected == []
        invariant all == Then(Parsed(done, [], true), Parse(NativeHead, halts, readBuffer))
        invariant resolved == Matched(start, Payloads(done)) && pending == Unanswered(start, Payloads(done))
        decreases |readBuffer|
      {
        var length := Be32(readBuffer, 0);
        if length == 0 || length > MAX_NATIVE_FRAME_SIZE {
          ParseNothing(NativeHead, halts, readBuffer);
          ThenEnd(done, readBuffer, false);
          failed := true;
          rejected := pending;
          pending := [];
          return;
        }
        if |readBuffer| < 4 + length {
          break;
        }
        ghost var frame := readBuffer[..4 + length];
        var payloadBytes := readBuffer[4..4 + length];
        NativeFrame(readable, readBuffer, length);
        readBuffer := readBuffer[4 + length..];
        if !readable(payloadBytes) {
          ThenEnd(done, readBuffer, false);
          failed := true;
          rejected := pending;
          pending := [];
          return;
        }
        ThenFrame(done, frame, Parse(NativeHead, halts, readBuffer));
        MatchedNext(start, Payloads(done), payloadBytes);
        PayloadsNext(done, frame);
        done := done + [frame];
        if |pending| > 0 {
          resolved := resolved + [(pending[0], payloadBytes)];
          pending := pending[1..];
        }
      }
      ParseNothing(NativeHead, halts, readBuffer);
      ThenEnd(done, readBuffer, true);
    }
  }

  lemma PayloadsNext(done: seq<Bytes>, frame: Bytes)
    ensures Payloads(done + [frame]) == Payloads(done) + [Payload(frame)]
  {}

  lemma NativeFrame(readable: Bytes -> bool, b: Bytes, length: nat)
    requires |b| >= 4 && Be32(b, 0) == length && 0 < length <= MAX_NATIVE_FRAME_SIZE && |b| >= 4 + length
    ensures Payload(b[..4 + length]) == b[4..4 + length]
    ensures Parse(NativeHead, NativeHalts(readable), b) ==
            if !readable(b[4..4 + length]) then Parsed([], b[4 + length..], false)
            else
              var p := Parse(NativeHead, NativeHalts(readable), b[4 + length..]);
              p.(frames := [b[..4 + length]] + p.frames)
  {
    hide Parse;
    assert b[..4 + length][4..] == b[4..4 + length];
    ParseFrame(NativeHead, NativeHalts(readable), b, 4 + length);
  }

  lemma EmptyMatched(pending: seq<nat>)
    ensures Matched(pending, []) == [] && Unanswered(pending, []) == pending
  {}

  lemma {:induction false} MatchedNext(pending: seq<nat>, responses: seq<Bytes>, next: Bytes)
    ensures Matched(pending, responses + [next]) ==
            Matched(pending, responses) +
            if |responses| < |pending| then [(pending[|responses|], next)] else []
  {
    if pending != [] && responses != [] {
      MatchedNext(pending[1..], responses[1..], next);
      assert (responses + [next])[1..] == responses[1..] + [next];
    } else if responses == [] {
      assert responses + [next] == [next];
    }
  }

  /** The k-th response resolves the k-th call that waits, as long as there are both. */
  lemma {:induction false} MatchedInOrder(pending: seq<nat>, responses: seq<Bytes>)
    ensures |Matched(pending, responses)| == if |pending| < |responses| then |pending| else |responses|
    ensures forall k | 0 <= k < |Matched(pending, responses)| ::
              Matched(pending, responses)[k] == (pending[k], responses[k])
  {
    if pending != [] && responses != [] {
      MatchedInOrder(pending[1..], responses[1..]);
    }
  }

  /** Every call that waited is resolved or still waits, in its place. */
  lemma {:induction false} MatchedAccounts(pending: seq<nat>, responses: seq<Bytes>)
    ensures var m := Matched(pending, responses);
            pending == seq(|m|, i requires 0 <= i < |m| => m[i].0) + Unanswered(pending, responses)
  {
    MatchedInOrder(pending, responses);
  }

  /** What the start of a buffer says: a length of 1 to 1 MiB in four bytes, then so many bytes. */
  lemma NativeHeadIs(b: Bytes)
    ensures var length := if |b| < 4 then 0
                          else b[0] as int * 0x100_0000 + b[1] as int * 0x1_0000 + b[2] as int * 0x100 + b[3] as int;
            && (NativeHead(b).Malformed? <==> |b| >= 4 && (length == 0 || length > 1048576))
            && (NativeHead(b).Whole? <==> |b| >= 4 && 1 <= length <= 1048576 && |b| >= 4 + length)
            && (NativeHead(b).Whole? ==> NativeHead(b).size == 4 + length)
  {}

  /** A response that cannot be read is what ends the connection, and nothing else but a malformed length. */
  lemma NativeHaltsIff(readable: Bytes -> bool, frame: Bytes)
    requires Complete(NativeHead, frame)
    ensures NativeHalts(readable)(frame) <==> !readable(frame[4..])
  {
    CompleteHasHeader(frame);
  }

  // ---- the browser's stream

  const NEWLINE: Unit := 0x0A

  function LineHead(t: Text): Head {
    match IndexOf(t, NEWLINE)
    case None => More
    case Some(i) => Whole(i + 1)
  }

  lemma LineFrameAlone(t: Text, i: nat)
    requires IndexOf(t, NEWLINE) == Some(i)
    ensures IndexOf(t[..i + 1], NEWLINE) == Some(i)
  {
    hide IndexOf;
    IndexOfAt(t[..i], NEWLINE, []);
    assert t[..i + 1] == t[..i] + [NEWLINE] + [];
  }

  lemma LineMore(a: Text, i: nat, b: Text)
    requires IndexOf(a, NEWLINE) == Some(i)
    ensures IndexOf(a + b, NEWLINE) == Some(i)
  {
    hide IndexOf;
    IndexOfAt(a[..i], NEWLINE, a[i + 1..] + b);
    assert a + b == a[..i] + [NEWLINE] + (a[i + 1..] + b);
  }

  lemma LineDecisive()
    ensures Decisive(LineHead)
  {
    hide IndexOf;
    forall t: Text | LineHead(t).Whole?
      ensures LineHead(t[..LineHead(t).size]) == LineHead(t)
    {
      LineFrameAlone(t, IndexOf(t, NEWLINE).value);
    }
    forall a: Text, b: Text | !LineHead(a).More?
      ensures LineHead(a + b) == LineHead(a)
    {
      LineMore(a, IndexOf(a, NEWLINE).value, b);
    }
  }

  /** The buffer of the stream; a line that cannot be handled ends it. */
  class LineReader {
    var buffer: Text
    var stopped: bool
    const handled: Text -> bool

    constructor (handled: Text -> bool)
      ensures buffer == [] && !stopped && this.handled == handled
    {
      buffer, stopped := [], false;
      this.handled := handled;
    }

    /** `processFrameBuffer` on what was kept and a new piece of decoded text. */
    method ProcessFrameBuffer(piece: Text) returns (lines: seq<Text>)
      requires !stopped
      modifies this
      ensures var p := Parse(LineHead, LineHalts(handled), old(buffer) + piece);
              buffer == p.rest && stopped == !p.alive && lines == Lines(p.frames)
    {
      hide IndexOf, Parse, Then, Lines, LineHalts;
      ghost var halts := LineHalts(handled);
      var cursor := buffer + piece;
      ghost var all := Parse(LineHead, halts, cursor);
      ghost var done: seq<Text> := [];
      lines := [];
      ThenNothing(all);
      while true
        invariant all == Then(Parsed(done, [], true), Parse(LineHead, halts, cursor))
        invariant lines == Lines(done) && !stopped
        decreases |cursor|
      {
        var newlineIndex := IndexOf(cursor, NEWLINE);
        if newlineIndex.None? {
          ParseNothing(LineHead, halts, cursor);
          ThenEnd(done, cursor, true);
          buffer := cursor;
          return;
        }
        var line := cursor[..newlineIndex.value];
        ghost var frame := cursor[..newlineIndex.value + 1];
        LineFrame(handled, cursor, newlineIndex.value);
        cursor := cursor[newlineIndex.value + 1..];
        if !handled(line) {
          ThenEnd(done, cursor, false);
          buffer := cursor;
          stopped := true;
          return;
        }
        ThenFrame(done, frame, Parse(LineHead, halts, cursor));
        LinesNext(done, frame);
        done := done + [frame];
        lines := lines + [line];
      }
    }
  }

  lemma LinesNext(done: seq<Text>, frame: Text)
    requires frame != []
    ensures Lines(done + [frame]) == Lines(done) + [frame[..|frame| - 1]]
  {}

  lemma LineFrame(handled: Text -> bool, t: Text, i: nat)
    requires IndexOf(t, NEWLINE) == Some(i)
    ensures t[..i + 1][..|t[..i + 1]| - 1] == t[..i]
    ensures Parse(LineHead, LineHalts(handled), t) ==
            if !handled(t[..i]) then Parsed([], t[i + 1..], false)
            else var p := Parse(LineHead, LineHalts(handled), t[i + 1..]); p.(frames := [t[..i + 1]] + p.frames)
  {
    hide Parse, IndexOf;
    assert t[..i + 1][..i] == t[..i];
    ParseFrame(LineHead, LineHalts(handled), t, i + 1);
  }

  function LineHalts(handled: Text -> bool): Text -> bool {
    (frame: Text) => |frame| == 0 || !handled(frame[..|frame| - 1])
  }

  /** The lines without their newlines. */
  function Lines(frames: seq<Text>): (r: seq<Text>)
    ensures |r| == |frames|
  {
    seq(|frames|, i requires 0 <= i < |frames| => if |frames[i]| == 0 then [] else frames[i][..|frames[i]| - 1])
  }

  /**
   * As long as every line can be handled, the lines are the stream split at its newlines, the last piece being kept.
   */
  lemma {:induction false} LinesAreSplit(handled: Text -> bool, t: Text)
    requires forall i | 0 <= i < |Split(t, NEWLINE)| - 1 :: handled(Split(t, NEWLINE)[i])
    ensures var p := Parse(LineHead, LineHalts(handled), t);
            p.alive && Lines(p.frames) + [p.rest] == Split(t, NEWLINE)
    decreases |t|
  {
    hide Parse, IndexOf, Split, LineHalts, Lines;
    var halts := LineHalts(handled);
    SplitStep(t);
    match IndexOf(t, NEWLINE)
    case None =>
      ParseNothing(LineHead, halts, t);
      assert Lines([]) + [t] == [t];
    case Some(i) =>
      var rest := t[i + 1..];
      assert forall j | 0 <= j < |Split(rest, NEWLINE)| :: Split(t, NEWLINE)[j + 1] == Split(rest, NEWLINE)[j];
      assert handled(Split(t, NEWLINE)[0]);
      LinesAreSplit(handled, rest);
      LineFrame(handled, t, i);
      var q := Parse(LineHead, halts, rest);
      LinesCons(t[..i + 1], q.frames);
      assert ([t[..i]] + Lines(q.frames)) + [q.rest] == [t[..i]] + (Lines(q.frames) + [q.rest]);
  }

  lemma LinesCons(frame: Text, frames: seq<Text>)
    requires frame != []
    ensures Lines([frame] + frames) == [frame[..|frame| - 1]] + Lines(frames)
  {}

  lemma SplitStep(t: Text)
    ensures Split(t, NEWLINE) ==
            match IndexOf(t, NEWLINE)
            case None => [t]
            case Some(i) => [t[..i]] + Split(t[i + 1..], NEWLINE)
  {}

  /** The first line that cannot be handled stops the reader: those before it were handled, what follows it is kept. */
  lemma {:induction false} UnhandledStops(handled: Text -> bool, t: Text, k: nat)
    requires k < |Split(t, NEWLINE)| - 1 && !handled(Split(t, NEWLINE)[k])
    requires forall i | 0 <= i < k :: handled(Split(t, NEWLINE)[i])
    ensures StopsAt(handled, t, Split(t, NEWLINE), k)
    decreases |t|
  {
    hide IndexOf, Split, StopsAt;
    SplitStep(t);
    var i := IndexOf(t, NEWLINE).value;
    var rest := t[i + 1..];
    PieceOf(t[..i], Split(rest, NEWLINE));
    if k == 0 {
      FirstStops(handled, t, i);
    } else {
      UnhandledStops(handled, rest, k - 1);
      LaterStops(handled, t, i, k);
    }
  }

  /** The reader stops at piece `k`: it has handled the lines before it, and keeps what comes after it. */
  ghost predicate StopsAt(handled: Text -> bool, t: Text, pieces: seq<Text>, k: nat) {
    && k < |pieces|
    && var p := Parse(LineHead, LineHalts(handled), t);
       !p.alive && Lines(p.frames) == pieces[..k] && p.rest == Join(pieces[k + 1..], NEWLINE)
  }

  lemma FirstStops(handled: Text -> bool, t: Text, i: nat)
    requires IndexOf(t, NEWLINE) == Some(i) && !handled(t[..i])
    ensures StopsAt(handled, t, [t[..i]] + Split(t[i + 1..], NEWLINE), 0)
  {
    hide Parse, IndexOf, Split, LineHalts, Lines, Join;
    LineFrame(handled, t, i);
    JoinSplit(t[i + 1..], NEWLINE);
    NoLines();
    PieceOf(t[..i], Split(t[i + 1..], NEWLINE));
  }

  lemma LaterStops(handled: Text -> bool, t: Text, i: nat, k: nat)
    requires IndexOf(t, NEWLINE) == Some(i) && handled(t[..i]) && k > 0
    requires StopsAt(handled, t[i + 1..], Split(t[i + 1..], NEWLINE), k - 1)
    ensures StopsAt(handled, t, [t[..i]] + Split(t[i + 1..], NEWLINE), k)
  {
    hide Parse, IndexOf, Split, LineHalts, Lines, Join;
    var rest := t[i + 1..];
    LineFrame(handled, t, i);
    LinesCons(t[..i + 1], Parse(LineHead, LineHalts(handled), rest).frames);
    FrontOf(t[..i], Split(rest, NEWLINE), k);
  }

  lemma PieceOf(first: Text, rest: seq<Text>)
    ensures var all := [first] + rest;
            all[0] == first && all[..0] == [] && all[1..] == rest && forall j | 0 <= j < |rest| :: rest[j] == all[j + 1]
  {}

  lemma FrontOf(first: Text, rest: seq<Text>, k: nat)
    requires 0 < k <= |rest|
    ensures ([first] + rest)[..k] == [first] + rest[..k - 1] && ([first] + rest)[k + 1..] == rest[k..]
  {}

  lemma NoLines()
    ensures Lines([]) == []
  {}
}
