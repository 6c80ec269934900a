/** Frames cut out of a stream that arrives in arbitrary chunks. */
module Framing {
  // `head` looks at the start of a buffer and says whether a whole frame is there; `halts` marks the frames after
  // which a connection is given up.

  datatype Head = More | Malformed | Whole(size: nat)

  /** The frames handled, the bytes kept for later, and whether the connection is still in use. */
  datatype Parsed<T> = Parsed(frames: seq<seq<T>>, rest: seq<T>, alive: bool)

  function Parse<T>(head: seq<T> -> Head, halts: seq<T> -> bool, b: seq<T>): Parsed<T>
    decreases |b|
  {
    match head(b)
    case More => Parsed([], b, true)
    case Malformed => Parsed([], b, false)
    case Whole(size) =>
      if size == 0 || size > |b| then Parsed([], b, false)
      else if halts(b[..size]) then Parsed([], b[size..], false)
      else
        var p := Parse(head, halts, b[size..]);
        p.(frames := [b[..size]] + p.frames)
  }

  /** The receiver's loop over one chunk after another: each is appended to what was kept. */
  function Feed<T>(head: seq<T> -> Head, halts: seq<T> -> bool, chunks: seq<seq<T>>): Parsed<T> {
    if chunks == [] then Parsed([], [], true)
    else
      var before := Feed(head, halts, chunks[..|chunks| - 1]);
      if !before.alive then before
      else Then(before, Parse(head, halts, before.rest + chunks[|chunks| - 1]))
  }

  function Then<T>(before: Parsed<T>, p: Parsed<T>): Parsed<T> { p.(frames := before.frames + p.frames) }

  function Flatten<T>(parts: seq<seq<T>>): seq<T> {
    if parts == [] then [] else parts[0] + Flatten(parts[1..])
  }

  /**
   * A head that decides on what it has seen: more bytes never change its mind, and it looks no further than its frame.
   */
  ghost predicate Decisive<T(!new)>(head: seq<T> -> Head) {
    && (forall b: seq<T> :: head(b).Whole? ==> 0 < head(b).size <= |b| && head(b[..head(b).size]) == head(b))
    && (forall a: seq<T>, b: seq<T> :: !head(a).More? ==> head(a + b) == head(a))
    && head([]).More?
  }

  /** One turn of the loop. */
  lemma ParseFrame<T>(head: seq<T> -> Head, halts: seq<T> -> bool, b: seq<T>, size: nat)
    requires head(b) == Whole(size) && 0 < size <= |b|
    ensures Parse(head, halts, b) ==
            if halts(b[..size]) then Parsed([], b[size..], false)
            else var p := Parse(head, halts, b[size..]); p.(frames := [b[..size]] + p.frames)
  {}

  lemma ParseNothing<T>(head: seq<T> -> Head, halts: seq<T> -> bool, b: seq<T>)
    requires !head(b).Whole?
    ensures Parse(head, halts, b) == Parsed([], b, head(b).More?)
  {}

  lemma ThenNothing<T>(p: Parsed<T>)
    ensures Then(Parsed([], [], true), p) == p
  {
    assert [] + p.frames == p.frames;
  }

  lemma ThenEnd<T>(done: seq<seq<T>>, rest: seq<T>, alive: bool)
    ensures Then(Parsed(done, [], true), Parsed([], rest, alive)) == Parsed(done, rest, alive)
  {
    assert done + [] == done;
  }

  lemma ThenFrame<T>(done: seq<seq<T>>, frame: seq<T>, p: Parsed<T>)
    ensures Then(Parsed(done, [], true), p.(frames := [frame] + p.frames)) == Then(Parsed(done + [frame], [], true), p)
  {
    assert done + ([frame] + p.frames) == (done + [frame]) + p.frames;
  }

  lemma WholeFrame<T(!new)>(head: seq<T> -> Head, b: seq<T>)
    requires Decisive(head) && head(b).Whole?
    ensures 0 < head(b).size <= |b| && head(b[..head(b).size]) == head(b)
  {}

  lemma NothingYet<T(!new)>(head: seq<T> -> Head)
    requires Decisive(head)
    ensures head([]).More?
  {}

  lemma MoreBytes<T(!new)>(head: seq<T> -> Head, a: seq<T>, b: seq<T>)
    requires Decisive(head) && !head(a).More?
    ensures head(a + b) == head(a)
  {}

  // ---- how the stream is cut does not matter

  lemma {:induction false} ParseAppend<T(!new)>(head: seq<T> -> Head, halts: seq<T> -> bool, a: seq<T>, b: seq<T>)
    requires Decisive(head)
    ensures var p := Parse(head, halts, a);
            var q := Parse(head, halts, a + b);
            if p.alive then q == Then(p, Parse(head, halts, p.rest + b)) else q.frames == p.frames && !q.alive
    decreases |a|
  {
    hide Decisive;
    var p := Parse(head, halts, a);
    match head(a)
    case More =>
    case Malformed =>
      MoreBytes(head, a, b);
    case Whole(size) =>
      MoreBytes(head, a, b);
      WholeFrame(head, a);
      assert (a + b)[..size] == a[..size] && (a + b)[size..] == a[size..] + b;
      if !halts(a[..size]) {
        ParseAppend(head, halts, a[size..], b);
        var r := Parse(head, halts, a[size..]);
        if r.alive {
          FramesAssociate(a[..size], r.frames, Parse(head, halts, r.rest + b).frames);
        }
      }
  }

  lemma FramesAssociate<T>(f: seq<T>, x: seq<seq<T>>, y: seq<seq<T>>)
    ensures [f] + (x + y) == ([f] + x) + y
  {}

  lemma {:induction false} FlattenAppend<T>(a: seq<seq<T>>, b: seq<seq<T>>)
    ensures Flatten(a + b) == Flatten(a) + Flatten(b)
  {
    if a == [] {
      assert a + b == b;
    } else {
      FlattenAppend(a[1..], b);
      assert (a + b)[1..] == a[1..] + b && (a + b)[0] == a[0];
      assert a[0] + (Flatten(a[1..]) + Flatten(b)) == (a[0] + Flatten(a[1..])) + Flatten(b);
    }
  }

  lemma FlattenOne<T>(x: seq<T>)
    ensures Flatten([x]) == x
  {
    assert [x][1..] == [];
  }

  /** However a stream is cut into chunks, the frames are those of the stream as a whole, and so is what is kept. */
  lemma {:induction false} ChunksForgotten<T(!new)>(head: seq<T> -> Head, halts: seq<T> -> bool, chunks: seq<seq<T>>)
    requires Decisive(head)
    ensures var fed := Feed(head, halts, chunks);
            var whole := Parse(head, halts, Flatten(chunks));
            && fed.frames == whole.frames && fed.alive == whole.alive
            && (fed.alive ==> fed.rest == whole.rest)
    decreases |chunks|
  {
    hide Decisive;
    if chunks == [] {
      NothingYet(head);
    } else {
      var before, last := chunks[..|chunks| - 1], chunks[|chunks| - 1];
      ChunksForgotten(head, halts, before);
      FlattenAppend(before, [last]);
      FlattenOne(last);
      assert before + [last] == chunks;
      ParseAppend(head, halts, Flatten(before), last);
    }
  }

  lemma CutsAgree<T(!new)>(head: seq<T> -> Head, halts: seq<T> -> bool, a: seq<seq<T>>, b: seq<seq<T>>)
    requires Decisive(head) && Flatten(a) == Flatten(b)
    ensures Feed(head, halts, a).frames == Feed(head, halts, b).frames
    ensures Feed(head, halts, a).alive == Feed(head, halts, b).alive
    ensures Feed(head, halts, a).alive ==> Feed(head, halts, a).rest == Feed(head, halts, b).rest
  {
    ChunksForgotten(head, halts, a);
    ChunksForgotten(head, halts, b);
  }

  // ---- the frames are the complete frames of the stream, and the unfinished one is kept

  ghost predicate Complete<T>(head: seq<T> -> Head, frame: seq<T>) { head(frame) == Whole(|frame|) }

  /** `b` is `frames`, all complete and none of them final, followed by an unfinished `rest`. */
  ghost predicate Stream<T>(head: seq<T> -> Head, halts: seq<T> -> bool, b: seq<T>, frames: seq<seq<T>>, rest: seq<T>) {
    && b == Flatten(frames) + rest
    && head(rest).More?
    && forall i | 0 <= i < |frames| :: Complete(head, frames[i]) && !halts(frames[i])
  }

  /** A live connection has handled exactly the complete frames and holds exactly the unfinished rest. */
  lemma {:induction false} ParseIff<T(!new)>(head: seq<T> -> Head, halts: seq<T> -> bool, b: seq<T>,
      frames: seq<seq<T>>, rest: seq<T>)
    requires Decisive(head)
    ensures Parse(head, halts, b) == Parsed(frames, rest, true) <==> Stream(head, halts, b, frames, rest)
    decreases |b|
  {
    if Parse(head, halts, b) == Parsed(frames, rest, true) {
      ParseMeans(head, halts, b);
    }
    if Stream(head, halts, b, frames, rest) {
      StreamParses(head, halts, b, frames, rest);
    }
  }

  lemma {:induction false} ParseMeans<T(!new)>(head: seq<T> -> Head, halts: seq<T> -> bool, b: seq<T>)
    requires Decisive(head)
    requires Parse(head, halts, b).alive
    ensures Stream(head, halts, b, Parse(head, halts, b).frames, Parse(head, halts, b).rest)
    decreases |b|
  {
    hide Decisive;
    if head(b).Whole? {
      var size := head(b).size;
      WholeFrame(head, b);
      ParseMeans(head, halts, b[size..]);
      ParseFrame(head, halts, b, size);
      var p := Parse(head, halts, b[size..]);
      hide Parse;
      StreamCons(head, halts, b, size, p.frames, p.rest);
    } else {
      assert b == Flatten([]) + b;
    }
  }

  lemma StreamCons<T>(head: seq<T> -> Head, halts: seq<T> -> bool, b: seq<T>, size: nat, frames: seq<seq<T>>,
      rest: seq<T>)
    requires 0 < size <= |b| && Complete(head, b[..size]) && !halts(b[..size])
    requires Stream(head, halts, b[size..], frames, rest)
    ensures Stream(head, halts, b, [b[..size]] + frames, rest)
  {
    hide Complete;
    var all := [b[..size]] + frames;
    assert all[1..] == frames;
    assert b == b[..size] + (Flatten(frames) + rest) == (b[..size] + Flatten(frames)) + rest;
    assert forall i | 0 < i < |all| :: all[i] == frames[i - 1];
  }

  lemma {:induction false} StreamParses<T(!new)>(head: seq<T> -> Head, halts: seq<T> -> bool, b: seq<T>,
      frames: seq<seq<T>>, rest: seq<T>)
    requires Decisive(head)
    requires Stream(head, halts, b, frames, rest)
    ensures Parse(head, halts, b) == Parsed(frames, rest, true)
    decreases |frames|
  {
    hide Decisive;
    if frames == [] {
      assert b == rest;
    } else {
      var f := frames[0];
      var tail := Flatten(frames[1..]) + rest;
      assert b == f + tail;
      assert Complete(head, f);
      MoreBytes(head, f, tail);
      assert b[..|f|] == f && b[|f|..] == tail;
      StreamParses(head, halts, tail, frames[1..], rest);
      assert [f] + frames[1..] == frames;
    }
  }

  /** `tail` is malformed from its start, or begins with a complete frame after which the connection is given up. */
  ghost predicate Ends<T(!new)>(head: seq<T> -> Head, halts: seq<T> -> bool, tail: seq<T>, rest: seq<T>) {
    || (head(tail).Malformed? && rest == tail)
    || (exists last :: Complete(head, last) && halts(last) && tail == last + rest)
  }

  /** `b` is `frames`, all complete and none of them final, and then the end of the connection. */
  ghost predicate EndedStream<T(!new)>(head: seq<T> -> Head, halts: seq<T> -> bool, b: seq<T>, frames: seq<seq<T>>,
      rest: seq<T>) {
    exists tail ::
      && b == Flatten(frames) + tail && Ends(head, halts, tail, rest)
      && forall i | 0 <= i < |frames| :: Complete(head, frames[i]) && !halts(frames[i])
  }

  lemma EndIs<T(!new)>(head: seq<T> -> Head, halts: seq<T> -> bool, tail: seq<T>, rest: seq<T>)
    requires Decisive(head) && Ends(head, halts, tail, rest)
    ensures Parse(head, halts, tail) == Parsed([], rest, false)
  {
    if !head(tail).Malformed? {
      var last :| Complete(head, last) && halts(last) && tail == last + rest;
      MoreBytes(head, last, rest);
      WholeFrame(head, tail);
      assert tail[..|last|] == last && tail[|last|..] == rest;
    }
  }

  lemma {:induction false} EndedParses<T(!new)>(head: seq<T> -> Head, halts: seq<T> -> bool, frames: seq<seq<T>>,
      tail: seq<T>, rest: seq<T>)
    requires Decisive(head) && Ends(head, halts, tail, rest)
    requires forall i | 0 <= i < |frames| :: Complete(head, frames[i]) && !halts(frames[i])
    ensures Parse(head, halts, Flatten(frames) + tail) == Parsed(frames, rest, false)
    decreases |frames|
  {
    hide Decisive, Ends;
    var b := Flatten(frames) + tail;
    if frames == [] {
      assert b == tail;
      EndIs(head, halts, tail, rest);
    } else {
      var f := frames[0];
      var more := Flatten(frames[1..]) + tail;
      assert b == f + more;
      assert Complete(head, f);
      MoreBytes(head, f, more);
      WholeFrame(head, f);
      assert b[..|f|] == f && b[|f|..] == more;
      EndedParses(head, halts, frames[1..], tail, rest);
      assert [f] + frames[1..] == frames;
    }
  }

  lemma {:induction false} EndedMeans<T(!new)>(head: seq<T> -> Head, halts: seq<T> -> bool, b: seq<T>)
    requires Decisive(head) && !Parse(head, halts, b).alive
    ensures EndedStream(head, halts, b, Parse(head, halts, b).frames, Parse(head, halts, b).rest)
    decreases |b|
  {
    hide Decisive;
    match head(b)
    case Malformed =>
      assert b == Flatten([]) + b;
      assert Ends(head, halts, b, b);
    case Whole(size) =>
      WholeFrame(head, b);
      ParseFrame(head, halts, b, size);
      var first, more := b[..size], b[size..];
      assert b == first + more;
      if halts(first) {
        assert Complete(head, first);
        assert Ends(head, halts, b, more);
        assert b == Flatten([]) + b;
      } else {
        EndedMeans(head, halts, more);
        EndedCons(head, halts, b, size, Parse(head, halts, more).frames, Parse(head, halts, more).rest);
      }
  }

  lemma EndedCons<T(!new)>(head: seq<T> -> Head, halts: seq<T> -> bool, b: seq<T>, size: nat, frames: seq<seq<T>>,
      rest: seq<T>)
    requires 0 < size <= |b| && Complete(head, b[..size]) && !halts(b[..size])
    requires EndedStream(head, halts, b[size..], frames, rest)
    ensures EndedStream(head, halts, b, [b[..size]] + frames, rest)
  {
    hide Ends, Complete;
    var tail :|
      && b[size..] == Flatten(frames) + tail && Ends(head, halts, tail, rest)
      && forall i | 0 <= i < |frames| :: Complete(head, frames[i]) && !halts(frames[i]);
    var all := [b[..size]] + frames;
    assert all[1..] == frames;
    assert b == b[..size] + (Flatten(frames) + tail) == (b[..size] + Flatten(frames)) + tail;
    assert forall i | 0 < i < |all| :: all[i] == frames[i - 1];
  }

  /** A connection given up has handled exactly the complete frames before the malformed or final one. */
  lemma ParseDeadIff<T(!new)>(head: seq<T> -> Head, halts: seq<T> -> bool, b: seq<T>, frames: seq<seq<T>>, rest: seq<T>)
    requires Decisive(head)
    ensures Parse(head, halts, b) == Parsed(frames, rest, false) <==> EndedStream(head, halts, b, frames, rest)
  {
    if Parse(head, halts, b) == Parsed(frames, rest, false) {
      EndedMeans(head, halts, b);
    }
    if EndedStream(head, halts, b, frames, rest) {
      var tail :|
        && b == Flatten(frames) + tail && Ends(head, halts, tail, rest)
        && forall i | 0 <= i < |frames| :: Complete(head, frames[i]) && !halts(frames[i]);
      EndedParses(head, halts, frames, tail, rest);
    }
  }
}
