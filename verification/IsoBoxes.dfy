/** The boxes of an ISO base media file (section 4.2 of ISO/IEC 14496-12). */
module IsoBoxes {
  import opened Wrappers
  import opened JsText
  import opened BigEndian

  // The layout, and the walker over bytes in memory: `isoBoxes` (src/content_mime.ts).

  const MAX_ISO_BOXES := 4096
  const MAX_SAFE_INTEGER := 0x1F_FFFF_FFFF_FFFF

  /** The extents of a box, within the range that was walked; `next` is where the following box begins. */
  datatype Box = Box(kind: Bytes, at: nat, start: nat, end: nat, next: nat)

  /** What the in-memory walker keeps of a box. */
  datatype IsoBox = IsoBox(kind: Bytes, start: nat, end: nat)

  function Bare(boxes: seq<Box>): (r: seq<IsoBox>)
    ensures |r| == |boxes|
  {
    seq(|boxes|, i requires 0 <= i < |boxes| => IsoBox(boxes[i].kind, boxes[i].start, boxes[i].end))
  }

  /** One look at a position: no box there, a box, or an error (bytes that do not exist, a size past 2^53). */
  datatype Look = NoBox | Found(box: Box) | Failed

  function BoxOf(kind: Bytes, at: nat, header: nat, size: nat, end: nat): Look {
    if size < header then NoBox
    else Found(Box(kind, at, at + header, if at + size < end then at + size else end, at + size))
  }

  /** The box at `at` in the bytes `data`, of which the walk may use those before `end`. */
  function BoxAt(data: Bytes, at: nat, end: nat): Look {
    if at + 8 > end then NoBox
    else if at + 8 > |data| then Failed
    else
      var size, kind := Be32(data, at), data[at + 4..at + 8];
      if size == 1 then
        if at + 16 > end then NoBox
        else if at + 16 > |data| then Failed
        else
          var large := Be64(data, at + 8);
          if large > MAX_SAFE_INTEGER then Failed else BoxOf(kind, at, 16, large, end)
      else if size == 0 then BoxOf(kind, at, 8, end - at, end)
      else BoxOf(kind, at, 8, size, end)
  }

  /** The boxes from `at` on, at most `room` of them; None when a look fails. */
  function Walk(data: Bytes, at: nat, end: nat, room: nat): Option<seq<Box>>
    decreases room
  {
    if room == 0 then Some([])
    else
      match BoxAt(data, at, end)
      case NoBox => Some([])
      case Failed => None
      case Found(box) =>
        var rest :- Walk(data, box.next, end, room - 1);
        Some([box] + rest)
  }

  /** `boxes` found so far, then the rest of the walk. */
  function Resume(boxes: seq<Box>, rest: Option<seq<Box>>): Option<seq<Box>> {
    if rest.None? then None else Some(boxes + rest.value)
  }

  lemma WalkStep(data: Bytes, at: nat, end: nat, room: nat, boxes: seq<Box>, whole: Option<seq<Box>>)
    requires room > 0 && whole == Resume(boxes, Walk(data, at, end, room))
    ensures match BoxAt(data, at, end)
            case NoBox => whole == Some(boxes)
            case Failed => whole == None
            case Found(box) => whole == Resume(boxes + [box], Walk(data, box.next, end, room - 1))
  {
    var look := BoxAt(data, at, end);
    if look.Found? {
      var rest := Walk(data, look.box.next, end, room - 1);
      if rest.Some? {
        assert boxes + ([look.box] + rest.value) == (boxes + [look.box]) + rest.value;
      }
    } else if look.NoBox? {
      assert boxes + [] == boxes;
    }
  }

  /** `isoBoxes`: None stands for the RangeError of a read outside the bytes or of an unsafe size. */
  method Boxes(data: Bytes, start: nat, end: nat) returns (r: Option<seq<IsoBox>>)
    ensures r.Some? <==> Walk(data, start, end, MAX_ISO_BOXES).Some?
    ensures r.Some? ==> r.value == Bare(Walk(data, start, end, MAX_ISO_BOXES).value)
  {
    hide Walk;
    var boxes: seq<IsoBox> := [];
    ghost var seen: seq<Box> := [];
    var at: nat := start;
    ghost var whole := Walk(data, start, end, MAX_ISO_BOXES);
    ResumeNothing(whole);
    WalkNoRoom(data, start, end);
    while |boxes| < MAX_ISO_BOXES && at + 8 <= end
      invariant |boxes| == |seen| <= MAX_ISO_BOXES && boxes == Bare(seen)
      invariant whole == Resume(seen, Walk(data, at, end, MAX_ISO_BOXES - |seen|))
      decreases MAX_ISO_BOXES - |boxes|
    {
      WalkStep(data, at, end, MAX_ISO_BOXES - |seen|, seen, whole);
      if at + 8 > |data| {
        return None;
      }
      var size := Be32(data, at);
      var kind := data[at + 4..at + 8];
      var header := 8;
      if size == 1 {
        if at + 16 > end { break; }
        if at + 16 > |data| {
          return None;
        }
        size := Be64(data, at + 8);
        if size > MAX_SAFE_INTEGER {
          return None;
        }
        header := 16;
      } else if size == 0 {
        size := end - at;
      }
      if size < header { break; }
      var found := IsoBox(kind, at + header, if at + size < end then at + size else end);
      ghost var look := BoxAt(data, at, end);
      assert look.Found? && IsoBox(look.box.kind, look.box.start, look.box.end) == found && look.box.next == at + size;
      assert Bare(seen + [look.box]) == Bare(seen) + [found];
      seen := seen + [look.box];
      boxes := boxes + [found];
      at := at + size;
    }
    if |seen| < MAX_ISO_BOXES {
      WalkStep(data, at, end, MAX_ISO_BOXES - |seen|, seen, whole);
    } else {
      WalkNoRoom(data, at, end);
      assert seen + [] == seen;
    }
    return Some(boxes);
  }

  lemma WalkNoRoom(data: Bytes, at: nat, end: nat)
    ensures Walk(data, at, end, 0) == Some([])
  {}

  lemma ResumeNothing(rest: Option<seq<Box>>)
    ensures Resume([], rest) == rest
  {
    if rest.Some? {
      assert [] + rest.value == rest.value;
    }
  }

  // ---- the boxes lie one after the other within the range

  /**
   * Boxes lie in `[start, end)` one after the other: each begins where the one before it ends, and only the last is
   * clipped.
   */
  ghost predicate InOrder(boxes: seq<Box>, start: nat, end: nat) {
    && (boxes != [] ==> boxes[0].at == start)
    && (forall i | 0 <= i < |boxes| ::
          boxes[i].at + 8 <= boxes[i].start <= boxes[i].end <= end && boxes[i].end <= boxes[i].next)
    && (forall i | 0 <= i < |boxes| - 1 :: boxes[i].end == boxes[i].next == boxes[i + 1].at)
  }

  lemma FoundInRange(data: Bytes, at: nat, end: nat)
    requires BoxAt(data, at, end).Found?
    ensures var box := BoxAt(data, at, end).box;
            && box.at == at && at + 8 <= box.start <= box.end <= end && box.end <= box.next
            && (box.next + 8 <= end ==> box.end == box.next)
  {
    hide Be32, Be64;
  }

  lemma {:induction false} WalkInOrder(data: Bytes, at: nat, end: nat, room: nat)
    requires Walk(data, at, end, room).Some?
    ensures |Walk(data, at, end, room).value| <= room
    ensures InOrder(Walk(data, at, end, room).value, at, end)
    decreases room
  {
    hide BoxAt;
    if room > 0 {
      var look := BoxAt(data, at, end);
      if look.Found? {
        FoundInRange(data, at, end);
        WalkInOrder(data, look.box.next, end, room - 1);
        var rest := Walk(data, look.box.next, end, room - 1).value;
        var boxes := [look.box] + rest;
        assert forall i | 0 < i < |boxes| :: boxes[i] == rest[i - 1];
        if rest != [] {
          assert rest[0].at + 8 <= end;
        }
      }
    }
  }

  /** No two boxes of one walk share a byte, however far apart they are in the list. */
  lemma {:induction false} WalkDisjoint(data: Bytes, at: nat, end: nat, room: nat, i: nat, j: nat)
    requires Walk(data, at, end, room).Some? && i < j < |Walk(data, at, end, room).value|
    ensures var boxes := Walk(data, at, end, room).value;
            at <= boxes[i].at < boxes[i].end <= boxes[j].at < boxes[j].end <= end
    decreases j
  {
    WalkInOrder(data, at, end, room);
    var boxes := Walk(data, at, end, room).value;
    if j > i + 1 {
      WalkDisjoint(data, at, end, room, i, j - 1);
    } else if i > 0 {
      WalkDisjoint(data, at, end, room, 0, i);
    }
  }

  // ---- a file laid out box by box is walked back to its boxes

  datatype Form = Compact | Large | ToEnd

  datatype Laid = Laid(form: Form, kind: Bytes, payload: Bytes)

  function Header(box: Laid): (b: Bytes)
    requires Fits(box)
    ensures |b| == HeaderSize(box)
  {
    match box.form
    case Compact => Bytes32(8 + |box.payload|) + box.kind
    case Large =>
      var size := 16 + |box.payload|;
      Bytes32(1) + box.kind + Bytes32(size / 0x1_0000_0000) + Bytes32(size % 0x1_0000_0000)
    case ToEnd => Bytes32(0) + box.kind
  }

  function HeaderSize(box: Laid): nat { if box.form.Large? then 16 else 8 }

  predicate Fits(box: Laid) {
    && |box.kind| == 4
    && (box.form.Compact? ==> 8 + |box.payload| < 0x1_0000_0000)
    && (box.form.Large? ==> 16 + |box.payload| <= MAX_SAFE_INTEGER)
  }

  /** Only the last box may leave its size out. */
  predicate Layout(boxes: seq<Laid>) {
    && (forall i | 0 <= i < |boxes| :: Fits(boxes[i]))
    && (forall i | 0 <= i < |boxes| - 1 :: !boxes[i].form.ToEnd?)
  }

  function LayOut(boxes: seq<Laid>): Bytes
    requires Layout(boxes)
  {
    if boxes == [] then [] else Header(boxes[0]) + boxes[0].payload + LayOut(boxes[1..])
  }

  /** Each box of the walk is the laid-out one: its kind, and exactly its payload between `start` and `end`. */
  ghost predicate Matches(found: seq<Box>, boxes: seq<Laid>, data: Bytes) {
    && |found| == |boxes|
    && (forall i | 0 <= i < |boxes| ::
          found[i].start <= found[i].end <= |data| && found[i].kind == boxes[i].kind
          && data[found[i].start..found[i].end] == boxes[i].payload)
  }

  lemma SizedBoxAt(before: Bytes, n: nat, kind: Bytes, payload: Bytes, after: Bytes)
    requires n < 0x1_0000_0000 && |kind| == 4 && (n == 8 + |payload| || (n == 0 && after == []))
    ensures var data := before + (Bytes32(n) + (kind + (payload + after)));
            var start := |before| + 8;
            && BoxAt(data, |before|, |data|) == Found(Box(kind, |before|, start, start + |payload|, start + |payload|))
            && data[start..start + |payload|] == payload
  {
    hide Bytes32, Be32;
    var tail := kind + (payload + after);
    var data := before + (Bytes32(n) + tail);
    Bytes32Be32(before, n, tail);
    assert data == before + Bytes32(n) + tail;
    assert data[|before| + 4..|before| + 8] == kind;
  }

  lemma LargeBoxAt(before: Bytes, kind: Bytes, payload: Bytes, after: Bytes)
    requires |kind| == 4 && 16 + |payload| <= MAX_SAFE_INTEGER
    ensures var size := 16 + |payload|;
            var data := before
                + (Bytes32(1)
                    + (kind + (Bytes32(size / 0x1_0000_0000) + (Bytes32(size % 0x1_0000_0000) + (payload + after)))));
            var start := |before| + 16;
            && BoxAt(data, |before|, |data|) == Found(Box(kind, |before|, start, start + |payload|, start + |payload|))
            && data[start..start + |payload|] == payload
  {
    hide Bytes32, Be32;
    var size := 16 + |payload|;
    var hi, lo := size / 0x1_0000_0000, size % 0x1_0000_0000;
    var lows := Bytes32(lo) + (payload + after);
    var highs := Bytes32(hi) + lows;
    var data := before + (Bytes32(1) + (kind + highs));
    Bytes32Be32(before, 1, kind + highs);
    assert data == before + Bytes32(1) + (kind + highs);
    var front := before + Bytes32(1) + kind;
    Bytes32Be32(front, hi, lows);
    assert data == front + Bytes32(hi) + lows;
    Bytes32Be32(front + Bytes32(hi), lo, payload + after);
    assert data == (front + Bytes32(hi)) + Bytes32(lo) + (payload + after);
    assert data[|before| + 4..|before| + 8] == kind;
  }

  lemma SmallHeader(box: Laid, n: nat, after: Bytes)
    requires Fits(box) && !box.form.Large? && n == if box.form.ToEnd? then 0 else 8 + |box.payload|
    ensures n < 0x1_0000_0000 && Header(box) + box.payload + after == Bytes32(n) + (box.kind + (box.payload + after))
  {
    hide Bytes32;
  }

  lemma LargeHeader(box: Laid, after: Bytes)
    requires Fits(box) && box.form.Large?
    ensures var size := 16 + |box.payload|;
            Header(box) + box.payload + after ==
            Bytes32(1) + (box.kind
                + (Bytes32(size / 0x1_0000_0000) + (Bytes32(size % 0x1_0000_0000) + (box.payload + after))))
  {
    hide Bytes32;
  }

  lemma LaidBoxAt(before: Bytes, box: Laid, after: Bytes)
    requires Fits(box) && (box.form.ToEnd? ==> after == [])
    ensures var data := before + (Header(box) + box.payload + after);
            var start := |before| + HeaderSize(box);
            && BoxAt(data, |before|, |data|)
                   == Found(Box(box.kind, |before|, start, start + |box.payload|, start + |box.payload|))
            && data[start..start + |box.payload|] == box.payload
  {
    hide Bytes32, BoxAt, Header;
    match box.form
    case Compact =>
      SmallHeader(box, 8 + |box.payload|, after);
      SizedBoxAt(before, 8 + |box.payload|, box.kind, box.payload, after);
    case ToEnd =>
      SmallHeader(box, 0, after);
      SizedBoxAt(before, 0, box.kind, box.payload, after);
    case Large =>
      LargeHeader(box, after);
      LargeBoxAt(before, box.kind, box.payload, after);
  }

  lemma MatchesCons(first: Box, rest: seq<Box>, boxes: seq<Laid>, data: Bytes)
    requires boxes != [] && Matches(rest, boxes[1..], data)
    requires first.start <= first.end <= |data| && first.kind == boxes[0].kind
    requires data[first.start..first.end] == boxes[0].payload
    ensures Matches([first] + rest, boxes, data)
  {
    var found := [first] + rest;
    assert forall i | 0 < i < |found| :: found[i] == rest[i - 1] && boxes[i] == boxes[1..][i - 1];
  }

  lemma MatchesNone(data: Bytes)
    ensures Matches([], [], data)
  {}

  lemma NothingAtEnd(data: Bytes, at: nat, end: nat)
    requires at + 8 > end
    ensures BoxAt(data, at, end) == NoBox
  {}

  lemma LayOutCons(before: Bytes, boxes: seq<Laid>)
    requires Layout(boxes) && boxes != []
    ensures var data, box, after := before + LayOut(boxes), boxes[0], LayOut(boxes[1..]);
            && data == before + (Header(box) + box.payload + after)
            && data == before + Header(box) + box.payload + after
  {
    hide Header;
    var box, after := boxes[0], LayOut(boxes[1..]);
    assert LayOut(boxes) == Header(box) + box.payload + after;
    hide LayOut;
    assert before + (Header(box) + box.payload + after) == before + Header(box) + box.payload + after;
  }

  lemma WalkCons(data: Bytes, at: nat, end: nat, room: nat)
    requires room > 0 && BoxAt(data, at, end).Found?
    ensures var box := BoxAt(data, at, end).box;
            Walk(data, at, end, room) == Resume([box], Walk(data, box.next, end, room - 1))
  {}

  /**
   * Walking laid-out boxes finds them again, each with its payload, up to the number of boxes the walk has room for.
   */
  lemma {:induction false} WalkFindsLayout(before: Bytes, boxes: seq<Laid>, room: nat)
    requires Layout(boxes) && |boxes| <= room
    ensures var data := before + LayOut(boxes);
            && Walk(data, |before|, |data|, room).Some?
            && Matches(Walk(data, |before|, |data|, room).value, boxes, data)
    decreases |boxes|
  {
    hide BoxAt, Header, Matches;
    var data := before + LayOut(boxes);
    if boxes != [] {
      hide LayOut, Walk;
      var box, after := boxes[0], LayOut(boxes[1..]);
      var next := before + Header(box) + box.payload;
      LayOutCons(before, boxes);
      LaidBoxAt(before, box, after);
      WalkCons(data, |before|, |data|, room);
      WalkFindsLayout(next, boxes[1..], room - 1);
      var first := BoxAt(data, |before|, |data|).box;
      MatchesCons(first, Walk(data, |next|, |data|, room - 1).value, boxes, data);
    } else {
      NothingAtEnd(data, |before|, |data|);
      MatchesNone(data);
    }
  }

  // ---- what a walk is, by the bytes

  /** The header at `at` is there, with this first word. */
  predicate WordAt(data: Bytes, at: nat, end: nat, word: nat) {
    && at + 8 <= end && at + 8 <= |data| && word < 0x1_0000_0000 && data[at..at + 4] == Bytes32(word)
  }

  /** The 64-bit size after a first word of one. */
  predicate LargeAt(data: Bytes, at: nat, end: nat, size: nat) {
    && WordAt(data, at, end, 1) && at + 16 <= end && at + 16 <= |data|
    && size < 0x1_0000_0000_0000_0000 && data[at + 8..at + 16] == Bytes64(size)
  }

  /** The header gives the box this size and is this long: a size of its own, up to the end, or a 64-bit size. */
  ghost predicate Sized(data: Bytes, at: nat, end: nat, size: nat, header: nat) {
    || (header == 8 && size >= 8 && WordAt(data, at, end, size))
    || (header == 8 && size == end - at && WordAt(data, at, end, 0))
    || (header == 16 && 16 <= size <= 9007199254740991 && LargeAt(data, at, end, size))
  }

  /**
   * The bytes at `at` are a box: its kind follows the first word, its content the header; the next box follows it, and
   * a box past the end of the range is cut off there.
   */
  ghost predicate BoxThere(data: Bytes, at: nat, end: nat, box: Box) {
    && at + 8 <= |data| && box.at == at && box.kind == data[at + 4..at + 8]
    && exists size, header ::
         && Sized(data, at, end, size, header) && box.start == at + header && box.next == at + size
         && (if at + size <= end then box.end == at + size else box.end == end)
  }

  /** The walk ends here: no room for a header, or a size smaller than its header. */
  ghost predicate StopsAt(data: Bytes, at: nat, end: nat) {
    || at + 8 > end
    || (exists word :: 2 <= word < 8 && WordAt(data, at, end, word))
    || (WordAt(data, at, end, 1) && at + 16 > end)
    || (exists size :: size < 16 && LargeAt(data, at, end, size))
  }

  /** The walk fails here: the range goes on where the bytes do not, or a size is no exact number. */
  ghost predicate FailsAt(data: Bytes, at: nat, end: nat) {
    || (at + 8 <= end && at + 8 > |data|)
    || (WordAt(data, at, end, 1) && at + 16 <= end && at + 16 > |data|)
    || (exists size :: size > 9007199254740991 && LargeAt(data, at, end, size))
  }

  lemma WordIff(data: Bytes, at: nat, end: nat, word: nat)
    requires at + 8 <= end && at + 8 <= |data|
    ensures WordAt(data, at, end, word) <==> word == Be32(data, at)
  {
    Be32Bytes32(data, at);
    if WordAt(data, at, end, word) {
      assert data == data[..at] + Bytes32(word) + data[at + 4..];
      Bytes32Be32(data[..at], word, data[at + 4..]);
    }
  }

  lemma LargeIff(data: Bytes, at: nat, end: nat, size: nat)
    requires at + 16 <= end && at + 16 <= |data|
    ensures LargeAt(data, at, end, size) <==> Be32(data, at) == 1 && size == Be64(data, at + 8)
  {
    WordIff(data, at, end, 1);
    hide Be32, Bytes32;
    Be64Bytes64(data, at + 8);
    if LargeAt(data, at, end, size) {
      assert data == data[..at + 8] + Bytes64(size) + data[at + 16..];
      Bytes64Be64(data[..at + 8], size, data[at + 16..]);
    }
  }

  lemma SizedFound(data: Bytes, at: nat, end: nat, size: nat, header: nat)
    requires Sized(data, at, end, size, header)
    ensures BoxAt(data, at, end)
         == Found(Box(data[at + 4..at + 8], at, at + header, if at + size <= end then at + size else end, at + size))
  {
    hide Be32, Be64, Bytes32, Bytes64;
    WordIff(data, at, end, size);
    WordIff(data, at, end, 0);
    if header == 16 {
      WordIff(data, at, end, 1);
      LargeIff(data, at, end, size);
    }
  }

  lemma FoundSized(data: Bytes, at: nat, end: nat)
    requires BoxAt(data, at, end).Found?
    ensures BoxThere(data, at, end, BoxAt(data, at, end).box)
  {
    hide Be32, Be64, Bytes32, Bytes64;
    var word := Be32(data, at);
    Be32Bytes32(data, at);
    WordIff(data, at, end, word);
    var size := if word == 1 then Be64(data, at + 8) else if word == 0 then end - at else word;
    var header := if word == 1 then 16 else 8;
    if word == 1 {
      LargeIff(data, at, end, size);
    }
    assert Sized(data, at, end, size, header);
  }

  lemma StopsIff(data: Bytes, at: nat, end: nat)
    ensures BoxAt(data, at, end) == NoBox <==> StopsAt(data, at, end)
  {
    hide Be32, Be64, Bytes32, Bytes64;
    if at + 8 <= end && at + 8 <= |data| {
      var word := Be32(data, at);
      Be32Bytes32(data, at);
      forall w: nat
        ensures WordAt(data, at, end, w) <==> w == word
      {
        WordIff(data, at, end, w);
      }
      assert WordAt(data, at, end, word);
      if word == 1 && at + 16 <= end && at + 16 <= |data| {
        forall size: nat
          ensures LargeAt(data, at, end, size) <==> size == Be64(data, at + 8)
        {
          LargeIff(data, at, end, size);
        }
        Be64Bytes64(data, at + 8);
        assert LargeAt(data, at, end, Be64(data, at + 8));
      }
    }
  }

  lemma FailsIff(data: Bytes, at: nat, end: nat)
    ensures BoxAt(data, at, end) == Failed <==> FailsAt(data, at, end)
  {
    hide Be32, Be64, Bytes32, Bytes64;
    if at + 8 <= end && at + 8 <= |data| {
      var word := Be32(data, at);
      WordIff(data, at, end, 1);
      if at + 16 <= end && at + 16 <= |data| {
        forall size: nat
          ensures LargeAt(data, at, end, size) <==> Be32(data, at) == 1 && size == Be64(data, at + 8)
        {
          LargeIff(data, at, end, size);
        }
        assert LargeAt(data, at, end, Be64(data, at + 8)) <==> word == 1;
      }
    }
  }

  /** One look at a position finds what is there. */
  lemma LookIff(data: Bytes, at: nat, end: nat)
    ensures forall box :: BoxAt(data, at, end) == Found(box) <==> BoxThere(data, at, end, box)
    ensures BoxAt(data, at, end) == NoBox <==> StopsAt(data, at, end)
    ensures BoxAt(data, at, end) == Failed <==> FailsAt(data, at, end)
  {
    StopsIff(data, at, end);
    FailsIff(data, at, end);
    hide StopsAt, FailsAt, Sized;
    forall box
      ensures BoxAt(data, at, end) == Found(box) <==> BoxThere(data, at, end, box)
    {
      if BoxAt(data, at, end) == Found(box) {
        FoundSized(data, at, end);
      }
      if BoxThere(data, at, end, box) {
        hide BoxAt;
        var size, header :|
          && Sized(data, at, end, size, header) && box.start == at + header && box.next == at + size
          && (if at + size <= end then box.end == at + size else box.end == end);
        SizedFound(data, at, end, size, header);
      }
    }
  }

  /** Where the walk stands after the boxes. */
  function After(boxes: seq<Box>, at: nat): nat { if boxes == [] then at else boxes[|boxes| - 1].next }

  /** Each of the boxes is there, the first at `at` and each other after the one before it. */
  ghost predicate BoxesThere(data: Bytes, boxes: seq<Box>, at: nat, end: nat) {
    forall i | 0 <= i < |boxes| :: BoxThere(data, After(boxes[..i], at), end, boxes[i])
  }

  lemma BoxesThereCons(data: Bytes, box: Box, rest: seq<Box>, at: nat, end: nat)
    ensures BoxesThere(data, [box] + rest, at, end)
       <==> BoxThere(data, at, end, box) && BoxesThere(data, rest, box.next, end)
    ensures After([box] + rest, at) == After(rest, box.next)
  {
    var boxes := [box] + rest;
    forall i | 0 <= i < |boxes|
      ensures After(boxes[..i], at) == if i == 0 then at else After(rest[..i - 1], box.next)
    {
      assert i > 1 ==> boxes[..i][i - 1] == rest[..i - 1][i - 2];
    }
    hide BoxThere, After;
    if BoxesThere(data, boxes, at, end) {
      forall i | 0 <= i < |rest|
        ensures BoxThere(data, After(rest[..i], box.next), end, rest[i])
      {
        assert boxes[i + 1] == rest[i];
      }
      assert boxes[0] == box;
    }
    if BoxThere(data, at, end, box) && BoxesThere(data, rest, box.next, end) {
      forall i | 0 <= i < |boxes|
        ensures BoxThere(data, After(boxes[..i], at), end, boxes[i])
      {
        assert i > 0 ==> boxes[i] == rest[i - 1];
      }
    }
  }

  /** The walk goes over the boxes that are there, as many as it may take, until no box is there. */
  ghost predicate WalkedTo(data: Bytes, boxes: seq<Box>, at: nat, end: nat, room: nat) {
    && |boxes| <= room && BoxesThere(data, boxes, at, end)
    && (|boxes| == room || StopsAt(data, After(boxes, at), end))
  }

  /**
   * The walk of a range by its bytes: it gives the boxes that are there, one after the other, up to the limit or the
   * first position where none is; it fails only at a position where the bytes or the size cannot be read.
   */
  lemma {:induction false} WalkIff(data: Bytes, at: nat, end: nat, room: nat, boxes: seq<Box>)
    ensures Walk(data, at, end, room) == Some(boxes) <==> WalkedTo(data, boxes, at, end, room)
    decreases room
  {
    hide BoxThere, StopsAt, FailsAt, Walk;
    LookIff(data, at, end);
    if boxes == [] {
      WalkNothingIff(data, at, end, room);
    } else {
      var box, rest := boxes[0], boxes[1..];
      assert boxes == [box] + rest;
      WalkConsIff(data, at, end, room, box, rest);
      BoxesThereCons(data, box, rest, at, end);
      hide BoxesThere, After;
      if room > 0 {
        WalkIff(data, box.next, end, room - 1, rest);
      }
    }
  }

  lemma WalkNothingIff(data: Bytes, at: nat, end: nat, room: nat)
    ensures Walk(data, at, end, room) == Some([]) <==> room == 0 || BoxAt(data, at, end) == NoBox
  {
    hide BoxAt;
  }

  lemma WalkConsIff(data: Bytes, at: nat, end: nat, room: nat, box: Box, rest: seq<Box>)
    ensures Walk(data, at, end, room) == Some([box] + rest)
       <==> room > 0 && BoxAt(data, at, end) == Found(box) && Walk(data, box.next, end, room - 1) == Some(rest)
  {
    hide BoxAt;
    assert ([box] + rest)[1..] == rest;
    if room > 0 && BoxAt(data, at, end).Found? {
      var first := BoxAt(data, at, end).box;
      var more := Walk(data, first.next, end, room - 1);
      assert more.Some? ==> ([first] + more.value)[0] == first && ([first] + more.value)[1..] == more.value;
    }
  }
}
