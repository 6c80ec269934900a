/**
 * The bounded reader of a media file and the box walk over it: `Reader`, `readIsoBox`, `readChildren`
 * (src/file_meta.ts).
 */
module MediaReader {
  import opened Wrappers
  import opened JsText
  import opened BigEndian
  import opened IsoBoxes

  const FILE_META_READ_LIMIT := 8 * 1024 * 1024
  const READ_WINDOW := 64 * 1024

  /**
   * Random access to the bytes of a file. A read may fail or give the wrong number of bytes, unless the source is
   * reliable; one that gives the right number gives the right bytes. `requested` counts the bytes it was ever asked
   * for, `asked` are the reads.
   */
  class Source {
    const content: Bytes
    const reliable: bool
    var requested: nat
    ghost var asked: seq<Extent>

    constructor (content: Bytes, reliable: bool)
      ensures this.content == content && this.reliable == reliable && requested == 0 && asked == []
    {
      this.content, this.reliable := content, reliable;
      requested, asked := 0, [];
    }

    method ReadAt(offset: nat, length: nat) returns (r: Option<Bytes>)
      requires offset + length <= |content|
      modifies this
      ensures requested == old(requested) + length && asked == old(asked) + [Extent(offset, offset + length)]
      ensures r.Some? && |r.value| == length ==> r.value == content[offset..offset + length]
      ensures reliable ==> r.Some? && |r.value| == length
    {
      requested, asked := requested + length, asked + [Extent(offset, offset + length)];
      if reliable {
        return Some(content[offset..offset + length]);
      }
      if * {
        return None;
      }
      var given: nat :| offset + given <= |content|;
      return Some(content[offset..offset + given]);
    }
  }

  // ---- what reads cost

  /** The bytes of the file that a reader holds. */
  datatype Extent = Extent(from: nat, to: nat)

  predicate Covers(w: Extent, offset: nat, length: nat) { length == 0 || w.from <= offset <= offset + length <= w.to }

  predicate HasByte(w: Extent, i: nat) { w.from <= i < w.to }

  /** Every byte of the read is in the window. */
  ghost predicate Within(w: Extent, offset: nat, length: nat) {
    forall i | offset <= i < offset + length :: HasByte(w, i)
  }

  /** A fetch goes on to the end of the file, or takes 64 kB, or as much as is read if that is more. */
  predicate FetchedTo(size: nat, offset: nat, length: nat, to: nat) {
    && offset + length <= to <= size
    && (to == size || (to == offset + 65536 && length <= 65536) || (to == offset + length && length > 65536))
    && (to == size ==> size - offset <= 65536 || size - offset == length)
  }

  /** The bytes a read that misses the window fetches. */
  function FetchSize(size: nat, offset: nat, length: nat): nat
    requires offset + length <= size
  {
    var wanted := if length > READ_WINDOW then length else READ_WINDOW;
    if wanted < size - offset then wanted else size - offset
  }

  /** What a read takes from the budget. */
  function ReadCost(size: nat, w: Extent, offset: nat, length: nat): nat
    requires offset + length <= size
  {
    if Covers(w, offset, length) then 0 else FetchSize(size, offset, length)
  }

  /** The window after it. */
  function ReadWindow(size: nat, w: Extent, offset: nat, length: nat): Extent
    requires offset + length <= size
  {
    if Covers(w, offset, length) then w else Extent(offset, offset + FetchSize(size, offset, length))
  }

  /** A box header whose second half, the 64-bit size, is read too. */
  predicate IsWide(data: Bytes, at: nat, end: nat) {
    at + 16 <= end && at + 16 <= |data| && Be32(data, at) == 1
  }

  /** A read asks the source once, for the new window, or not at all. */
  ghost predicate Fetches(before: seq<Extent>, after: seq<Extent>, size: nat, w: Extent, offset: nat, length: nat) {
    || after == before
    || (offset + length <= size && !Covers(w, offset, length)
        && after == before + [ReadWindow(size, w, offset, length)])
  }

  lemma CoversIff(w: Extent, offset: nat, length: nat)
    ensures Covers(w, offset, length) <==> Within(w, offset, length)
  {
    if length > 0 && Within(w, offset, length) {
      assert HasByte(w, offset) && HasByte(w, offset + length - 1);
    }
  }

  /** A read is free exactly when the window holds it; otherwise it costs, and leaves, what is fetched. */
  lemma ReadIs(size: nat, w: Extent, offset: nat, length: nat)
    requires offset + length <= size
    ensures ReadCost(size, w, offset, length) == 0 <==> Within(w, offset, length)
    ensures Within(w, offset, length) ==> ReadWindow(size, w, offset, length) == w
    ensures !Within(w, offset, length) ==>
              var to := ReadWindow(size, w, offset, length).to;
              && ReadWindow(size, w, offset, length).from == offset && FetchedTo(size, offset, length, to)
              && ReadCost(size, w, offset, length) == to - offset
  {
    CoversIff(w, offset, length);
  }

  /** What a look at a box takes: its header is read in one piece or two. */
  function LookCost(data: Bytes, w: Extent, at: nat, end: nat): nat {
    if at + 8 > end || at + 8 > |data| then 0
    else if IsWide(data, at, end) then
      ReadCost(|data|, w, at, 8) + ReadCost(|data|, ReadWindow(|data|, w, at, 8), at + 8, 8)
    else ReadCost(|data|, w, at, 8)
  }

  function LookWindow(data: Bytes, w: Extent, at: nat, end: nat): Extent {
    if at + 8 > end || at + 8 > |data| then w
    else if IsWide(data, at, end) then ReadWindow(|data|, ReadWindow(|data|, w, at, 8), at + 8, 8)
    else ReadWindow(|data|, w, at, 8)
  }

  /** What the walk takes, its last look included. */
  function WalkCost(data: Bytes, w: Extent, at: nat, end: nat, room: nat): nat
    decreases room
  {
    if room == 0 then 0
    else
      var look := BoxAt(data, at, end);
      LookCost(data, w, at, end)
      + if look.Found? then WalkCost(data, LookWindow(data, w, at, end), look.box.next, end, room - 1) else 0
  }

  /** A look fetches at most once: a fetched header is in the window as a whole. */
  lemma LookCostBound(data: Bytes, w: Extent, at: nat, end: nat)
    ensures LookCost(data, w, at, end) <= READ_WINDOW
  {}

  lemma {:induction false} WalkCostBound(data: Bytes, w: Extent, at: nat, end: nat, room: nat)
    requires Walk(data, at, end, room).Some?
    ensures WalkCost(data, w, at, end, room) <= READ_WINDOW * (|Walk(data, at, end, room).value| + 1)
    decreases room
  {
    hide LookCost, LookWindow, BoxAt;
    if room > 0 {
      LookCostBound(data, w, at, end);
      var look := BoxAt(data, at, end);
      if look.Found? {
        WalkCostBound(data, LookWindow(data, w, at, end), look.box.next, end, room - 1);
      }
    }
  }

  /** A window of the file and a budget that every fetch is paid from. A failed read is None: the thrown STOP. */
  class Reader {
    const source: Source
    const size: nat
    var remaining: nat
    var windowStart: nat
    var window: Bytes

    ghost predicate Valid()
      reads this, source
    {
      && size == |source.content|
      && source.requested + remaining == FILE_META_READ_LIMIT
      && windowStart + |window| <= size
      && window == source.content[windowStart..windowStart + |window|]
    }

    constructor (source: Source)
      requires source.requested == 0
      ensures Valid() && this.source == source && remaining == FILE_META_READ_LIMIT && Window() == Extent(0, 0)
    {
      this.source := source;
      size := |source.content|;
      remaining := FILE_META_READ_LIMIT;
      windowStart := 0;
      window := [];
    }

    function Window(): Extent
      reads this
    {
      Extent(windowStart, windowStart + |window|)
    }

    /** The source is reliable and its offsets are exact numbers. */
    predicate Sure() { source.reliable && size <= MAX_SAFE_INTEGER }

    method Read(offset: nat, length: nat) returns (r: Option<Bytes>)
      requires Valid()
      modifies this, source
      ensures Valid() && source.requested <= FILE_META_READ_LIMIT
      ensures r.Some? ==> offset + length <= size && r.value == source.content[offset..offset + length]
      ensures offset + length > MAX_SAFE_INTEGER || offset + length > size ==> r.None?
      ensures offset + length <= MAX_SAFE_INTEGER && offset + length <= size ==>
                var cost := ReadCost(size, old(Window()), offset, length);
                && (Covers(old(Window()), offset, length) ==> r.Some?)
                && if cost > old(remaining) then r.None? && remaining == old(remaining)
                       else remaining == old(remaining) - cost
      ensures Fetches(old(source.asked), source.asked, size, old(Window()), offset, length)
      ensures r.Some? ==> Window() == ReadWindow(size, old(Window()), offset, length)
      ensures r.None? ==> Window() == old(Window())
      ensures Sure() && offset + length <= size ==>
                (r.Some? <==> ReadCost(size, old(Window()), offset, length) <= old(remaining))
    {
      var end := offset + length;
      if end > MAX_SAFE_INTEGER || end > size {
        return None;
      }
      if length == 0 {
        return Some([]);
      }
      var windowEnd := windowStart + |window|;
      if offset >= windowStart && end <= windowEnd {
        var from := offset - windowStart;
        SliceOfSlice(source.content, windowStart, windowEnd, from, from + length);
        return Some(window[from..from + length]);
      }
      var fetch := FetchSize(size, offset, length);
      if fetch > remaining {
        return None;
      }
      remaining := remaining - fetch;
      var bytes := source.ReadAt(offset, fetch);
      if bytes.None? || |bytes.value| != fetch {
        return None;
      }
      windowStart := offset;
      window := bytes.value;
      SliceOfSlice(source.content, offset, offset + fetch, 0, length);
      assert bytes.value[..length] == bytes.value[0..length];
      return Some(bytes.value[..length]);
    }
  }

  lemma SliceOfSlice(b: Bytes, from: nat, to: nat, i: nat, j: nat)
    requires from <= to <= |b| && i <= j <= to - from
    ensures b[from..to][i..j] == b[from + i..from + j]
  {
    var s := b[from..to];
    assert forall k | 0 <= k < j - i :: s[i..j][k] == s[i + k] == b[from + (i + k)] == b[from + i..from + j][k];
  }

  /** `readIsoBox`: Failed stands for a thrown error. */
  method ReadIsoBox(reader: Reader, at: nat, end: nat) returns (r: Look)
    requires reader.Valid()
    modifies reader, reader.source
    ensures reader.Valid()
    ensures !r.Failed? ==> r == BoxAt(reader.source.content, at, end)
    ensures var cost := LookCost(reader.source.content, old(reader.Window()), at, end);
            && (!r.Failed? ==>
                  && reader.remaining == old(reader.remaining) - cost
                  && reader.Window() == LookWindow(reader.source.content, old(reader.Window()), at, end))
            && (reader.Sure() ==>
                  (r.Failed? <==> BoxAt(reader.source.content, at, end).Failed? || cost > old(reader.remaining)))
  {
    hide Be32, Be64, ReadCost, ReadWindow, FetchSize, Covers, Fetches;
    var data := reader.source.content;
    if at + 8 > end {
      return NoBox;
    }
    var head := reader.Read(at, 8);
    if head.None? {
      return Failed;
    }
    Be32Within(data, at, head.value, 0);
    var size := Be32(head.value, 0);
    var kind := head.value[4..8];
    assert kind == data[at + 4..at + 8];
    var header := 8;
    if size == 1 {
      if at + 16 > end {
        return NoBox;
      }
      var wide := reader.Read(at + 8, 8);
      if wide.None? {
        return Failed;
      }
      Be64Within(data, at + 8, wide.value);
      size := Be64(wide.value, 0);
      if size > MAX_SAFE_INTEGER {
        return Failed;
      }
      header := 16;
    } else if size == 0 {
      size := end - at;
    }
    if size < header {
      return NoBox;
    }
    return Found(Box(kind, at, at + header, if at + size < end then at + size else end, at + size));
  }

  /**
   * `readChildren`: whenever it returns, it returns the boxes the walk over the whole bytes finds (`Boxes` finds
   * the same), and never having asked the source for more than the limit. From a reliable source it returns exactly
   * when that walk succeeds and the budget covers what it reads.
   */
  method ReadChildren(reader: Reader, start: nat, end: nat) returns (r: Option<seq<Box>>)
    requires reader.Valid()
    modifies reader, reader.source
    ensures reader.Valid() && reader.source.requested <= FILE_META_READ_LIMIT
    ensures r.Some? ==> r == Walk(reader.source.content, start, end, MAX_ISO_BOXES)
    ensures var cost := WalkCost(reader.source.content, old(reader.Window()), start, end, MAX_ISO_BOXES);
            && (r.Some? ==> reader.remaining == old(reader.remaining) - cost)
            && (reader.Sure() ==>
                  (r.Some? <==> cost <= old(reader.remaining)
                                && Walk(reader.source.content, start, end, MAX_ISO_BOXES).Some?))
  {
    hide Walk, WalkCost, LookCost, LookWindow, BoxAt;
    var data := reader.source.content;
    ghost var total := WalkCost(data, reader.Window(), start, end, MAX_ISO_BOXES);
    ghost var whole := Walk(data, start, end, MAX_ISO_BOXES);
    ResumeNothing(whole);
    var boxes: seq<Box> := [];
    var at := start;
    while |boxes| < MAX_ISO_BOXES
      invariant reader.Valid() && |boxes| <= MAX_ISO_BOXES
      invariant whole == Resume(boxes, Walk(data, at, end, MAX_ISO_BOXES - |boxes|))
      invariant reader.remaining + total
                == old(reader.remaining) + WalkCost(data, reader.Window(), at, end, MAX_ISO_BOXES - |boxes|)
    {
      WalkCostStep(data, reader.Window(), at, end, MAX_ISO_BOXES - |boxes|);
      WalkStep(data, at, end, MAX_ISO_BOXES - |boxes|, boxes, whole);
      var found := ReadIsoBox(reader, at, end);
      match found {
        case Failed =>
          return None;
        case NoBox =>
          return Some(boxes);
        case Found(box) =>
          at := box.next;
          boxes := boxes + [box];
      }
    }
    WalkNoRoom(data, at, end);
    WalkCostNoRoom(data, reader.Window(), at, end);
    assert boxes + [] == boxes;
    return Some(boxes);
  }

  lemma WalkCostStep(data: Bytes, w: Extent, at: nat, end: nat, room: nat)
    requires room > 0
    ensures var look := BoxAt(data, at, end);
            WalkCost(data, w, at, end, room) == LookCost(data, w, at, end)
              + if look.Found? then WalkCost(data, LookWindow(data, w, at, end), look.box.next, end, room - 1) else 0
  {}

  lemma WalkCostNoRoom(data: Bytes, w: Extent, at: nat, end: nat)
    ensures WalkCost(data, w, at, end, 0) == 0
  {}

  /** Once the rest of the file is in the window the walk is free. */
  lemma {:induction false} WalkFree(data: Bytes, w: Extent, at: nat, end: nat, room: nat)
    requires w.from <= at && w.to == |data|
    ensures WalkCost(data, w, at, end, room) == 0
    decreases room
  {
    if room > 0 {
      LookFree(data, w, at, end);
      hide LookCost, LookWindow;
      var look := BoxAt(data, at, end);
      if look.Found? {
        FoundInRange(data, at, end);
        hide BoxAt;
        WalkFree(data, w, look.box.next, end, room - 1);
      }
    }
  }

  lemma LookFree(data: Bytes, w: Extent, at: nat, end: nat)
    requires w.from <= at && w.to == |data|
    ensures LookCost(data, w, at, end) == 0 && LookWindow(data, w, at, end) == w
  {
    hide Be32;
  }

  /** A file of at most 64 kB from the first box on is fetched once. */
  lemma OneFetch(data: Bytes, start: nat, end: nat)
    requires start + 8 <= end <= |data| <= start + 65536
    ensures WalkCost(data, Extent(0, 0), start, end, MAX_ISO_BOXES) == |data| - start
  {
    hide BoxAt;
    var w := LookWindow(data, Extent(0, 0), start, end);
    FirstLook(data, start, end);
    var look := BoxAt(data, start, end);
    if look.Found? {
      FoundInRange(data, start, end);
      WalkFree(data, w, look.box.next, end, MAX_ISO_BOXES - 1);
    }
    hide LookCost, LookWindow;
  }

  lemma FirstLook(data: Bytes, start: nat, end: nat)
    requires start + 8 <= end <= |data| <= start + 65536
    ensures LookCost(data, Extent(0, 0), start, end) == |data| - start
    ensures LookWindow(data, Extent(0, 0), start, end) == Extent(start, |data|)
  {
    hide Be32;
  }

  /** The budget of a new reader covers every walk that finds fewer than 128 boxes. */
  lemma FewBoxesFit(data: Bytes, start: nat, end: nat)
    requires var whole := Walk(data, start, end, MAX_ISO_BOXES); whole.Some? && |whole.value| < 128
    ensures WalkCost(data, Extent(0, 0), start, end, MAX_ISO_BOXES) <= FILE_META_READ_LIMIT
  {
    hide Walk, WalkCost;
    WalkCostBound(data, Extent(0, 0), start, end, MAX_ISO_BOXES);
  }
}
