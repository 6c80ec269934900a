/** Keys of object events (`keventSegment`, `objEventKey` in src/object_url.ts). */
module EventKey {
  import opened JsText
  import opened Utf8

  const SEPARATOR: Unit := 0x2F
  const MARKER: Unit := 0x78 // x

  predicate KeyUnit(u: int) { IsAlnum(u) || u == 0x5F || u == 0x2D }

  /** A segment that is its own key. */
  predicate IsPlainKey(t: Text) { t != [] && t[0] != MARKER && forall i | 0 <= i < |t| :: KeyUnit(t[i]) }

  function HexUnit(n: int): Unit
    requires 0 <= n < 16
  {
    if n < 10 then 0x30 + n else 0x61 + n - 10
  }

  function HexText(bytes: Bytes): Text {
    if bytes == [] then [] else [HexUnit(bytes[0] / 16), HexUnit(bytes[0] % 16)] + HexText(bytes[1..])
  }

  function KeySegment(t: Text): Text { if IsPlainKey(t) then t else [MARKER] + HexText(TextEncode(t)) }

  method KeventSegment(t: Text) returns (out: Text)
    ensures out == KeySegment(t)
  {
    if IsPlainKey(t) {
      return t;
    }
    var bytes := TextEncode(t);
    out := [MARKER];
    assert bytes[0..] == bytes;
    for i := 0 to |bytes|
      invariant out + HexText(bytes[i..]) == [MARKER] + HexText(bytes)
    {
      assert bytes[i..][0] == bytes[i] && bytes[i..][1..] == bytes[i + 1..];
      out := out + [HexUnit(bytes[i] / 16), HexUnit(bytes[i] % 16)];
    }
    assert bytes[|bytes|..] == [];
  }

  function KeySegments(segments: seq<Text>): (r: seq<Text>)
    ensures |r| == |segments|
  {
    seq(|segments|, i requires 0 <= i < |segments| => KeySegment(segments[i]))
  }

  /** `/obj/<host>/<segment...>/<event>` */
  function ObjEventKey(host: Text, segments: seq<Text>, event: Text): Text {
    Lit("/obj/") + Join([KeySegment(host)] + KeySegments(segments) + [event], SEPARATOR)
  }

  lemma {:induction false} HexTextInjective(a: Bytes, b: Bytes)
    requires HexText(a) == HexText(b)
    ensures a == b
  {
    if a != [] && b != [] {
      var s, t := HexText(a), HexText(b);
      assert s[0] == t[0] && s[1] == t[1];
      assert a[0] / 16 == b[0] / 16 && a[0] % 16 == b[0] % 16;
      assert s[2..] == HexText(a[1..]) && t[2..] == HexText(b[1..]);
      HexTextInjective(a[1..], b[1..]);
      assert a == [a[0]] + a[1..] && b == [b[0]] + b[1..];
    }
  }

  /** Two strings share a key segment exactly when they have the same UTF-8 form. */
  lemma KeySegmentIffEncoding(s: Text, t: Text)
    ensures KeySegment(s) == KeySegment(t) <==> TextEncode(s) == TextEncode(t)
  {
    if KeySegment(s) == KeySegment(t) {
      if IsPlainKey(s) {
        assert KeySegment(t)[0] != MARKER;
      } else {
        assert KeySegment(t)[0] == MARKER;
        assert KeySegment(s)[1..] == HexText(TextEncode(s)) && KeySegment(t)[1..] == HexText(TextEncode(t));
        HexTextInjective(TextEncode(s), TextEncode(t));
      }
    } else if TextEncode(s) == TextEncode(t) {
      PlainKeyEncoding(s, t);
      PlainKeyEncoding(t, s);
    }
  }

  /** A plain key is the only string with its UTF-8 form. */
  lemma PlainKeyEncoding(s: Text, t: Text)
    requires TextEncode(s) == TextEncode(t)
    ensures IsPlainKey(s) ==> s == t
  {
    if IsPlainKey(s) {
      hide CodePoints, Units, TextEncode, WellFormed, Repaired;
      PlainIsAscii(s);
      AsciiCodePoints(s);
      RepairedEncoding(s);
      SameEncodingIff(s, t);
      RepairedPlain(s, t);
    }
  }

  lemma PlainIsAscii(s: Text)
    requires IsPlainKey(s)
    ensures IsAscii(s)
  {}

  /** Only a plain text is repaired to a plain one. */
  lemma RepairedPlain(s: Text, t: Text)
    requires IsAscii(s) && Repaired(t) == s
    ensures t == s
  {
    hide CodePoints, Units;
    AsciiCodePoints(s);
    CodePointsUnits(Scalars(CodePoints(t)));
    assert Scalars(CodePoints(t)) == s;
    assert forall i | 0 <= i < |s| :: Scalars(CodePoints(t))[i] == s[i];
    assert CodePoints(t) == s;
    UnitsCodePoints(s);
    UnitsCodePoints(t);
  }

  lemma {:induction false} HexTextUnits(b: Bytes)
    ensures SEPARATOR !in HexText(b)
  {
    if b != [] { HexTextUnits(b[1..]); }
  }

  lemma KeySegmentUnits(t: Text)
    ensures SEPARATOR !in KeySegment(t)
  {
    HexTextUnits(TextEncode(t));
  }

  function RepairedAll(segments: seq<Text>): (r: seq<Text>)
    ensures |r| == |segments|
  {
    seq(|segments|, i requires 0 <= i < |segments| => Repaired(segments[i]))
  }

  lemma KeySegmentIff(s: Text, t: Text)
    ensures KeySegment(s) == KeySegment(t) <==> Repaired(s) == Repaired(t)
  {
    KeySegmentIffEncoding(s, t);
    SameEncodingIff(s, t);
  }

  lemma KeySegmentsIff(s: seq<Text>, t: seq<Text>)
    ensures KeySegments(s) == KeySegments(t) <==> RepairedAll(s) == RepairedAll(t)
  {
    hide KeySegment, Repaired;
    forall i | 0 <= i < |s| && i < |t|
      ensures KeySegments(s)[i] == KeySegments(t)[i] <==> RepairedAll(s)[i] == RepairedAll(t)[i]
    {
      KeySegmentIff(s[i], t[i]);
    }
    assert RepairedAll(s) == RepairedAll(t) ==>
        |s| == |t| && forall i | 0 <= i < |s| :: KeySegments(s)[i] == KeySegments(t)[i];
    assert KeySegments(s) == KeySegments(t) ==>
        |s| == |t| && forall i | 0 <= i < |s| :: RepairedAll(s)[i] == RepairedAll(t)[i];
  }

  /** The parts of an event key: host, segments, and the event's name as its own slashes cut it. */
  function KeyParts(h: Text, segments: seq<Text>, event: Text): (parts: seq<Text>)
    ensures |parts| >= 2 + |segments|
  {
    [KeySegment(h)] + KeySegments(segments) + Split(event, SEPARATOR)
  }

  /** In every case two keys are equal exactly when their parts are. */
  lemma KeyPartsIff(h1: Text, s1: seq<Text>, e1: Text, h2: Text, s2: seq<Text>, e2: Text)
    ensures ObjEventKey(h1, s1, e1) == ObjEventKey(h2, s2, e2) <==> KeyParts(h1, s1, e1) == KeyParts(h2, s2, e2)
  {
    hide KeyParts, ObjEventKey, Split, Join, Lit;
    PartsSplit(h1, s1, e1);
    PartsSplit(h2, s2, e2);
  }

  lemma PartsSplit(h: Text, s: seq<Text>, e: Text)
    ensures ObjEventKey(h, s, e) == Lit("/obj/") + Join(KeyParts(h, s, e), SEPARATOR)
    ensures |ObjEventKey(h, s, e)| >= 5 && Split(ObjEventKey(h, s, e)[5..], SEPARATOR) == KeyParts(h, s, e)
  {
    hide KeySegment;
    var parts := KeyParts(h, s, e);
    KeySegmentUnits(h);
    forall i | 0 <= i < |s|
      ensures SEPARATOR !in KeySegment(s[i])
    {
      KeySegmentUnits(s[i]);
    }
    JoinedLast([KeySegment(h)] + KeySegments(s), Split(e, SEPARATOR));
    JoinSplit(e, SEPARATOR);
    assert ObjEventKey(h, s, e)[5..] == Join(parts, SEPARATOR);
    SplitJoin(parts, SEPARATOR);
  }

  lemma {:induction false} JoinedLast(front: seq<Text>, last: seq<Text>)
    requires last != []
    ensures Join(front + last, SEPARATOR) == Join(front + [Join(last, SEPARATOR)], SEPARATOR)
  {
    var s, t := front + last, front + [Join(last, SEPARATOR)];
    if front == [] {
      assert s == last && t == [Join(last, SEPARATOR)];
    } else {
      assert s[1..] == front[1..] + last && t[1..] == front[1..] + [Join(last, SEPARATOR)];
      JoinedLast(front[1..], last);
    }
  }

  lemma WholeName(e: Text)
    requires SEPARATOR !in e
    ensures Split(e, SEPARATOR) == [e]
  {}

  /**
   * Keys of events whose names have no slash are equal exactly when host, segments and event are, up to lone
   * surrogates.
   */
  lemma EventKeysIff(h1: Text, s1: seq<Text>, e1: Text, h2: Text, s2: seq<Text>, e2: Text)
    requires SEPARATOR !in e1 && SEPARATOR !in e2
    ensures ObjEventKey(h1, s1, e1) == ObjEventKey(h2, s2, e2)
       <==> Repaired(h1) == Repaired(h2) && RepairedAll(s1) == RepairedAll(s2) && e1 == e2
  {
    hide KeySegment, KeySegments, Repaired, RepairedAll, ObjEventKey, Split;
    KeySegmentIff(h1, h2);
    KeySegmentsIff(s1, s2);
    KeyPartsIff(h1, s1, e1, h2, s2, e2);
    WholeName(e1);
    WholeName(e2);
    var p1, p2 := KeyParts(h1, s1, e1), KeyParts(h2, s2, e2);
    if p1 == p2 {
      assert |s1| == |s2| && p1[0] == p2[0] && p1[|s1| + 1] == p2[|s1| + 1];
      assert KeySegments(s1) == p1[1..|s1| + 1] && KeySegments(s2) == p2[1..|s1| + 1];
    }
  }

  /**
   * The condition is needed, and `objEventKey` does not check it: an event name may hold the last segment. For
   * every host, segments and event the key is also one of the segments before the last.
   */
  lemma SlashCollides(h: Text, segments: seq<Text>, last: Text, event: Text)
    ensures ObjEventKey(h, segments + [last], event) == ObjEventKey(h, segments, KeySegment(last) + [SEPARATOR] + event)
  {
    var key := KeySegment(last);
    KeySegmentUnits(last);
    IndexOfAt(key, SEPARATOR, event);
    var name := key + [SEPARATOR] + event;
    assert name[..|key|] == key && name[|key| + 1..] == event;
    assert Split(name, SEPARATOR) == [key] + Split(event, SEPARATOR);
    assert KeySegments(segments + [last]) == KeySegments(segments) + [key];
    KeyPartsIff(h, segments + [last], event, h, segments, name);
  }

  ghost predicate IsKeySegment(t: Text) { exists s :: KeySegment(s) == t }

  /** The key is also one of an event whose name has no slash. */
  ghost predicate HasPlainName(h: Text, segments: seq<Text>, event: Text) {
    exists s, e: Text :: SEPARATOR !in e && ObjEventKey(h, s, e) == ObjEventKey(h, segments, event)
  }

  lemma {:induction false} SegmentsOf(keys: seq<Text>) returns (s: seq<Text>)
    requires forall i | 0 <= i < |keys| :: IsKeySegment(keys[i])
    ensures KeySegments(s) == keys
  {
    hide KeySegment;
    s := [];
    if keys != [] {
      assert IsKeySegment(keys[0]);
      var first :| KeySegment(first) == keys[0];
      var rest := SegmentsOf(keys[1..]);
      s := [first] + rest;
      assert KeySegments(s) == [keys[0]] + KeySegments(rest);
    }
  }

  /** The name is made of segment keys up to its last slash. */
  ghost predicate HoldsSegments(event: Text) {
    forall i | 0 <= i < |Split(event, SEPARATOR)| - 1 :: IsKeySegment(Split(event, SEPARATOR)[i])
  }

  /** Which names with slashes share a key with a name without: those that are segment keys up to their last slash. */
  lemma SlashedNameIff(h: Text, segments: seq<Text>, event: Text)
    ensures HasPlainName(h, segments, event) <==> HoldsSegments(event)
  {
    hide KeySegment, ObjEventKey, HoldsSegments;
    if HasPlainName(h, segments, event) {
      var s, e: Text :| SEPARATOR !in e && ObjEventKey(h, s, e) == ObjEventKey(h, segments, event);
      KeyPartsIff(h, s, e, h, segments, event);
      WholeName(e);
      PartsAreKeys(h, s, e, segments, event);
    }
    if HoldsSegments(event) {
      PlainNameOf(h, segments, event);
    }
  }

  lemma PlainNameOf(h: Text, segments: seq<Text>, event: Text)
    requires HoldsSegments(event)
    ensures HasPlainName(h, segments, event)
  {
    hide KeySegment, ObjEventKey, Split, KeySegments;
    var parts := Split(event, SEPARATOR);
    var n := |parts| - 1;
    var more := SegmentsOf(parts[..n]);
    var s, e := segments + more, parts[n];
    WholeName(e);
    KeySegmentsConcat(segments, more);
    assert parts == parts[..n] + [e];
    assert KeyParts(h, s, e) == KeyParts(h, segments, event);
    KeyPartsIff(h, s, e, h, segments, event);
    assert SEPARATOR !in e && ObjEventKey(h, s, e) == ObjEventKey(h, segments, event);
  }

  lemma KeySegmentsConcat(a: seq<Text>, b: seq<Text>)
    ensures KeySegments(a + b) == KeySegments(a) + KeySegments(b)
  {}

  lemma PartsAreKeys(h: Text, s: seq<Text>, e: Text, segments: seq<Text>, event: Text)
    requires KeyParts(h, s, e) == KeyParts(h, segments, event) && Split(e, SEPARATOR) == [e]
    ensures HoldsSegments(event)
  {
    hide KeySegment, Split;
    var parts, p, q := Split(event, SEPARATOR), KeyParts(h, s, e), KeyParts(h, segments, event);
    assert |s| + 1 == |segments| + |parts|;
    forall i | 0 <= i < |parts| - 1
      ensures IsKeySegment(parts[i])
    {
      var k := |segments| + i;
      assert q[k + 1] == parts[i] && p[k + 1] == KeySegments(s)[k] == KeySegment(s[k]);
    }
  }

  // ---- the keys by their text

  predicate LowerHexOf(u: int, n: int) { if n < 10 then u == '0' as int + n else u == 'a' as int + (n - 10) }

  /** Two lower-case hexadecimal digits for every byte. */
  ghost predicate HexOfBytes(t: Text, bytes: Bytes) {
    |t| == 2 * |bytes|
    && forall i | 0 <= i < |bytes| :: LowerHexOf(t[2 * i], bytes[i] / 16) && LowerHexOf(t[2 * i + 1], bytes[i] % 16)
  }

  predicate LetterDigitOr(u: int, more: string) {
    || 'a' as int <= u <= 'z' as int || 'A' as int <= u <= 'Z' as int || '0' as int <= u <= '9' as int
    || exists i | 0 <= i < |more| :: u == more[i] as int
  }

  lemma {:induction false} HexTextIs(bytes: Bytes)
    ensures HexOfBytes(HexText(bytes), bytes)
  {
    if bytes != [] {
      var rest := bytes[1..];
      HexTextIs(rest);
      var t := HexText(bytes);
      forall i | 0 <= i < |bytes|
        ensures LowerHexOf(t[2 * i], bytes[i] / 16) && LowerHexOf(t[2 * i + 1], bytes[i] % 16)
      {
        if i > 0 {
          assert t[2 * i] == HexText(rest)[2 * (i - 1)] && t[2 * i + 1] == HexText(rest)[2 * (i - 1) + 1];
          assert bytes[i] == rest[i - 1];
        }
      }
    }
  }

  /**
   * A segment of letters, digits, `_` and `-` that does not begin with `x` is its own key; any other, the empty one
   * too, is `x` and the digits of its UTF-8 form.
   */
  lemma KeySegmentIs(t: Text)
    ensures if t != [] && t[0] != 'x' as int && forall i | 0 <= i < |t| :: LetterDigitOr(t[i], "_-")
            then KeySegment(t) == t
            else |KeySegment(t)| > 0 && KeySegment(t)[0] == 'x' as int && HexOfBytes(KeySegment(t)[1..], TextEncode(t))
  {
    forall i | 0 <= i < |t|
      ensures KeyUnit(t[i]) <==> LetterDigitOr(t[i], "_-")
    {
      KeyUnitIs(t[i]);
    }
    HexTextIs(TextEncode(t));
  }

  lemma KeyUnitIs(u: int)
    ensures KeyUnit(u) <==> LetterDigitOr(u, "_-")
  {
    assert "_-"[0] == '_' && "_-"[1] == '-';
  }

  /** The key of an event: `/obj`, and after slashes the keys of the host and of the segments, and the event itself. */
  lemma EventKeyIs(host: Text, segments: seq<Text>, event: Text)
    ensures ObjEventKey(host, segments, event)
         == Lit("/obj/") + KeySegment(host) + Slashes(KeySegments(segments)) + Lit("/") + event
  {
    hide KeySegment;
    var keys := KeySegments(segments);
    assert Lit("/") == [SEPARATOR];
    JoinSlashes(KeySegment(host), keys, event);
    assert [KeySegment(host)] + keys + [event] == [KeySegment(host)] + (keys + [event]);
  }

  function Slashes(parts: seq<Text>): Text { if parts == [] then [] else Lit("/") + parts[0] + Slashes(parts[1..]) }

  lemma {:induction false} JoinSlashes(first: Text, parts: seq<Text>, last: Text)
    ensures Join([first] + (parts + [last]), SEPARATOR) == first + Slashes(parts) + Lit("/") + last
    decreases |parts|
  {
    assert Lit("/") == [SEPARATOR];
    hide Lit;
    JoinFirst(first, parts + [last]);
    if parts == [] {
      assert parts + [last] == [last];
    } else {
      JoinSlashes(parts[0], parts[1..], last);
      assert parts + [last] == [parts[0]] + (parts[1..] + [last]);
      hide Join, Slashes;
      Regroup(first, parts[0], Slashes(parts[1..]), last);
    }
  }

  lemma Regroup(a: Text, b: Text, c: Text, d: Text)
    ensures a + [SEPARATOR] + (b + c + [SEPARATOR] + d) == a + ([SEPARATOR] + b + c) + [SEPARATOR] + d
  {}

  lemma JoinFirst(first: Text, rest: seq<Text>)
    requires rest != []
    ensures Join([first] + rest, SEPARATOR) == first + [SEPARATOR] + Join(rest, SEPARATOR)
  {
    assert ([first] + rest)[1..] == rest;
  }
}
