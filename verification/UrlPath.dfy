/** Paths of object URLs: `normalizePath` (src/object_url.ts) and the texts it returns. */
module UrlPath {
  import opened Wrappers
  import opened JsText
  import opened Utf8
  import opened PercentCodec

  const SLASH: Unit := 0x2F
  const DOT_TEXT: Text := [0x2E]
  const DOT_DOT_TEXT: Text := [0x2E, 0x2E]

  datatype PathError = NotAbsolute | BadEscape | Ambiguous

  /** A decoded segment a path may hold. */
  predicate GoodSegment(d: Text) { d != [] && d != DOT_TEXT && d != DOT_DOT_TEXT }

  function NormSegments(raw: seq<Text>, trim: bool): Result<Text, PathError> {
    if raw == [] then Ok([])
    else if raw[0] == [] && |raw| == 1 && !trim then Ok([SLASH])
    else
      match Decoded(raw[0])
      case None => Err(BadEscape)
      case Some(d) =>
        if !GoodSegment(d) then Err(Ambiguous)
        else
          var rest :- NormSegments(raw[1..], trim);
          Ok([SLASH] + Encoded(Segment, d) + rest)
  }

  function RawSegments(path: Text, trim: bool): seq<Text>
    requires path != []
  {
    var body := path[1..];
    Split(if trim && body != [] && body[|body| - 1] == SLASH then body[..|body| - 1] else body, SLASH)
  }

  function Normalized(path: Text, trim: bool): Result<Text, PathError> {
    if path == [] || path[0] != SLASH then Err(NotAbsolute) else NormSegments(RawSegments(path, trim), trim)
  }

  function Onto(out: Text, rest: Result<Text, PathError>): Result<Text, PathError> {
    match rest
    case Ok(t) => Ok(out + t)
    case Err(e) => Err(e)
  }

  lemma OntoTwice(a: Text, b: Text, rest: Result<Text, PathError>)
    ensures Onto(a, Onto(b, rest)) == Onto(a + b, rest)
    ensures Onto([], rest) == rest
  {
    if rest.Ok? {
      assert a + (b + rest.value) == a + b + rest.value;
      assert [] + rest.value == rest.value;
    }
  }

  lemma NormStep(raw: seq<Text>, i: nat, trim: bool)
    requires i < |raw|
    ensures NormSegments(raw[i..], trim) ==
            if raw[i] == [] && i == |raw| - 1 && !trim then Ok([SLASH])
            else
              match Decoded(raw[i])
              case None => Err(BadEscape)
              case Some(d) => if !GoodSegment(d) then Err(Ambiguous)
                  else Onto([SLASH] + Encoded(Segment, d), NormSegments(raw[i + 1..], trim))
  {
    hide Decoded, Encoded, GoodSegment;
    assert raw[i..][0] == raw[i] && raw[i..][1..] == raw[i + 1..];
  }

  lemma NormEnd(trim: bool)
    ensures NormSegments([], trim) == Ok([])
  {}

  method NormalizePath(path: Text, trim: bool) returns (r: Result<Text, PathError>)
    ensures r == Normalized(path, trim)
  {
    hide NormSegments, RawSegments, GoodSegment, Encoded, Decoded;
    if path == [] || path[0] != SLASH {
      return Err(NotAbsolute);
    }
    var raw := RawSegments(path, trim);
    var out: Text := [];
    OntoTwice([], [], NormSegments(raw, trim));
    assert raw[0..] == raw;
    for i := 0 to |raw|
      invariant NormSegments(raw, trim) == Onto(out, NormSegments(raw[i..], trim))
    {
      NormStep(raw, i, trim);
      if raw[i] == [] && i == |raw| - 1 && !trim {
        out := out + [SLASH];
        return Ok(out);
      }
      var decoded := PercentDecode(raw[i]);
      if decoded.None? {
        return Err(BadEscape);
      }
      if !GoodSegment(decoded.value) {
        return Err(Ambiguous);
      }
      var encoded := EncodeWith(Segment, decoded.value);
      OntoTwice(out, [SLASH] + encoded, NormSegments(raw[i + 1..], trim));
      out := out + ([SLASH] + encoded);
    }
    NormEnd(trim);
    assert raw[|raw|..] == [] && out + [] == out;
    return Ok(out);
  }

  // ---- what it returns

  /** The text for decoded segments `ds`, with a trailing slash or without. */
  function PathText(ds: seq<Text>, slash: bool): Text {
    if ds == [] then if slash then [SLASH] else []
    else [SLASH] + Encoded(Segment, ds[0]) + PathText(ds[1..], slash)
  }

  ghost predicate GoodSegments(ds: seq<Text>) {
    forall i | 0 <= i < |ds| :: GoodSegment(ds[i]) && WellFormed(ds[i])
  }

  ghost predicate IsPath(path: Text, trim: bool, ds: seq<Text>, slash: bool) {
    GoodSegments(ds) && (trim ==> !slash) && (ds != [] || slash) && path == PathText(ds, slash)
  }

  ghost predicate IsNormalPath(path: Text, trim: bool) {
    exists ds, slash :: IsPath(path, trim, ds, slash)
  }

  lemma {:induction false} NormSegmentsShape(raw: seq<Text>, trim: bool) returns (ds: seq<Text>, slash: bool)
    requires NormSegments(raw, trim).Ok?
    ensures NormSegments(raw, trim).value == PathText(ds, slash)
    ensures GoodSegments(ds) && (trim ==> !slash) && (raw != [] ==> ds != [] || slash)
    ensures ds == [] && slash ==> raw == [[]]
  {
    if raw == [] {
      ds, slash := [], false;
    } else if raw[0] == [] && |raw| == 1 && !trim {
      ds, slash := [], true;
    } else {
      var d := Decoded(raw[0]).value;
      DecodedWellFormedText(raw[0]);
      var rest, s := NormSegmentsShape(raw[1..], trim);
      ds, slash := [d] + rest, s;
      assert ds[1..] == rest;
    }
  }

  /** Every path it returns is the text of good segments; only the root path has none. */
  lemma NormalizedShape(path: Text, trim: bool)
    requires Normalized(path, trim).Ok?
    ensures IsNormalPath(Normalized(path, trim).value, trim)
    ensures Normalized(path, trim).value == [SLASH] ==> path == [SLASH]
  {
    var raw := RawSegments(path, trim);
    var ds, slash := NormSegmentsShape(raw, trim);
    assert IsPath(Normalized(path, trim).value, trim, ds, slash);
    if ds != [] {
      EncodedEmpty(Segment, ds[0]);
    } else {
      JoinSplit(path[1..], SLASH);
      assert Join([[]], SLASH) == [];
      assert path == [SLASH] + path[1..];
    }
  }

  // ---- read back

  /** The raw segments of a path text: the encoded segments, and an empty one for a trailing slash. */
  function RawOf(ds: seq<Text>, slash: bool): (raw: seq<Text>) {
    if ds == [] then if slash then [[]] else []
    else [Encoded(Segment, ds[0])] + RawOf(ds[1..], slash)
  }

  lemma {:induction false} RawOfJoin(ds: seq<Text>, slash: bool)
    requires ds != [] || slash
    ensures RawOf(ds, slash) != []
    ensures forall i | 0 <= i < |RawOf(ds, slash)| :: SLASH !in RawOf(ds, slash)[i]
    ensures PathText(ds, slash) == [SLASH] + Join(RawOf(ds, slash), SLASH)
  {
    hide Encoded;
    if ds != [] {
      EncodedIsAscii(Segment, ds[0]);
      assert !Keep(Segment, SLASH);
      if ds[1..] != [] || slash {
        RawOfJoin(ds[1..], slash);
        var raw := RawOf(ds, slash);
        assert raw[1..] == RawOf(ds[1..], slash);
        assert [SLASH] + Encoded(Segment, ds[0]) + PathText(ds[1..], slash)
            == [SLASH] + (Encoded(Segment, ds[0]) + [SLASH] + Join(raw[1..], SLASH));
      }
    }
  }

  lemma {:induction false} NoTrailingSlash(ds: seq<Text>)
    requires ds != [] && ds[|ds| - 1] != []
    ensures var t := PathText(ds, false); |t| > 1 && t[|t| - 1] != SLASH
  {
    EncodedIsAscii(Segment, ds[0]);
    EncodedEmpty(Segment, ds[0]);
    assert !Keep(Segment, SLASH);
    if ds[1..] != [] {
      NoTrailingSlash(ds[1..]);
    }
  }

  lemma RawSegmentsOf(ds: seq<Text>, slash: bool, trim: bool)
    requires (trim ==> !slash && ds != [] && ds[|ds| - 1] != []) && (ds != [] || slash)
    ensures PathText(ds, slash) != [] && PathText(ds, slash)[0] == SLASH
    ensures RawSegments(PathText(ds, slash), trim) == RawOf(ds, slash)
  {
    RawOfJoin(ds, slash);
    var t := PathText(ds, slash);
    assert t[1..] == Join(RawOf(ds, slash), SLASH);
    if trim {
      NoTrailingSlash(ds);
      assert t[1..][|t| - 2] == t[|t| - 1];
    }
    SplitJoin(RawOf(ds, slash), SLASH);
  }

  function DropBom(t: Text): Text { if StartsWithBom(t) then t[1..] else t }

  function DropBoms(ds: seq<Text>): (r: seq<Text>)
    ensures |r| == |ds|
  {
    seq(|ds|, i requires 0 <= i < |ds| => DropBom(ds[i]))
  }

  predicate AllWellFormed(ds: seq<Text>) { forall i | 0 <= i < |ds| :: WellFormed(ds[i]) }

  /** Reading segments back drops one U+FEFF from each, and checks what is left. */
  lemma {:induction false} NormSegmentsOf(ds: seq<Text>, slash: bool, trim: bool)
    requires AllWellFormed(ds) && (trim ==> !slash) && (!trim && ds != [] && !slash ==> ds[|ds| - 1] != [])
    ensures var r := NormSegments(RawOf(ds, slash), trim);
            r.Ok? <==> forall i | 0 <= i < |ds| :: GoodSegment(DropBom(ds[i]))
    ensures var r := NormSegments(RawOf(ds, slash), trim);
            r.Ok? ==> r.value == PathText(DropBoms(ds), slash)
  {
    hide Encoded, WellFormed, GoodSegment, Decoded, StartsWithBom;
    if ds != [] {
      DecodedEncoded(Segment, ds[0]);
      EncodedEmpty(Segment, ds[0]);
      NormSegmentsOf(ds[1..], slash, trim);
      assert RawOf(ds, slash)[1..] == RawOf(ds[1..], slash);
      assert DropBoms(ds)[1..] == DropBoms(ds[1..]);
      assert forall i | 0 < i < |ds| :: ds[i] == ds[1..][i - 1];
      assert forall i | 0 <= i < |ds| - 1 :: ds[1..][i] == ds[i + 1];
    }
  }

  lemma {:induction false} RawOfInjective(ds: seq<Text>, es: seq<Text>, slash: bool)
    requires AllWellFormed(ds) && AllWellFormed(es) && RawOf(ds, slash) == RawOf(es, slash)
    requires slash ==> |ds| == |es|
    ensures ds == es
  {
    if ds != [] && es != [] {
      assert RawOf(ds, slash)[1..] == RawOf(ds[1..], slash);
      assert RawOf(es, slash)[1..] == RawOf(es[1..], slash);
      RawOfInjective(ds[1..], es[1..], slash);
      EncodedInjective(Segment, ds[0], es[0]);
      assert ds == [ds[0]] + ds[1..] && es == [es[0]] + es[1..];
    }
  }

  /** A path text determines its segments. */
  lemma PathTextInjective(ds: seq<Text>, es: seq<Text>, slash: bool)
    requires AllWellFormed(ds) && AllWellFormed(es) && PathText(ds, slash) == PathText(es, slash)
    requires slash ==> |ds| == |es|
    ensures ds == es
  {
    if (ds != [] || slash) && (es != [] || slash) {
      RawOfJoin(ds, slash);
      RawOfJoin(es, slash);
      assert Join(RawOf(ds, slash), SLASH) == PathText(ds, slash)[1..];
      assert Join(RawOf(es, slash), SLASH) == PathText(es, slash)[1..];
      SplitJoin(RawOf(ds, slash), SLASH);
      SplitJoin(RawOf(es, slash), SLASH);
      RawOfInjective(ds, es, slash);
    }
  }

  lemma DropBomsWellFormed(ds: seq<Text>)
    requires AllWellFormed(ds)
    ensures AllWellFormed(DropBoms(ds))
  {
    forall i | 0 <= i < |ds|
      ensures WellFormed(DropBoms(ds)[i])
    {
      DecodeTextEncode(ds[i]);
    }
  }

  // ---- the exact condition

  /** How a U+FEFF at the front of a component is written. */
  const BOM_ESCAPE: Text := [0x25, 0x45, 0x46, 0x25, 0x42, 0x42, 0x25, 0x42, 0x46] // %EF%BB%BF

  /** No segment of the path text begins with `%EF%BB%BF`. */
  predicate BomFree(path: Text) { BomFreeAll(Split(path, SLASH)) }

  predicate BomFreeAll(raw: seq<Text>) { forall i | 0 <= i < |raw| :: !(BOM_ESCAPE <= raw[i]) }

  lemma EncodeThree(b: Bytes)
    requires |b| >= 3
    ensures EncodeBytes(Segment, b)
         == EncodeByte(Segment, b[0])
             + (EncodeByte(Segment, b[1]) + (EncodeByte(Segment, b[2]) + EncodeBytes(Segment, b[3..])))
  {
    assert b[0..] == b;
    EncodeBytesAt(Segment, b, 0);
    EncodeBytesAt(Segment, b, 1);
    EncodeBytesAt(Segment, b, 2);
  }

  lemma UnescapeBom(e: Bytes)
    requires BOM_ESCAPE <= e && Unescape(e).Some?
    ensures BOM_BYTES <= Unescape(e).value
  {
    assert e[0] == PERCENT && EscapeAt(e) == Some(0xEF);
    var e1 := e[3..];
    assert Unescape(e) == Some([0xEF] + Unescape(e1).value);
    assert e1[0] == PERCENT && EscapeAt(e1) == Some(0xBB);
    var e2 := e1[3..];
    assert Unescape(e1) == Some([0xBB] + Unescape(e2).value);
    assert e2[0] == PERCENT && EscapeAt(e2) == Some(0xBF);
    assert Unescape(e2) == Some([0xBF] + Unescape(e2[3..]).value);
  }

  lemma EncodedBom(t: Text)
    requires WellFormed(t)
    ensures StartsWithBom(t) <==> BOM_ESCAPE <= Encoded(Segment, t)
  {
    var b := TextEncode(t);
    var ps := CodePoints(t);
    if StartsWithBom(t) {
      assert ps[0] == 0xFEFF && EncodePoint(ps[0]) == BOM_BYTES;
      EncodeThree(b);
    } else if BOM_ESCAPE <= Encoded(Segment, t) {
      UnescapeEncode(Segment, b);
      UnescapeBom(Encoded(Segment, t));
      assert ps != [];
      UnitsCodePoints(t);
      assert t[0] == UnitsOf(ps[0])[0];
      BomFront(ps);
    }
  }

  lemma {:induction false} RawOfBom(ds: seq<Text>, slash: bool)
    requires GoodSegments(ds)
    ensures BomFreeAll(RawOf(ds, slash)) <==> forall i | 0 <= i < |ds| :: !StartsWithBom(ds[i])
  {
    if ds != [] {
      EncodedBom(ds[0]);
      RawOfBom(ds[1..], slash);
      var raw := RawOf(ds, slash);
      assert raw[1..] == RawOf(ds[1..], slash);
      assert BomFreeAll(raw) <==> !(BOM_ESCAPE <= raw[0]) && BomFreeAll(raw[1..]) by {
        assert forall i | 0 < i < |raw| :: raw[i] == raw[1..][i - 1];
      }
      assert forall i | 0 < i < |ds| :: ds[i] == ds[1..][i - 1];
      assert forall i | 0 <= i < |ds| - 1 :: ds[1..][i] == ds[i + 1];
    }
  }

  lemma BomFreeOf(ds: seq<Text>, slash: bool)
    requires GoodSegments(ds) && (ds != [] || slash)
    ensures BomFree(PathText(ds, slash)) <==> forall i | 0 <= i < |ds| :: !StartsWithBom(ds[i])
  {
    hide PathText, Split, StartsWithBom, RawOf, GoodSegment, WellFormed;
    RawOfJoin(ds, slash);
    var raw := RawOf(ds, slash);
    var all := [[]] + raw;
    assert all[1..] == raw;
    assert Join(all, SLASH) == PathText(ds, slash);
    SplitJoin(all, SLASH);
    RawOfBom(ds, slash);
    assert BomFreeAll(all) <==> BomFreeAll(raw) by {
      assert forall i | 0 < i < |all| :: all[i] == raw[i - 1];
      assert forall i | 0 <= i < |raw| :: raw[i] == all[i + 1];
    }
  }

  /** A returned path reads back as itself exactly when no segment begins with an encoded U+FEFF. */
  lemma NormalizedFixpoint(path: Text, trim: bool)
    requires IsNormalPath(path, trim)
    ensures Normalized(path, trim) == Ok(path) <==> BomFree(path)
  {
    var ds, slash :| IsPath(path, trim, ds, slash);
    RawSegmentsOf(ds, slash, trim);
    NormSegmentsOf(ds, slash, trim);
    BomFreeOf(ds, slash);
    if BomFree(path) {
      assert DropBoms(ds) == ds;
    } else if Normalized(path, trim) == Ok(path) {
      DropBomsWellFormed(ds);
      PathTextInjective(ds, DropBoms(ds), slash);
      assert forall i | 0 <= i < |ds| :: ds[i] == DropBoms(ds)[i] == DropBom(ds[i]);
    }
  }

  /** The units of a returned path: none ends the path of a URL, and none is a space. */
  lemma {:induction false} PathUnits(ds: seq<Text>, slash: bool)
    ensures forall u | u in PathText(ds, slash) :: u == SLASH || u == PERCENT || Keep(Segment, u)
  {
    if ds != [] {
      EncodedIsAscii(Segment, ds[0]);
      PathUnits(ds[1..], slash);
    }
  }
}
