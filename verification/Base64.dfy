/** The base64 and base64url helpers of src/namelib.ts (sections 4 and 5 of RFC 4648), lenient decoder included. */
module Base64 {
  import opened JsText

  type Sextet = x: int | 0 <= x < 64

  const PLUS: Unit := 0x2B
  const SLASH: Unit := 0x2F
  const EQUAL: Unit := 0x3D
  const MINUS: Unit := 0x2D
  const UNDERSCORE: Unit := 0x5F

  // ---- the alphabet

  /** `BASE64_CHARS[v]` */
  function Char(v: Sextet): Unit {
    if v < 26 then 0x41 + v
    else if v < 52 then 0x61 + (v - 26)
    else if v < 62 then 0x30 + (v - 52)
    else if v == 62 then PLUS
    else SLASH
  }

  predicate IsBase64(u: Unit) { IsAlnum(u) || u == PLUS || u == SLASH }

  /** `BASE64_CHARS.indexOf(u)` */
  function Value(u: Unit): (v: Sextet)
    requires IsBase64(u)
    ensures Char(v) == u
  {
    if IsUpper(u) then u - 0x41
    else if IsLower(u) then u - 0x61 + 26
    else if IsDigit(u) then u - 0x30 + 52
    else if u == PLUS then 62
    else 63
  }

  function Chars(s: seq<Sextet>): (t: Text)
    ensures |t| == |s| && forall i | 0 <= i < |t| :: t[i] == Char(s[i]) && IsBase64(t[i]) && Value(t[i]) == s[i]
  {
    seq(|s|, i requires 0 <= i < |s| => Char(s[i]))
  }

  function Values(t: Text): (s: seq<Sextet>)
    requires forall i | 0 <= i < |t| :: IsBase64(t[i])
    ensures |s| == |t| && forall i | 0 <= i < |s| :: s[i] == Value(t[i])
  {
    seq(|t|, i requires 0 <= i < |t| => Value(t[i]))
  }

  // ---- bytes and sextets

  function Sextets(b: Bytes): seq<Sextet> {
    if b == [] then []
    else
      var b0 := b[0] as int;
      if |b| == 1 then [b0 / 4, b0 % 4 * 16]
      else
        var b1 := b[1] as int;
        if |b| == 2 then [b0 / 4, b0 % 4 * 16 + b1 / 16, b1 % 16 * 4]
        else
          var b2 := b[2] as int;
          [b0 / 4, b0 % 4 * 16 + b1 / 16, b1 % 16 * 4 + b2 / 64, b2 % 64] + Sextets(b[3..])
  }

  /** Left-over bits, and a single left-over sextet, are dropped. */
  function FromSextets(s: seq<Sextet>): Bytes {
    if |s| < 2 then []
    else
      var b0 := (s[0] as int) * 4 + s[1] / 16;
      if |s| == 2 then [b0]
      else
        var b1 := (s[1] as int) % 16 * 16 + s[2] / 4;
        if |s| == 3 then [b0, b1]
        else [b0, b1, (s[2] as int) % 4 * 64 + s[3]] + FromSextets(s[4..])
  }

  /** Three bytes and their four sextets are the same 24-bit number. */
  lemma GroupValue(b: Bytes)
    requires |b| == 3
    ensures |Sextets(b)| == 4
    ensures (b[0] as int) * 0x10000 + (b[1] as int) * 0x100 + b[2] ==
            (((Sextets(b)[0] as int) * 64 + Sextets(b)[1]) * 64 + Sextets(b)[2]) * 64 + Sextets(b)[3]
  {
    assert Sextets(b[3..]) == [];
  }

  lemma {:induction false} BytesAgain(b: Bytes)
    ensures FromSextets(Sextets(b)) == b
  {
    if |b| >= 3 {
      BytesAgain(b[3..]);
      assert Sextets(b)[4..] == Sextets(b[3..]);
      assert b == [b[0], b[1], b[2]] + b[3..];
    }
  }

  /** No sextet is left over and the unused low bits of the last one are zero. */
  predicate Canonical(s: seq<Sextet>) {
    && |s| % 4 != 1
    && (|s| % 4 == 2 ==> s[|s| - 1] % 16 == 0)
    && (|s| % 4 == 3 ==> s[|s| - 1] % 4 == 0)
  }

  lemma {:induction false} SextetsAgainIff(s: seq<Sextet>)
    ensures Sextets(FromSextets(s)) == s <==> Canonical(s)
  {
    hide Sextets, FromSextets;
    if |s| >= 4 {
      SextetsAgainIff(s[4..]);
      LongAgain(s);
    } else {
      ShortAgain(s);
    }
  }

  lemma ShortAgain(s: seq<Sextet>)
    requires |s| < 4
    ensures Sextets(FromSextets(s)) == if |s| < 2 then [] else if |s| == 2 then [s[0], s[1] / 16 * 16]
              else [s[0], s[1], s[2] / 4 * 4]
  {
    hide Sextets;
    if |s| == 2 {
      OneByteSextets((s[0] as int) * 4 + s[1] / 16, s[0], s[1] / 16);
    } else if |s| == 3 {
      TwoBytesSextets((s[0] as int) * 4 + s[1] / 16, (s[1] as int) % 16 * 16 + s[2] / 4, s[0], s[1], s[2] / 4);
    } else {
      NoSextets();
    }
  }

  lemma OneByteSextets(b: Byte, w: Sextet, x: nat)
    requires x < 4 && (b as int) == (w as int) * 4 + x
    ensures Sextets([b]) == [w, x * 16]
  {}

  lemma TwoBytesSextets(b: Byte, c: Byte, w: Sextet, x: Sextet, y: nat)
    requires y < 16 && (b as int) == (w as int) * 4 + x / 16 && (c as int) == (x as int) % 16 * 16 + y
    ensures Sextets([b, c]) == [w, x, y * 4]
  {
    assert (b as int) / 4 == w && (b as int) % 4 == x / 16;
    assert (c as int) / 16 == (x as int) % 16 && (c as int) % 16 == y;
  }

  lemma ThreeBytesSextets(b: Bytes, w: Sextet, x: Sextet, y: Sextet, z: Sextet)
    requires |b| >= 3 && b[0] == (w as int) * 4 + x / 16
    requires b[1] == (x as int) % 16 * 16 + y / 4 && b[2] == (y as int) % 4 * 64 + z
    ensures Sextets(b) == [w, x, y, z] + Sextets(b[3..])
  {
    hide Sextets;
    var b0, b1, b2 := b[0] as int, b[1] as int, b[2] as int;
    LongSextets(b);
    Quotients(b0, b1, b2, w as int, x as int / 16, x as int % 16, y as int / 4, y as int % 4, z as int);
    assert (x as int) == (x as int) / 16 * 16 + (x as int) % 16 && (y as int) == (y as int) / 4 * 4 + (y as int) % 4;
  }

  lemma Quotients(b0: int, b1: int, b2: int, w: int, x1: int, x0: int, y1: int, y0: int, z: int)
    requires 0 <= x1 < 4 && 0 <= x0 < 16 && 0 <= y1 < 16 && 0 <= y0 < 4 && 0 <= z < 64
    requires b0 == w * 4 + x1 && b1 == x0 * 16 + y1 && b2 == y0 * 64 + z
    ensures b0 / 4 == w && b0 % 4 == x1 && b1 / 16 == x0 && b1 % 16 == y1 && b2 / 64 == y0 && b2 % 64 == z
  {}

  lemma LongAgainFront(s: seq<Sextet>)
    requires |s| >= 4
    ensures Sextets(FromSextets(s)) == [s[0], s[1], s[2], s[3]] + Sextets(FromSextets(s[4..]))
  {
    LongBytes(s);
    hide Sextets, FromSextets;
    ThreeBytesSextets(FromSextets(s), s[0], s[1], s[2], s[3]);
  }

  lemma LongAgain(s: seq<Sextet>)
    requires |s| >= 4
    ensures Sextets(FromSextets(s)) == s <==> Sextets(FromSextets(s[4..])) == s[4..]
  {
    hide Sextets, FromSextets;
    var front := [s[0], s[1], s[2], s[3]];
    LongAgainFront(s);
    SameFront(front, s[4..], Sextets(FromSextets(s[4..])));
    assert s == front + s[4..];
  }

  lemma SameFront(front: seq<Sextet>, a: seq<Sextet>, b: seq<Sextet>)
    ensures front + a == front + b <==> a == b
  {
    assert (front + a)[|front|..] == a && (front + b)[|front|..] == b;
  }

  lemma LongBytes(s: seq<Sextet>)
    requires |s| >= 4
    ensures var b := FromSextets(s);
            && |b| >= 3 && b[3..] == FromSextets(s[4..])
            && b[0] == (s[0] as int) * 4 + s[1] / 16 && b[1] == (s[1] as int) % 16 * 16 + s[2] / 4
            && b[2] == (s[2] as int) % 4 * 64 + s[3]
  {}

  lemma LongSextets(b: Bytes)
    requires |b| >= 3
    ensures var b0, b1, b2 := b[0] as int, b[1] as int, b[2] as int;
            Sextets(b) == [b0 / 4, b0 % 4 * 16 + b1 / 16, b1 % 16 * 4 + b2 / 64, b2 % 64] + Sextets(b[3..])
  {}

  lemma {:induction false} SextetsLength(b: Bytes)
    ensures |Sextets(b)| == (|b| * 4 + 2) / 3 && Canonical(Sextets(b))
  {
    BytesAgain(b);
    SextetsAgainIff(Sextets(b));
    SextetsCount(b);
  }

  lemma {:induction false} SextetsCount(b: Bytes)
    ensures |Sextets(b)| == (|b| * 4 + 2) / 3
  {
    if |b| >= 3 {
      SextetsCount(b[3..]);
    }
  }

  lemma {:induction false} FromSextetsLength(s: seq<Sextet>)
    ensures |FromSextets(s)| == |s| * 3 / 4
  {
    if |s| >= 4 {
      FromSextetsLength(s[4..]);
    }
  }

  // ---- padded base64

  function Padding(n: nat): Text { if n % 3 == 1 then [EQUAL, EQUAL] else if n % 3 == 2 then [EQUAL] else [] }

  function ToBase64(b: Bytes): Text { Chars(Sextets(b)) + Padding(|b|) }

  /** The four characters of one group of up to three bytes. */
  function Group(b: Bytes): (t: Text)
    requires b != []
  {
    var b0, b1, b2 := b[0] as int, if |b| > 1 then b[1] as int else 0, if |b| > 2 then b[2] as int else 0;
    [Char(b0 / 4), Char(b0 % 4 * 16 + b1 / 16),
     if |b| > 1 then Char(b1 % 16 * 4 + b2 / 64) else EQUAL,
     if |b| > 2 then Char(b2 % 64) else EQUAL]
  }

  lemma GroupChars(b: Bytes)
    requires b != []
    ensures var b0, b1, b2 := b[0] as int, if |b| > 1 then b[1] as int else 0, if |b| > 2 then b[2] as int else 0;
            var g := Group(b);
            && |g| == 4 && g[0] == Char(b0 / 4) && g[1] == Char(b0 % 4 * 16 + b1 / 16)
            && g[2] == (if |b| > 1 then Char(b1 % 16 * 4 + b2 / 64) else EQUAL)
            && g[3] == if |b| > 2 then Char(b2 % 64) else EQUAL
  {}

  lemma CharsConcat(a: seq<Sextet>, b: seq<Sextet>)
    ensures Chars(a + b) == Chars(a) + Chars(b)
  {}

  lemma FrontSextets(b: Bytes)
    requires |b| >= 3
    ensures var s := Sextets(b);
            && |s| >= 4 && s == s[..4] + Sextets(b[3..])
            && var b0, b1, b2 := b[0] as int, b[1] as int, b[2] as int;
            s[0] == b0 / 4 && s[1] == b0 % 4 * 16 + b1 / 16 && s[2] == b1 % 16 * 4 + b2 / 64 && s[3] == b2 % 64
  {
    LongSextets(b);
    hide Sextets;
  }

  lemma GroupOf(b: Bytes, s: seq<Sextet>)
    requires |b| >= 3 && |s| == 4
    requires var b0, b1, b2 := b[0] as int, b[1] as int, b[2] as int;
             s[0] == b0 / 4 && s[1] == b0 % 4 * 16 + b1 / 16 && s[2] == b1 % 16 * 4 + b2 / 64 && s[3] == b2 % 64
    ensures Chars(s) == Group(b)
  {
    hide Char;
  }

  lemma FrontText(b: Bytes)
    requires |b| >= 3
    ensures Chars(Sextets(b)) == Group(b) + Chars(Sextets(b[3..]))
  {
    FrontSextets(b);
    hide Sextets, Chars, Group;
    GroupOf(b, Sextets(b)[..4]);
    CharsConcat(Sextets(b)[..4], Sextets(b[3..]));
  }

  lemma LongText(b: Bytes)
    requires |b| >= 3
    ensures ToBase64(b) == Group(b) + if |b| > 3 then ToBase64(b[3..]) else []
  {
    var rest := b[3..];
    FrontText(b);
    assert |b| % 3 == |rest| % 3;
    if rest == [] {
      NoSextets();
    }
    hide Sextets, Chars, Group;
  }

  lemma GroupText(b: Bytes)
    requires b != []
    ensures ToBase64(b) == Group(b) + if |b| > 3 then ToBase64(b[3..]) else []
  {
    if |b| >= 3 {
      LongText(b);
    }
  }

  lemma NoSextets()
    ensures Sextets([]) == []
  {}

  /** `bytesToBase64` */
  /** What one turn of the loop adds, and what is left. */
  lemma TurnText(before: Text, bytes: Bytes, i: nat)
    requires i < |bytes|
    ensures before + ToBase64(bytes[i..])
              == (before + Group(bytes[i..])) + (if i + 3 < |bytes| then ToBase64(bytes[i + 3..]) else [])
  {
    hide ToBase64, Group;
    GroupText(bytes[i..]);
    if i + 3 < |bytes| {
      assert bytes[i..][3..] == bytes[i + 3..];
    }
  }

  method BytesToBase64(bytes: Bytes) returns (result: Text)
    ensures result == ToBase64(bytes)
  {
    hide ToBase64, Char, Group;
    result := [];
    var i := 0;
    assert bytes[0..] == bytes;
    if bytes == [] {
      NothingToBase64();
    }
    while i < |bytes|
      invariant 0 <= i
      invariant ToBase64(bytes) == result + (if i < |bytes| then ToBase64(bytes[i..]) else [])
      decreases |bytes| - i
    {
      var b0 := bytes[i] as int;
      var b1 := if i + 1 < |bytes| then bytes[i + 1] as int else 0;
      var b2 := if i + 2 < |bytes| then bytes[i + 2] as int else 0;
      ghost var before := result;
      GroupChars(bytes[i..]);
      result := result + [Char(b0 / 4)];
      result := result + [Char(b0 % 4 * 16 + b1 / 16)];
      result := result + [if i + 1 < |bytes| then Char(b1 % 16 * 4 + b2 / 64) else EQUAL];
      result := result + [if i + 2 < |bytes| then Char(b2 % 64) else EQUAL];
      FourAppends(before, Group(bytes[i..]));
      assert result == before + Group(bytes[i..]);
      TurnText(before, bytes, i);
      i := i + 3;
    }
  }

  lemma FourAppends(t: Text, g: Text)
    requires |g| == 4
    ensures t + [g[0]] + [g[1]] + [g[2]] + [g[3]] == t + g
  {}

  lemma NothingToBase64()
    ensures ToBase64([]) == []
  {}

  /** `base64.replace(/[^A-Za-z0-9+/]/g, '')` */
  function Clean(t: Text): (r: Text)
    ensures forall i | 0 <= i < |r| :: IsBase64(r[i])
  {
    if t == [] then [] else (if IsBase64(t[0]) then [t[0]] else []) + Clean(t[1..])
  }

  function FromBase64(t: Text): Bytes { FromSextets(Values(Clean(t))) }

  /** The bytes of one group of two to four sextets. */
  function GroupBytes(s: seq<Sextet>): (b: Bytes)
    requires |s| >= 2
    ensures |b| == if |s| == 2 then 1 else if |s| == 3 then 2 else 3
  {
    [(s[0] as int) * 4 + s[1] / 16]
    + (if |s| > 2 then [(s[1] as int) % 16 * 16 + s[2] / 4] else [])
    + (if |s| > 3 then [(s[2] as int) % 4 * 64 + s[3]] else [])
  }

  lemma FromGroup(s: seq<Sextet>)
    ensures |s| < 2 ==> FromSextets(s) == []
    ensures |s| >= 2 ==> FromSextets(s) == GroupBytes(s) + FromSextets(if |s| >= 4 then s[4..] else [])
  {}

  lemma OneLeft(done: Bytes, rest: seq<Sextet>)
    requires |rest| == 1
    ensures done + FromSextets(rest) == done
  {}

  /** What one turn of the loop adds, and what is left. */
  lemma TurnBytes(done: Bytes, rest: seq<Sextet>)
    requires |rest| >= 2
    ensures done + FromSextets(rest) == (done + GroupBytes(rest)) + (if |rest| > 4 then FromSextets(rest[4..]) else [])
  {
    FromGroup(rest);
    if |rest| >= 4 {
      FromGroup(rest[4..]);
    } else {
      FromGroup([]);
    }
    hide FromSextets, GroupBytes;
    var after := FromSextets(if |rest| >= 4 then rest[4..] else []);
    assert done + (GroupBytes(rest) + after) == (done + GroupBytes(rest)) + after;
  }

  /** `base64ToBytes`; a store past the end of the array is ignored, as it is for a typed array. */
  method Base64ToBytes(text: Text) returns (result: Bytes)
    ensures result == FromBase64(text)
  {
    hide FromSextets, GroupBytes, Clean, Value, IsBase64;
    var clean := Clean(text);
    var length := |clean| * 3 / 4;
    var bytes := new Byte[length](_ => 0);
    ghost var s := Values(clean);
    ghost var whole := FromSextets(s);
    FromSextetsLength(s);
    var byteIndex := 0;
    var i := 0;
    assert s[0..] == s;
    while i < |clean|
      invariant byteIndex >= 0
      invariant i < |clean| ==> byteIndex <= length && whole == bytes[..byteIndex] + FromSextets(s[i..])
      invariant i >= |clean| ==> whole == bytes[..] && byteIndex >= length
      decreases |clean| - i
    {
      ghost var rest := s[i..];
      ghost var done := bytes[..byteIndex];
      FromSextetsLength(rest);
      var c0 := Value(clean[i]) as int;
      if i + 1 >= |clean| {
        // indexOf(undefined) is -1, and the byte it makes falls past the end.
        OneLeft(done, rest);
        assert bytes[..] == bytes[..byteIndex];
        byteIndex := byteIndex + 1;
      } else {
        var c1 := Value(clean[i + 1]) as int;
        var c2 := if i + 2 < |clean| then Value(clean[i + 2]) as int else -1;
        var c3 := if i + 3 < |clean| then Value(clean[i + 3]) as int else -1;
        TurnBytes(done, rest);
        byteIndex := StoreGroup(bytes, byteIndex, rest, c0, c1, c2, c3);
        if i + 4 >= |clean| {
          assert bytes[..byteIndex] == bytes[..];
        } else {
          assert rest[4..] == s[i + 4..];
        }
      }
      i := i + 4;
    }
    result := bytes[..if byteIndex < length then byteIndex else length];
  }

  /** The stores of one turn of the loop. */
  method StoreGroup(bytes: array<Byte>, at: nat, ghost rest: seq<Sextet>, c0: int, c1: int, c2: int, c3: int)
      returns (byteIndex: nat)
    requires |rest| >= 2 && at + |GroupBytes(rest)| <= bytes.Length
    requires c0 == rest[0] && c1 == rest[1]
    requires c2 == (if |rest| > 2 then rest[2] else -1) && c3 == if |rest| > 3 then rest[3] else -1
    modifies bytes
    ensures byteIndex == at + |GroupBytes(rest)|
    ensures bytes[..byteIndex] == old(bytes[..at]) + GroupBytes(rest)
  {
    byteIndex := at;
    bytes[byteIndex] := c0 * 4 + c1 / 16;
    byteIndex := byteIndex + 1;
    if c2 >= 0 {
      bytes[byteIndex] := c1 % 16 * 16 + c2 / 4;
      byteIndex := byteIndex + 1;
    }
    if c3 >= 0 {
      bytes[byteIndex] := c2 % 4 * 64 + c3;
      byteIndex := byteIndex + 1;
    }
  }

  lemma {:induction false} CleanAppend(a: Text, b: Text)
    ensures Clean(a + b) == Clean(a) + Clean(b)
  {
    if a == [] {
      assert a + b == b;
    } else {
      CleanAppend(a[1..], b);
      assert (a + b)[1..] == a[1..] + b;
    }
  }

  lemma {:induction false} CleanAlready(t: Text)
    requires forall i | 0 <= i < |t| :: IsBase64(t[i])
    ensures Clean(t) == t
  {
    if t != [] {
      CleanAlready(t[1..]);
    }
  }

  lemma {:induction false} CleanNothing(t: Text)
    requires forall i | 0 <= i < |t| :: !IsBase64(t[i])
    ensures Clean(t) == []
  {
    if t != [] {
      CleanNothing(t[1..]);
    }
  }

  lemma CleanToBase64(b: Bytes)
    ensures Clean(ToBase64(b)) == Chars(Sextets(b))
  {
    CleanAppend(Chars(Sextets(b)), Padding(|b|));
    CleanAlready(Chars(Sextets(b)));
    CleanNothing(Padding(|b|));
  }

  lemma Base64RoundTrip(b: Bytes)
    ensures FromBase64(ToBase64(b)) == b
  {
    CleanToBase64(b);
    assert Values(Chars(Sextets(b))) == Sextets(b);
    BytesAgain(b);
  }

  // ---- base64url

  /** `t.replace(/from/g, to)` */
  function Replace(t: Text, from: Unit, to: Unit): (r: Text)
    ensures |r| == |t| && forall i | 0 <= i < |t| :: r[i] == if t[i] == from then to else t[i]
  {
    seq(|t|, i requires 0 <= i < |t| => if t[i] == from then to else t[i])
  }

  /** `t.replace(/=+$/g, '')` */
  function StripPadding(t: Text): Text {
    if t != [] && t[|t| - 1] == EQUAL then StripPadding(t[..|t| - 1]) else t
  }

  function EncodeUrl(b: Bytes): Text { StripPadding(Replace(Replace(ToBase64(b), PLUS, MINUS), SLASH, UNDERSCORE)) }

  function DecodeUrl(t: Text): Bytes { FromBase64(Replace(Replace(t, MINUS, PLUS), UNDERSCORE, SLASH)) }

  predicate IsUrlChar(u: Unit) { IsAlnum(u) || u == MINUS || u == UNDERSCORE }

  function UrlValue(u: Unit): Sextet
    requires IsUrlChar(u)
  {
    if u == MINUS then 62 else if u == UNDERSCORE then 63 else Value(u)
  }

  function UrlChar(v: Sextet): (u: Unit)
    ensures IsUrlChar(u) && UrlValue(u) == v
  {
    if v == 62 then MINUS else if v == 63 then UNDERSCORE else Char(v)
  }

  function UrlChars(s: seq<Sextet>): (t: Text)
    ensures |t| == |s| && forall i | 0 <= i < |t| :: t[i] == UrlChar(s[i]) && IsUrlChar(t[i])
  {
    seq(|s|, i requires 0 <= i < |s| => UrlChar(s[i]))
  }

  lemma {:induction false} StripAfter(t: Text, pad: Text)
    requires forall i | 0 <= i < |t| :: t[i] != EQUAL
    requires forall i | 0 <= i < |pad| :: pad[i] == EQUAL
    ensures StripPadding(t + pad) == t
    decreases |pad|
  {
    if pad == [] {
      assert t + pad == t;
    } else {
      assert (t + pad)[..|t + pad| - 1] == t + pad[..|pad| - 1];
      StripAfter(t, pad[..|pad| - 1]);
    }
  }

  /** The url form is the sextets in the url alphabet, without padding. */
  lemma EncodeUrlIs(b: Bytes)
    ensures EncodeUrl(b) == UrlChars(Sextets(b))
  {
    var s, pad := Sextets(b), Padding(|b|);
    StripAfter(UrlChars(s), pad);
    assert Replace(Replace(Chars(s) + pad, PLUS, MINUS), SLASH, UNDERSCORE) == UrlChars(s) + pad;
  }

  lemma DecodeUrlIs(t: Text)
    requires forall i | 0 <= i < |t| :: IsUrlChar(t[i])
    ensures DecodeUrl(t) == FromSextets(seq(|t|, i requires 0 <= i < |t| => UrlValue(t[i])))
  {
    var r := Replace(Replace(t, MINUS, PLUS), UNDERSCORE, SLASH);
    CleanAlready(r);
    assert Values(r) == seq(|t|, i requires 0 <= i < |t| => UrlValue(t[i]));
  }

  /** Decoding inverts encoding, for all bytes. */
  lemma UrlRoundTrip(b: Bytes)
    ensures DecodeUrl(EncodeUrl(b)) == b
  {
    EncodeUrlIs(b);
    var t := UrlChars(Sextets(b));
    DecodeUrlIs(t);
    assert seq(|t|, i requires 0 <= i < |t| => UrlValue(t[i])) == Sextets(b);
    BytesAgain(b);
  }

  /** A text is an encoding: characters of the url alphabet only, none left over, unused bits zero. */
  predicate IsEncoding(t: Text) {
    && (forall i | 0 <= i < |t| :: IsUrlChar(t[i]))
    && |t| % 4 != 1
    && (|t| % 4 == 2 ==> UrlValue(t[|t| - 1]) % 16 == 0)
    && (|t| % 4 == 3 ==> UrlValue(t[|t| - 1]) % 4 == 0)
  }

  /** The decoder accepts anything; encoding its result gives the text back exactly when the text is an encoding. */
  lemma UrlCanonicalIff(t: Text)
    ensures EncodeUrl(DecodeUrl(t)) == t <==> IsEncoding(t)
  {
    hide EncodeUrl, DecodeUrl, Sextets, FromSextets;
    EncodeUrlIs(DecodeUrl(t));
    if forall i | 0 <= i < |t| :: IsUrlChar(t[i]) {
      var s := seq(|t|, i requires 0 <= i < |t| => UrlValue(t[i]));
      DecodeUrlIs(t);
      SextetsAgainIff(s);
      UrlCharsAgain(t, Sextets(FromSextets(s)));
    }
  }

  lemma UrlCharsAgain(t: Text, again: seq<Sextet>)
    requires forall i | 0 <= i < |t| :: IsUrlChar(t[i])
    ensures UrlChars(again) == t <==> again == seq(|t|, i requires 0 <= i < |t| => UrlValue(t[i]))
  {
    if UrlChars(again) == t {
      assert forall i | 0 <= i < |t| :: UrlValue(t[i]) == again[i];
    }
  }

  // ---- the encoding by its definition

  /** The two alphabets, tables 1 and 2 of RFC 4648. */
  lemma AlphabetIs(v: Sextet)
    ensures v < 26 ==> Char(v) == UrlChar(v) == 'A' as int + v
    ensures 26 <= v < 52 ==> Char(v) == UrlChar(v) == 'a' as int + v - 26
    ensures 52 <= v < 62 ==> Char(v) == UrlChar(v) == '0' as int + v - 52
    ensures v == 62 ==> Char(v) == '+' as int && UrlChar(v) == '-' as int
    ensures v == 63 ==> Char(v) == '/' as int && UrlChar(v) == '_' as int
  {}

  /** Encoding goes by groups of three bytes; a shorter last group is filled up with zero bits. */
  lemma {:induction false} EncodeGroups(a: Bytes, b: Bytes)
    ensures |a| % 3 == 0 ==> Sextets(a + b) == Sextets(a) + Sextets(b)
  {
    hide Sextets, GroupSextets;
    if |a| >= 3 {
      var front := GroupSextets(a[0], a[1], a[2]);
      EncodeGroups(a[3..], b);
      FrontGroup(a);
      FrontGroup(a + b);
      assert (a + b)[3..] == a[3..] + b;
      assert front + (Sextets(a[3..]) + Sextets(b)) == front + Sextets(a[3..]) + Sextets(b);
    } else if a == [] {
      NoSextets();
      assert a + b == b;
    }
  }

  lemma FrontGroup(a: Bytes)
    requires |a| >= 3
    ensures Sextets(a) == GroupSextets(a[0], a[1], a[2]) + Sextets(a[3..])
  {
    LongSextets(a);
    hide Sextets;
  }

  function GroupSextets(b0: int, b1: int, b2: int): seq<Sextet>
    requires 0 <= b0 < 256 && 0 <= b1 < 256 && 0 <= b2 < 256
  {
    [b0 / 4, b0 % 4 * 16 + b1 / 16, b1 % 16 * 4 + b2 / 64, b2 % 64]
  }

  lemma EncodeGroup(a: Bytes)
    ensures |a| == 1 ==> |Sextets(a)| == 2 && (Sextets(a)[0] as int) * 64 + Sextets(a)[1] == (a[0] as int) * 16
    ensures |a| == 2 ==>
              && |Sextets(a)| == 3
              && ((Sextets(a)[0] as int) * 64 + Sextets(a)[1]) * 64 + Sextets(a)[2]
                 == ((a[0] as int) * 256 + a[1]) * 4
  {}

  /** Decoding goes by groups of four characters; of a shorter last group the bits short of a byte are dropped. */
  lemma {:induction false} DecodeGroups(s: seq<Sextet>, t: seq<Sextet>)
    ensures |s| % 4 == 0 ==> FromSextets(s + t) == FromSextets(s) + FromSextets(t)
  {
    if |s| >= 4 {
      DecodeGroups(s[4..], t);
      LongBytes(s);
      LongBytes(s + t);
      FourFront(s);
      FourFront(s + t);
      hide FromSextets;
      assert (s + t)[4..] == s[4..] + t;
    } else if s == [] {
      assert s + t == t;
    }
  }

  lemma FourFront(s: seq<Sextet>)
    requires |s| >= 4
    ensures |FromSextets(s)| >= 3
    ensures FromSextets(s) == [FromSextets(s)[0], FromSextets(s)[1], FromSextets(s)[2]] + FromSextets(s[4..])
  {}

  lemma DecodeGroup(s: seq<Sextet>)
    requires |s| <= 4
    ensures |s| <= 1 ==> FromSextets(s) == []
    ensures |s| == 2 ==> |FromSextets(s)| == 1 && FromSextets(s)[0] == Shifted(s, 2) / 16
    ensures |s| == 3 ==> |FromSextets(s)| == 2
                         && (FromSextets(s)[0] as int) * 256 + FromSextets(s)[1] == Shifted(s, 3) / 4
    ensures |s| == 4 ==>
              && |FromSextets(s)| == 3
              && ((FromSextets(s)[0] as int) * 256 + FromSextets(s)[1]) * 256 + FromSextets(s)[2] == Shifted(s, 4)
  {
    if |s| >= 2 {
      assert Shifted(s, 0) == 0 && Shifted(s, 1) == s[0] && Shifted(s, 2) == s[0] as int * 64 + s[1];
      if |s| == 4 {
        assert s[4..] == [] && FromSextets([]) == [];
        assert Shifted(s, 3) == Shifted(s, 2) * 64 + s[2] && Shifted(s, 4) == Shifted(s, 3) * 64 + s[3];
      } else if |s| == 3 {
        assert Shifted(s, 3) == Shifted(s, 2) * 64 + s[2];
      }
    }
  }

  /** The first sextets as one number. */
  function Shifted(s: seq<Sextet>, n: nat): int
    requires n <= |s|
  {
    if n == 0 then 0 else Shifted(s, n - 1) * 64 + s[n - 1]
  }

  /** Characters outside the alphabet do not count. */
  lemma OthersSkipped(a: Text, u: Unit, b: Text)
    ensures !IsBase64(u) ==> FromBase64(a + [u] + b) == FromBase64(a + b)
    ensures !IsBase64(u) && !IsUrlChar(u) ==> DecodeUrl(a + [u] + b) == DecodeUrl(a + b)
    ensures DecodeUrl(a + [MINUS] + b) == DecodeUrl(a + [PLUS] + b)
    ensures DecodeUrl(a + [UNDERSCORE] + b) == DecodeUrl(a + [SLASH] + b)
  {
    CleanSkips(a, u, b);
    hide Clean, FromSextets;
    assert Plain(a + [MINUS] + b) == Plain(a + [PLUS] + b) && Plain(a + [UNDERSCORE] + b) == Plain(a + [SLASH] + b);
    if !IsBase64(u) && !IsUrlChar(u) {
      assert Plain(a + [u] + b) == Plain(a) + [u] + Plain(b) && Plain(a + b) == Plain(a) + Plain(b);
      CleanSkips(Plain(a), u, Plain(b));
    }
  }

  /** The url characters as those of the plain alphabet. */
  function Plain(t: Text): Text { Replace(Replace(t, MINUS, PLUS), UNDERSCORE, SLASH) }

  lemma CleanSkips(a: Text, u: Unit, b: Text)
    ensures !IsBase64(u) ==> Clean(a + [u] + b) == Clean(a + b)
  {
    CleanAppend(a + [u], b);
    CleanAppend(a, [u]);
    CleanAppend(a, b);
    if !IsBase64(u) {
      CleanNothing([u]);
    }
  }

  /** A text of alphabet characters is decoded by their places in it. */
  lemma DecodesPlaces(s: seq<Sextet>)
    ensures FromBase64(Chars(s)) == FromSextets(s)
  {
    CleanAlready(Chars(s));
    assert Values(Chars(s)) == s;
  }
}
