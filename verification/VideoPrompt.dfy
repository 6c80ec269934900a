/** The prompts of a video request, with their `@{id}` references: `parseVideoPrompt` (src/aicc_client.ts). */
module VideoPrompt {
  import opened Wrappers
  import opened JsText

  const AT: Unit := 0x40
  const OPEN: Unit := 0x7B
  const CLOSE: Unit := 0x7D

  datatype Segment = Words(text: Text) | Reference(id: Text)

  datatype PromptError = NotClosed | BadId

  /** `/^[A-Za-z][A-Za-z0-9_-]{0,63}$/` */
  predicate ValidId(id: Text) {
    && 1 <= |id| <= 64
    && (IsUpper(id[0]) || IsLower(id[0]))
    && (forall i | 1 <= i < |id| :: IsAlnum(id[i]) || id[i] == 0x5F || id[i] == 0x2D)
  }

  function Flush(text: Text): seq<Segment> { if text == [] then [] else [Words(text)] }

  /** The segments of the rest `t` of a prompt, `text` being gathered already. */
  function Scan(t: Text, text: Text): Result<seq<Segment>, PromptError>
    decreases |t|
  {
    if t == [] then Ok(Flush(text))
    else if t[0] != AT then Scan(t[1..], text + [t[0]])
    else if |t| > 1 && t[1] == AT then Scan(t[2..], text + [AT])
    else if |t| < 2 || t[1] != OPEN then Scan(t[1..], text + [AT])
    else
      match IndexOf(t[2..], CLOSE)
      case None => Err(NotClosed)
      case Some(k) =>
        if !ValidId(t[2..2 + k]) then Err(BadId)
        else
          var rest :- Scan(t[3 + k..], []);
          Ok(Flush(text) + [Reference(t[2..2 + k])] + rest)
  }

  function Then(done: seq<Segment>, r: Result<seq<Segment>, PromptError>): Result<seq<Segment>, PromptError> {
    if r.Err? then r else Ok(done + r.value)
  }

  method ParseVideoPrompt(prompt: Text) returns (r: Result<seq<Segment>, PromptError>)
    ensures r == Scan(prompt, [])
  {
    hide Scan, IndexOf, ValidId;
    var segments: seq<Segment> := [];
    var text: Text := [];
    var index := 0;
    assert prompt[0..] == prompt;
    ThenNothing(Scan(prompt, []));
    while index < |prompt|
      invariant index <= |prompt| && Scan(prompt, []) == Then(segments, Scan(prompt[index..], text))
    {
      ScanStep(prompt, index, text);
      if prompt[index] != AT {
        text := text + [prompt[index]];
      } else if index + 1 < |prompt| && prompt[index + 1] == AT {
        text := text + [AT];
        index := index + 1;
      } else if index + 1 >= |prompt| || prompt[index + 1] != OPEN {
        text := text + [AT];
      } else {
        var end := IndexOf(prompt[index + 2..], CLOSE);
        if end.None? {
          return Err(NotClosed);
        }
        var id := prompt[index + 2..index + 2 + end.value];
        if !ValidId(id) {
          return Err(BadId);
        }
        ThenThen(segments, Flush(text) + [Reference(id)], Scan(prompt[index + 3 + end.value..], []));
        ghost var after := segments + (Flush(text) + [Reference(id)]);
        if text != [] {
          segments := segments + [Words(text)];
        }
        text := [];
        segments := segments + [Reference(id)];
        assert segments == after;
        index := index + 2 + end.value;
      }
      index := index + 1;
    }
    assert prompt[index..] == [];
    ScanEnd(text);
    ghost var whole := segments + Flush(text);
    if text != [] {
      segments := segments + [Words(text)];
    }
    assert segments == whole;
    return Ok(segments);
  }

  lemma ThenNothing(r: Result<seq<Segment>, PromptError>)
    ensures Then([], r) == r
  {
    assert r.Ok? ==> [] + r.value == r.value;
  }

  lemma ThenThen(a: seq<Segment>, b: seq<Segment>, r: Result<seq<Segment>, PromptError>)
    ensures Then(a, Then(b, r)) == Then(a + b, r)
  {
    assert r.Ok? ==> a + (b + r.value) == (a + b) + r.value;
  }

  lemma ScanEnd(text: Text)
    ensures Scan([], text) == Ok(Flush(text))
  {}

  lemma ScanStep(prompt: Text, i: nat, text: Text)
    requires i < |prompt|
    ensures var c := prompt[i];
            var next := i + 1 < |prompt|;
            Scan(prompt[i..], text) ==
            if c != AT then Scan(prompt[i + 1..], text + [c])
            else if next && prompt[i + 1] == AT then Scan(prompt[i + 2..], text + [AT])
            else if !next || prompt[i + 1] != OPEN then Scan(prompt[i + 1..], text + [AT])
            else
              match IndexOf(prompt[i + 2..], CLOSE)
              case None => Err(NotClosed)
              case Some(k) =>
                if !ValidId(prompt[i + 2..i + 2 + k]) then Err(BadId)
                else Then(Flush(text) + [Reference(prompt[i + 2..i + 2 + k])], Scan(prompt[i + 3 + k..], []))
  {
    hide IndexOf, ValidId;
    var t := prompt[i..];
    assert t[0] == prompt[i] && t[1..] == prompt[i + 1..];
    if i + 1 < |prompt| {
      assert t[1] == prompt[i + 1] && t[2..] == prompt[i + 2..];
      var end := IndexOf(t[2..], CLOSE);
      if end.Some? {
        assert t[2..2 + end.value] == prompt[i + 2..i + 2 + end.value]
            && t[3 + end.value..] == prompt[i + 3 + end.value..];
      }
    }
  }

  // ---- writing a prompt

  /** A literal `@` is written twice. */
  function Escape(t: Text): Text {
    if t == [] then [] else (if t[0] == AT then [AT, AT] else [t[0]]) + Escape(t[1..])
  }

  function WriteSegment(s: Segment): Text {
    match s
    case Words(text) => Escape(text)
    case Reference(id) => [AT, OPEN] + id + [CLOSE]
  }

  function Write(segments: seq<Segment>): Text {
    if segments == [] then [] else WriteSegment(segments[0]) + Write(segments[1..])
  }

  /** What a parsed prompt looks like: no empty and no adjacent words, references by valid ids. */
  predicate Normal(segments: seq<Segment>) {
    && (forall i | 0 <= i < |segments| ::
           if segments[i].Words? then segments[i].text != [] else ValidId(segments[i].id))
    && (forall i | 0 <= i < |segments| - 1 :: !(segments[i].Words? && segments[i + 1].Words?))
  }

  lemma EscapeFront(t: Text, rest: Text)
    requires t != []
    ensures var whole, n := Escape(t) + rest, if t[0] == AT then 2 else 1;
            && |whole| >= n && whole[n..] == Escape(t[1..]) + rest
            && whole[0] == t[0] && (n == 2 ==> whole[1] == AT)
  {
    EscapeCons(t);
    hide Escape;
    Cut(UnitEscape(t[0]), Escape(t[1..]), rest);
  }

  function UnitEscape(u: Unit): (t: Text)
    ensures |t| == (if u == AT then 2 else 1) && forall i | 0 <= i < |t| :: t[i] == u
  {
    if u == AT then [AT, AT] else [u]
  }

  lemma EscapeCons(t: Text)
    requires t != []
    ensures Escape(t) == UnitEscape(t[0]) + Escape(t[1..])
  {}

  lemma Cut(front: Text, middle: Text, rest: Text)
    ensures var whole := front + middle + rest;
            && whole[..|front|] == front && whole[|front|..] == middle + rest
            && forall i | 0 <= i < |front| :: whole[i] == front[i]
  {}

  lemma {:induction false} ScanEscaped(t: Text, rest: Text, text: Text)
    ensures Scan(Escape(t) + rest, text) == Scan(rest, text + t)
    decreases |t|
  {
    hide Scan;
    if t == [] {
      assert Escape(t) + rest == rest && text + t == text;
    } else {
      hide Escape;
      var whole := Escape(t) + rest;
      var n := if t[0] == AT then 2 else 1;
      EscapeFront(t, rest);
      ScanOne(whole, text, n);
      ScanEscaped(t[1..], rest, text + [t[0]]);
      assert text + t == (text + [t[0]]) + t[1..];
    }
  }

  lemma ScanOne(whole: Text, text: Text, n: nat)
    requires 1 <= n <= 2 && |whole| >= n && (if n == 2 then whole[0] == AT && whole[1] == AT else whole[0] != AT)
    ensures Scan(whole, text) == Scan(whole[n..], text + [whole[0]])
  {}

  lemma ScanReference(id: Text, rest: Text, text: Text)
    requires ValidId(id)
    ensures Scan([AT, OPEN] + id + [CLOSE] + rest, text) == Then(Flush(text) + [Reference(id)], Scan(rest, []))
  {
    var t := [AT, OPEN] + id + [CLOSE] + rest;
    assert CLOSE !in id;
    assert t[2..] == id + [CLOSE] + rest;
    IndexOfAt(id, CLOSE, rest);
    hide IndexOf;
    assert t[2..2 + |id|] == id && t[3 + |id|..] == rest;
  }

  /** Parsing what was written gives the segments back, whatever they are as long as they are in normal form. */
  lemma {:induction false} WriteParses(segments: seq<Segment>)
    requires Normal(segments)
    ensures Scan(Write(segments), []) == Ok(segments)
    decreases |segments|
  {
    hide Scan, ValidId, Escape;
    if segments == [] {
      ScanEnd([]);
    } else {
      var rest := segments[1..];
      assert forall i | 0 <= i < |rest| :: rest[i] == segments[i + 1];
      match segments[0]
      case Reference(id) =>
        WriteParses(rest);
        ScanReference(id, Write(rest), []);
        assert Write(segments) == [AT, OPEN] + id + [CLOSE] + Write(rest);
        assert segments == (Flush([]) + [Reference(id)]) + rest;
      case Words(text) =>
        ScanEscaped(text, Write(rest), []);
        assert [] + text == text;
        if rest == [] {
          ScanEnd(text);
          assert segments == [Words(text)];
        } else {
          var id, more := rest[0].id, rest[1..];
          assert rest == [Reference(id)] + more;
          assert forall i | 0 <= i < |more| :: more[i] == rest[i + 1] == segments[i + 2];
          WriteParses(more);
          ScanReference(id, Write(more), text);
          assert Write(rest) == [AT, OPEN] + id + [CLOSE] + Write(more);
          assert segments == [Words(text)] + [Reference(id)] + more;
        }
    }
  }

  /** Every prompt that parses parses to a normal form. */
  lemma {:induction false} ParsedNormal(t: Text, text: Text)
    requires Scan(t, text).Ok?
    ensures Normal(Scan(t, text).value)
    ensures t == [] && text == [] ==> Scan(t, text).value == []
    decreases |t|
  {
    hide ValidId, IndexOf;
    if t != [] {
      if t[0] != AT {
        ParsedNormal(t[1..], text + [t[0]]);
      } else if |t| > 1 && t[1] == AT {
        ParsedNormal(t[2..], text + [AT]);
      } else if |t| < 2 || t[1] != OPEN {
        ParsedNormal(t[1..], text + [AT]);
      } else {
        var k := IndexOf(t[2..], CLOSE).value;
        ParsedNormal(t[3 + k..], []);
        NormalAfter(Flush(text), t[2..2 + k], Scan(t[3 + k..], []).value);
      }
    }
  }

  lemma NormalAfter(front: seq<Segment>, id: Text, rest: seq<Segment>)
    requires ValidId(id) && Normal(rest) && (front == [] || (|front| == 1 && front[0].Words? && front[0].text != []))
    ensures Normal(front + [Reference(id)] + rest)
  {}

  // ---- prompts by their grammar

  /** What a prompt is made of. */
  datatype Piece = Char(u: Unit) | Ref(id: Text)

  /** A letter, then at most 63 letters, digits, `_` and `-`. */
  predicate IdOf(id: Text) {
    && 1 <= |id| <= 64 && Letter(id[0])
    && forall i | 0 < i < |id| :: Letter(id[i]) || '0' as int <= id[i] <= '9' as int || id[i] == '_' as int
                                  || id[i] == '-' as int
  }

  predicate Letter(u: int) { 'a' as int <= u <= 'z' as int || 'A' as int <= u <= 'Z' as int }

  /**
   * The text reads as the pieces up to `rest`: a character other than `@` is itself, `@@` is `@` and so is an `@` with
   * neither `@` nor `{` after it, and `@{id}` is a reference.
   */
  ghost predicate ReadsTo(t: Text, pieces: seq<Piece>, rest: Text)
    decreases |pieces|
  {
    if pieces == [] then t == rest
    else
      match pieces[0]
      case Char(u) =>
        if u != '@' as int then t != [] && t[0] == u && ReadsTo(t[1..], pieces[1..], rest)
        else
          || (|t| > 1 && t[0] == u && t[1] == u && ReadsTo(t[2..], pieces[1..], rest))
          || (t != [] && t[0] == u && !AtMark(t[1..]) && ReadsTo(t[1..], pieces[1..], rest))
      case Ref(id) =>
        IdOf(id) && IsReference(t, id) && ReadsTo(t[|id| + 3..], pieces[1..], rest)
  }

  predicate AtMark(t: Text) { t != [] && (t[0] == '@' as int || t[0] == '{' as int) }

  /** The text begins with `@{id}`. */
  predicate IsReference(t: Text, id: Text) {
    |t| >= |id| + 3 && t[0] == '@' as int && t[1] == '{' as int && t[2..|id| + 2] == id && t[|id| + 2] == '}' as int
  }

  function Chars(text: Text): seq<Piece> { seq(|text|, i requires 0 <= i < |text| => Char(text[i])) }

  /** The pieces of segments. */
  function PiecesOf(segments: seq<Segment>): seq<Piece> {
    if segments == [] then []
    else
      (match segments[0]
       case Words(text) => Chars(text)
       case Reference(id) => [Ref(id)]) + PiecesOf(segments[1..])
  }

  /** The text begins with a reference that is not closed, or whose id is not valid. */
  ghost predicate Unclosed(t: Text) { |t| > 1 && t[0] == '@' as int && t[1] == '{' as int && '}' as int !in t }

  ghost predicate Misnamed(t: Text) { exists id :: '}' as int !in id && !IdOf(id) && IsReference(t, id) }

  lemma IdIff(id: Text)
    ensures ValidId(id) <==> IdOf(id)
  {}

  lemma CharsMore(text: Text, u: Unit, more: seq<Piece>)
    ensures Chars(text + [u]) + more == Chars(text) + ([Char(u)] + more)
  {}

  lemma FlushPieces(text: Text)
    ensures PiecesOf(Flush(text)) == Chars(text)
  {
    if text != [] {
      assert PiecesOf([Words(text)][1..]) == [];
    }
  }

  lemma {:induction false} PiecesConcat(a: seq<Segment>, b: seq<Segment>)
    ensures PiecesOf(a + b) == PiecesOf(a) + PiecesOf(b)
  {
    if a == [] {
      assert a + b == b && PiecesOf(a) == [];
    } else {
      hide PiecesOf, OnePieces;
      PiecesConcat(a[1..], b);
      PiecesCons(a);
      PiecesCons(a + b);
      assert (a + b)[1..] == a[1..] + b && (a + b)[0] == a[0];
      Associates(OnePieces(a[0]), PiecesOf(a[1..]), PiecesOf(b));
    }
  }

  lemma Associates(x: seq<Piece>, y: seq<Piece>, z: seq<Piece>)
    ensures x + (y + z) == x + y + z
  {}

  function OnePieces(s: Segment): seq<Piece> {
    match s
    case Words(text) => Chars(text)
    case Reference(id) => [Ref(id)]
  }

  lemma PiecesCons(a: seq<Segment>)
    requires a != []
    ensures PiecesOf(a) == OnePieces(a[0]) + PiecesOf(a[1..])
  {}

  lemma ReferencePieces(text: Text, id: Text, rest: seq<Segment>)
    ensures PiecesOf(Flush(text) + [Reference(id)] + rest) == Chars(text) + ([Ref(id)] + PiecesOf(rest))
  {
    FlushPieces(text);
    PiecesConcat(Flush(text) + [Reference(id)], rest);
    PiecesConcat(Flush(text), [Reference(id)]);
    assert PiecesOf([Reference(id)][1..]) == [];
  }

  lemma CharReads(t: Text, n: nat, u: Unit, more: seq<Piece>, rest: Text)
    requires 1 <= n <= |t| && ReadsTo(t[n..], more, rest) && t[0] == u
    requires if n == 2 then u == AT && t[1] == AT else n == 1 && (u == AT ==> !AtMark(t[1..]))
    ensures ReadsTo(t, [Char(u)] + more, rest)
  {
    assert ([Char(u)] + more)[1..] == more;
  }

  lemma RefReads(t: Text, id: Text, more: seq<Piece>, rest: Text)
    requires IdOf(id) && IsReference(t, id) && ReadsTo(t[|id| + 3..], more, rest)
    ensures ReadsTo(t, [Ref(id)] + more, rest)
  {
    assert ([Ref(id)] + more)[1..] == more;
  }

  /** Where the parser stops at an error, the text up to there reads as pieces. */
  ghost predicate EndsIn(t: Text, e: PromptError) { if e == NotClosed then Unclosed(t) else Misnamed(t) }

  lemma ReferenceAt(t: Text)
    requires |t| > 1 && t[0] == AT && t[1] == OPEN
    ensures match IndexOf(t[2..], CLOSE)
            case None => Unclosed(t)
            case Some(k) => CLOSE !in t[2..2 + k] && IsReference(t, t[2..2 + k]) && |t[2..2 + k]| == k
  {
    if IndexOf(t[2..], CLOSE).None? {
      assert t == [t[0], t[1]] + t[2..];
    } else {
      assert t[2..][..IndexOf(t[2..], CLOSE).value] == t[2..2 + IndexOf(t[2..], CLOSE).value];
    }
  }

  /** What the parser returns for a text is what the grammar reads. */
  lemma {:induction false} ScanReads(t: Text, text: Text) returns (pieces: seq<Piece>, rest: Text)
    ensures ReadsTo(t, pieces, rest)
    ensures match Scan(t, text)
            case Ok(segments) => rest == [] && PiecesOf(segments) == Chars(text) + pieces
            case Err(e) => EndsIn(rest, e)
    decreases |t|
  {
    hide ReadsTo, IsReference, ValidId, IdOf, IndexOf, Chars, PiecesOf, EndsIn;
    pieces, rest := [], t;
    if t == [] {
      FlushPieces(text);
      NoPieces(t, text);
    } else if t[0] != AT || |t| < 2 || t[1] == AT || t[1] != OPEN {
      var n := if t[0] == AT && |t| > 1 && t[1] == AT then 2 else 1;
      pieces, rest := ScanReads(t[n..], text + [t[0]]);
      CharReads(t, n, t[0], pieces, rest);
      CharsMore(text, t[0], pieces);
      pieces := [Char(t[0])] + pieces;
    } else {
      pieces, rest := ReferenceScans(t, text);
    }
  }

  lemma NoPieces(t: Text, text: Text)
    ensures ReadsTo(t, [], t) && Chars(text) + [] == Chars(text)
  {}

  lemma {:induction false} ReferenceScans(t: Text, text: Text) returns (pieces: seq<Piece>, rest: Text)
    requires |t| > 1 && t[0] == AT && t[1] == OPEN
    ensures ReadsTo(t, pieces, rest)
    ensures match Scan(t, text)
            case Ok(segments) => rest == [] && PiecesOf(segments) == Chars(text) + pieces
            case Err(e) => EndsIn(rest, e)
    decreases |t|, 0
  {
    hide ReadsTo, IsReference, ValidId, IdOf, IndexOf, Chars, PiecesOf;
    pieces, rest := [], t;
    NoPieces(t, text);
    ReferenceAt(t);
    if IndexOf(t[2..], CLOSE).Some? {
      var k := IndexOf(t[2..], CLOSE).value;
      var id := t[2..2 + k];
      IdIff(id);
      if ValidId(id) {
        pieces, rest := ScanReads(t[3 + k..], []);
        RefReads(t, id, pieces, rest);
        NoChars(pieces);
        if Scan(t[3 + k..], []).Ok? {
          ReferencePieces(text, id, Scan(t[3 + k..], []).value);
        }
        pieces := [Ref(id)] + pieces;
      }
    }
  }

  lemma NoChars(pieces: seq<Piece>)
    ensures Chars([]) + pieces == pieces
  {}

  /** And the grammar reads a text in one way. */
  lemma {:induction false} ReadsScan(t: Text, pieces: seq<Piece>, rest: Text, text: Text)
    requires ReadsTo(t, pieces, rest)
    ensures rest == [] ==> Scan(t, text).Ok? && PiecesOf(Scan(t, text).value) == Chars(text) + pieces
    ensures Unclosed(rest) ==> Scan(t, text) == Err(NotClosed)
    ensures Misnamed(rest) ==> Scan(t, text) == Err(BadId)
    decreases |pieces|
  {
    if pieces == [] {
      RestScans(t, text);
      NoPieces(t, text);
    } else {
      match pieces[0] {
        case Char(u) =>
          var n := if u == AT && |t| > 1 && t[1] == AT then 2 else 1;
          ReadsScan(t[n..], pieces[1..], rest, text + [u]);
          CharsMore(text, u, pieces[1..]);
          FrontBack(pieces);
          CharScans(t, n, text);
        case Ref(id) =>
          ReadsScan(t[|id| + 3..], pieces[1..], rest, []);
          NoChars(pieces[1..]);
          FrontBack(pieces);
          ReferenceScanned(t, id, text);
      }
    }
  }

  lemma FrontBack<T>(s: seq<T>)
    requires s != []
    ensures [s[0]] + s[1..] == s
  {}

  lemma CharScans(t: Text, n: nat, text: Text)
    requires 1 <= n <= |t|
    requires if n == 2 then t[0] == AT && t[1] == AT else t[0] == AT ==> !AtMark(t[1..])
    requires n <= 2
    ensures Scan(t, text) == Scan(t[n..], text + [t[0]])
  {
    hide IndexOf, ValidId;
  }

  lemma ReferenceScanned(t: Text, id: Text, text: Text)
    requires IdOf(id) && IsReference(t, id)
    ensures Scan(t, text) == Then(Flush(text) + [Reference(id)], Scan(t[|id| + 3..], []))
    ensures Scan(t[|id| + 3..], []).Ok? ==>
              PiecesOf(Scan(t, text).value) == Chars(text) + ([Ref(id)] + PiecesOf(Scan(t[|id| + 3..], []).value))
  {
    var rest := t[|id| + 3..];
    IdIff(id);
    assert t == [AT, OPEN] + id + [CLOSE] + rest;
    ScanReference(id, rest, text);
    hide Scan, ValidId, IdOf, IsReference;
    if Scan(rest, []).Ok? {
      ReferencePieces(text, id, Scan(rest, []).value);
    }
  }

  lemma RestScans(t: Text, text: Text)
    ensures t == [] ==> Scan(t, text).Ok? && PiecesOf(Scan(t, text).value) == Chars(text)
    ensures Unclosed(t) ==> Scan(t, text) == Err(NotClosed)
    ensures Misnamed(t) ==> Scan(t, text) == Err(BadId)
  {
    hide PiecesOf, Chars, Unclosed, Misnamed, ValidId, IndexOf;
    FlushPieces(text);
    if Unclosed(t) { UnclosedScans(t, text); }
    if Misnamed(t) { MisnamedScans(t, text); }
  }

  lemma UnclosedScans(t: Text, text: Text)
    requires Unclosed(t)
    ensures Scan(t, text) == Err(NotClosed)
  {
    assert forall i | 0 <= i < |t[2..]| :: t[2..][i] == t[i + 2];
    assert IndexOf(t[2..], CLOSE).None?;
    hide IndexOf, ValidId;
  }

  lemma MisnamedScans(t: Text, text: Text)
    requires Misnamed(t)
    ensures Scan(t, text) == Err(BadId)
  {
    var id :| '}' as int !in id && !IdOf(id) && IsReference(t, id);
    IdIff(id);
    IndexOfAt(id, CLOSE, t[|id| + 3..]);
    assert t[2..] == id + [CLOSE] + t[|id| + 3..];
    hide ValidId, IdOf, IndexOf;
  }

  /** The piece a normal list begins with; after words comes a reference or nothing. */
  lemma NormalFront(a: seq<Segment>)
    requires Normal(a) && a != []
    ensures match a[0]
            case Reference(id) => PiecesOf(a) == [Ref(id)] + PiecesOf(a[1..])
            case Words(x) =>
              && x != [] && PiecesOf(a) == Chars(x) + PiecesOf(a[1..])
              && (PiecesOf(a[1..]) != [] ==> PiecesOf(a[1..])[0].Ref?)
    ensures Normal(a[1..]) && PiecesOf(a) != [] && (PiecesOf(a)[0].Ref? <==> a[0].Reference?)
  {
    hide ValidId;
    if a[0].Words? && |a| > 1 {
      assert a[1].Reference?;
    }
    assert forall i | 0 <= i < |a[1..]| :: a[1..][i] == a[i + 1];
  }

  lemma NotLonger(x: Text, p: seq<Piece>, y: Text, q: seq<Piece>)
    requires Chars(x) + p == Chars(y) + q && (p != [] ==> p[0].Ref?)
    ensures |y| <= |x|
  {
    var s, t := Chars(x) + p, Chars(y) + q;
    assert p != [] ==> s[|x|] == p[0];
    assert forall i | 0 <= i < |y| :: t[i] == Char(y[i]);
    assert |s| == |x| + |p| && |t| == |y| + |q|;
  }

  lemma SameWords(x: Text, p: seq<Piece>, y: Text, q: seq<Piece>)
    requires Chars(x) + p == Chars(y) + q && (p != [] ==> p[0].Ref?) && (q != [] ==> q[0].Ref?)
    ensures x == y && p == q
  {
    var s := Chars(x) + p;
    NotLonger(x, p, y, q);
    NotLonger(y, q, x, p);
    assert forall i | 0 <= i < |x| :: s[i] == Char(x[i]) && s[i] == Char(y[i]);
    assert s[|x|..] == p && s[|y|..] == q;
  }

  lemma {:induction false} NormalUnique(a: seq<Segment>, b: seq<Segment>)
    requires Normal(a) && Normal(b) && PiecesOf(a) == PiecesOf(b)
    ensures a == b
  {
    if a != [] { NormalFront(a); }
    if b != [] { NormalFront(b); }
    hide Normal, Chars;
    if a != [] && b != [] {
      if a[0].Words? {
        hide PiecesOf;
        SameWords(a[0].text, PiecesOf(a[1..]), b[0].text, PiecesOf(b[1..]));
      } else {
        assert PiecesOf(a)[1..] == PiecesOf(a[1..]) && PiecesOf(b)[1..] == PiecesOf(b[1..]);
      }
      NormalUnique(a[1..], b[1..]);
      FrontBack(a);
      FrontBack(b);
    }
  }

  /**
   * A prompt parses to these segments exactly when they are in normal form and it reads as their characters and
   * references.
   */
  lemma PromptIff(t: Text, segments: seq<Segment>)
    ensures Scan(t, []) == Ok(segments) <==> Normal(segments) && ReadsTo(t, PiecesOf(segments), [])
  {
    var pieces, rest := ScanReads(t, []);
    NoChars(pieces);
    hide Normal, ReadsTo, PiecesOf, Scan;
    if Scan(t, []).Ok? {
      ParsedNormal(t, []);
    }
    if Normal(segments) && ReadsTo(t, PiecesOf(segments), []) {
      ReadsScan(t, PiecesOf(segments), [], []);
      NoChars(PiecesOf(segments));
      ParsedNormal(t, []);
      NormalUnique(segments, Scan(t, []).value);
    }
  }

  /** It fails exactly when it reads up to a reference that is not closed, or that has no valid id. */
  lemma PromptErrorIff(t: Text)
    ensures Scan(t, []) == Err(NotClosed) <==> exists pieces, rest :: ReadsTo(t, pieces, rest) && Unclosed(rest)
    ensures Scan(t, []) == Err(BadId) <==> exists pieces, rest :: ReadsTo(t, pieces, rest) && Misnamed(rest)
  {
    var pieces, rest := ScanReads(t, []);
    hide ReadsTo, Scan, Unclosed, Misnamed;
    if pieces, rest :| ReadsTo(t, pieces, rest) && Unclosed(rest) {
      ReadsScan(t, pieces, rest, []);
    }
    if pieces, rest :| ReadsTo(t, pieces, rest) && Misnamed(rest) {
      ReadsScan(t, pieces, rest, []);
    }
  }
}
