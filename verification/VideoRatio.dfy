/**
 * The size and aspect-ratio check of a video request: `aspectRatio`, `reducedRatio`, `validateVideoOutput`
 * (src/aicc_client.ts).
 */
module VideoRatio {
  import opened Wrappers
  import opened JsText

  const COLON: Unit := 0x3A

  // ---- numbers in text

  predicate AllDigits(t: Text) { forall i | 0 <= i < |t| :: IsDigit(t[i]) }

  /** `Number(t)` of a digit string. */
  function Number(t: Text): nat
    requires AllDigits(t)
  {
    if t == [] then 0 else Number(t[..|t| - 1]) * 10 + (t[|t| - 1] - 0x30)
  }

  /** A whole number as a template string prints it. */
  function Decimal(n: nat): (t: Text)
    ensures t != [] && AllDigits(t) && COLON !in t
  {
    if n < 10 then [0x30 + n] else Decimal(n / 10) + [0x30 + n % 10]
  }

  lemma {:induction false} NumberDecimal(n: nat)
    ensures Number(Decimal(n)) == n
  {
    if n >= 10 {
      NumberDecimal(n / 10);
      var t := Decimal(n);
      assert t[..|t| - 1] == Decimal(n / 10);
    } else {
      assert Decimal(n)[..0] == [];
    }
  }

  // ---- the two functions

  /** `/^(\d{1,3}):(\d{1,3})$/` with both numbers in 1..100. */
  function AspectRatio(t: Text): (r: Option<(nat, nat)>)
    ensures r.Some? ==> 1 <= r.value.0 <= 100 && 1 <= r.value.1 <= 100
  {
    match IndexOf(t, COLON)
    case None => None
    case Some(i) =>
      var a, b := t[..i], t[i + 1..];
      if 1 <= |a| <= 3 && 1 <= |b| <= 3 && AllDigits(a) && AllDigits(b) then
        var width, height := Number(a), Number(b);
        if 1 <= width <= 100 && 1 <= height <= 100 then Some((width, height)) else None
      else None
  }

  function Gcd(a: nat, b: nat): (g: nat)
    ensures a + b > 0 ==> g > 0
    decreases b
  {
    if b == 0 then a else Gcd(b, a % b)
  }

  function Over(n: nat, divisor: nat): nat
    requires divisor > 0
  {
    n / divisor
  }

  function ReducedRatio(width: nat, height: nat): Text {
    var g := Gcd(width, height);
    var divisor := if g > 1 then g else 1;
    Decimal(Over(width, divisor)) + [COLON] + Decimal(Over(height, divisor))
  }

  // ---- the greatest common divisor

  ghost predicate Divides(d: nat, n: nat) { exists k: nat :: n == d * k }

  lemma DividesSum(d: nat, a: nat, q: nat, r: nat)
    requires Divides(d, a) && Divides(d, r)
    ensures Divides(d, q * a + r)
  {
    var j: nat :| a == d * j;
    var k: nat :| r == d * k;
    assert q * a + r == d * (q * j + k) by {
      assert q * (d * j) == d * (q * j);
    }
  }

  lemma DividesRemainder(d: nat, a: nat, b: nat)
    requires b > 0 && Divides(d, a) && Divides(d, b)
    ensures Divides(d, a % b)
  {
    var j: nat :| a == d * j;
    var k: nat :| b == d * k;
    var q := a / b;
    assert a % b == a - q * b;
    assert q * b == d * (q * k) by {
      assert q * (d * k) == d * (q * k);
    }
    var m := j - q * k;
    assert a % b == d * m by {
      assert d * j - d * (q * k) == d * (j - q * k);
    }
    if m < 0 {
      assert d * m <= 0;
      assert a % b == 0;
      assert d * 0 == 0;
    }
  }

  /** It divides both numbers, and every common divisor divides it. */
  lemma GcdStep(a: nat, b: nat)
    requires b > 0
    ensures Gcd(a, b) == Gcd(b, a % b)
  {}

  lemma DivMod(a: nat, b: nat)
    requires b > 0
    ensures a == a / b * b + a % b
  {}

  lemma {:induction false} GcdDivides(a: nat, b: nat)
    requires a + b > 0
    ensures Gcd(a, b) > 0 && Divides(Gcd(a, b), a) && Divides(Gcd(a, b), b)
    ensures forall d: nat :: Divides(d, a) && Divides(d, b) ==> Divides(d, Gcd(a, b))
    decreases b
  {
    if b == 0 {
      assert a == a * 1 && 0 == a * 0;
    } else {
      GcdStep(a, b);
      hide Divides, Gcd;
      GcdDivides(b, a % b);
      var g := Gcd(a, b);
      DividesSum(g, b, a / b, a % b);
      DivMod(a, b);
      forall d: nat | Divides(d, a) && Divides(d, b)
        ensures Divides(d, g)
      {
        DividesRemainder(d, a, b);
      }
    }
  }

  // ---- equal cross products walk through Euclid's algorithm side by side

  lemma MulOrder(a: int, b: int, m: int)
    requires a <= b && m >= 0
    ensures a * m <= b * m
  {
    assert (b - a) * m >= 0;
    assert (b - a) * m == b * m - a * m;
  }

  lemma MulStep(a: int, b: int, m: int)
    requires a < b && m >= 0
    ensures a * m + m <= b * m
  {
    MulOrder(a + 1, b, m);
    assert (a + 1) * m == a * m + m;
  }

  lemma Cancel(k: int, x: int, y: int)
    requires k > 0 && k * x == k * y
    ensures x == y
  {
    if x < y {
      MulStep(x, y, k);
    } else if y < x {
      MulStep(y, x, k);
    }
  }

  lemma QuotientUnique(q: int, Q: int, m: int, x: int, y: int)
    requires 0 <= x < m && 0 <= y < m && q * m + x == Q * m + y
    ensures q == Q && x == y
  {
    if q < Q {
      MulStep(q, Q, m);
    } else if Q < q {
      MulStep(Q, q, m);
    }
  }

  lemma Expand(q: int, h: int, r: int, H: int)
    ensures (q * h + r) * H == q * (h * H) + r * H
  {
    assert (q * h) * H == q * (h * H);
  }

  lemma Division(n: nat, d: nat)
    requires d > 0
    ensures n == n / d * d + n % d && n % d < d
  {}

  lemma SameQuotient(w: nat, h: nat, W: nat, H: nat)
    requires h > 0 && H > 0 && w * H == W * h
    ensures w / h == W / H && (w % h) * H == (W % H) * h
  {
    Division(w, h);
    Division(W, H);
    SameQuotientParts(w, h, W, H, w / h, W / H, w % h, W % H);
  }

  lemma SameQuotientParts(w: nat, h: nat, W: nat, H: nat, q: int, Q: int, r: nat, R: nat)
    requires h > 0 && H > 0 && w * H == W * h && w == q * h + r && W == Q * H + R && r < h && R < H
    ensures q == Q && r * H == R * h
  {
    Expand(q, h, r, H);
    Expand(Q, H, R, h);
    MulStep(r, h, H);
    MulStep(R, H, h);
    ProductNat(r, H);
    ProductNat(R, h);
    Commutes(h, H);
    QuotientUnique(q, Q, h * H, r * H, R * h);
  }

  lemma ProductNat(x: nat, y: nat)
    ensures x * y >= 0
  {}

  lemma Commutes(x: int, y: int)
    ensures x * y == y * x
  {}

  lemma ZeroProduct(x: nat, y: nat)
    requires y > 0
    ensures x * y == 0 <==> x == 0
  {
    if x > 0 {
      MulOrder(1, x, y);
    }
  }

  lemma {:induction false} GcdScales(w: nat, h: nat, W: nat, H: nat)
    requires h > 0 && H > 0 && w * H == W * h
    ensures Gcd(w, h) * H == Gcd(W, H) * h
    decreases h
  {
    SameQuotient(w, h, W, H);
    var r, R := w % h, W % H;
    ZeroProduct(r, H);
    ZeroProduct(R, h);
    if r == 0 {
      assert Gcd(w, h) == h && Gcd(W, H) == H;
    } else {
      assert h * R == H * r;
      GcdScales(h, r, H, R);
      CrossGcd(Gcd(h, r), Gcd(H, R), h, r, H, R);
    }
  }

  lemma CrossGcd(g: nat, G: nat, h: nat, r: nat, H: nat, R: nat)
    requires r > 0 && g * R == G * r && r * H == R * h
    ensures g * H == G * h
  {
    assert r * (g * H) == g * (r * H) == g * (R * h) == (g * R) * h == (G * r) * h == r * (G * h);
    Cancel(r, g * H, G * h);
  }

  lemma Quotient(x: nat, g: nat)
    requires g > 0 && Divides(g, x)
    ensures x == g * (x / g)
  {
    var k: nat :| x == g * k;
    assert x / g == k by {
      QuotientUnique(x / g, k, g, x % g, 0);
    }
  }

  /** Lowest terms are equal exactly when the cross products are. */
  lemma LowestTermsIff(w: nat, h: nat, W: nat, H: nat)
    requires w > 0 && h > 0 && W > 0 && H > 0
    ensures w / Gcd(w, h) == W / Gcd(W, H) && h / Gcd(w, h) == H / Gcd(W, H) <==> w * H == h * W
  {
    hide Gcd, Divides;
    var g, G := Gcd(w, h), Gcd(W, H);
    GcdDivides(w, h);
    GcdDivides(W, H);
    Quotient(w, g);
    Quotient(h, g);
    Quotient(W, G);
    Quotient(H, G);
    if w * H == h * W {
      assert w * H == W * h;
      GcdScales(w, h, W, H);
    }
    LowestParts(g, G, w / g, h / g, W / G, H / G, w, h, W, H);
  }

  lemma LowestParts(g: nat, G: nat, a: nat, b: nat, A: nat, B: nat, w: nat, h: nat, W: nat, H: nat)
    requires g > 0 && G > 0 && w > 0 && h > 0 && W > 0 && H > 0
    requires w == g * a && h == g * b && W == G * A && H == G * B
    requires w * H == h * W ==> g * H == G * h
    ensures a == A && b == B <==> w * H == h * W
  {
    if a == A && b == B {
      Swap(g, a, G, b);
    }
    if w * H == h * W {
      SameTerm(g, G, b, B, h, H);
      OtherSide(g, G, w, h, W, H);
      SameTerm(g, G, a, A, w, W);
    }
  }

  lemma Swap(g: nat, a: nat, G: nat, b: nat)
    ensures (g * a) * (G * b) == (g * b) * (G * a)
  {
    assert (g * a) * (G * b) == g * (a * (G * b)) == g * (G * (a * b));
    assert (g * b) * (G * a) == g * (b * (G * a)) == g * (G * (b * a));
  }

  lemma SameTerm(g: nat, G: nat, b: nat, B: nat, h: nat, H: nat)
    requires g > 0 && G > 0 && h == g * b && H == G * B && g * H == G * h
    ensures b == B
  {
    var m := g * G;
    assert m > 0;
    assert g * (G * B) == m * B && G * (g * b) == m * b;
    Cancel(m, b, B);
  }

  lemma OtherSide(g: nat, G: nat, w: nat, h: nat, W: nat, H: nat)
    requires H > 0 && g * H == G * h && w * H == h * W
    ensures g * W == G * w
  {
    assert H * (g * W) == (g * H) * W == (G * h) * W == G * (h * W) == G * (w * H) == H * (G * w);
    Cancel(H, g * W, G * w);
  }

  // ---- the check

  lemma RatioText(x: nat, y: nat, X: nat, Y: nat)
    ensures Decimal(x) + [COLON] + Decimal(y) == Decimal(X) + [COLON] + Decimal(Y) <==> x == X && y == Y
  {
    hide Decimal, IndexOf;
    var s, t := Decimal(x) + [COLON] + Decimal(y), Decimal(X) + [COLON] + Decimal(Y);
    IndexOfAt(Decimal(x), COLON, Decimal(y));
    IndexOfAt(Decimal(X), COLON, Decimal(Y));
    if s == t {
      var n := |Decimal(x)|;
      assert s[..n] == Decimal(x) && t[..n] == Decimal(X);
      assert s[n + 1..] == Decimal(y) && t[n + 1..] == Decimal(Y);
      NumberDecimal(x);
      NumberDecimal(X);
      NumberDecimal(y);
      NumberDecimal(Y);
    }
  }

  /** The reduced texts are equal exactly when the cross products are. */
  lemma ReducedIff(w: nat, h: nat, W: nat, H: nat)
    requires w > 0 && h > 0 && W > 0 && H > 0
    ensures ReducedRatio(w, h) == ReducedRatio(W, H) <==> w * H == h * W
  {
    hide Gcd, Decimal;
    RatioText(w / Gcd(w, h), h / Gcd(w, h), W / Gcd(W, H), H / Gcd(W, H));
    LowestTermsIff(w, h, W, H);
  }

  datatype SizeError = BadRatio | BadEdge | Conflict

  predicate Edge(n: int) { 16 <= n <= 8192 }

  /** The part of `validateVideoOutput` about a size given by width and height, and the aspect ratio if there is one. */
  function CheckSize(ratio: Option<Text>, width: int, height: int): Result<(), SizeError> {
    if ratio.Some? && AspectRatio(ratio.value).None? then Err(BadRatio)
    else if !Edge(width) || !Edge(height) then Err(BadEdge)
    else if ratio.Some? &&
      var (w, h) := AspectRatio(ratio.value).value;
      ReducedRatio(width, height) != ReducedRatio(w, h)
    then Err(Conflict)
    else Ok(())
  }

  /** A size passes exactly when its sides are in range and in the proportion the text asks for. */
  lemma SizePassesIff(text: Text, width: int, height: int)
    requires AspectRatio(text).Some?
    ensures var (w, h) := AspectRatio(text).value;
            CheckSize(Some(text), width, height).Ok? <==> Edge(width) && Edge(height) && width * h == height * w
  {
    if Edge(width) && Edge(height) {
      var (w, h) := AspectRatio(text).value;
      ReducedIff(width, height, w, h);
    }
  }

  /**
   * The accepted texts are `W:H` with 1 to 3 digits each and values in 1..100; a ratio printed without leading zeros
   * is one.
   */
  lemma PrintedRatio(w: nat, h: nat)
    requires 1 <= w <= 100 && 1 <= h <= 100
    ensures AspectRatio(Decimal(w) + [COLON] + Decimal(h)) == Some((w, h))
  {
    hide IndexOf;
    var t := Decimal(w) + [COLON] + Decimal(h);
    IndexOfAt(Decimal(w), COLON, Decimal(h));
    assert t[..|Decimal(w)|] == Decimal(w) && t[|Decimal(w)| + 1..] == Decimal(h);
    NumberDecimal(w);
    NumberDecimal(h);
    DecimalLength(w);
    DecimalLength(h);
  }

  lemma DecimalLength(n: nat)
    requires n <= 100
    ensures |Decimal(n)| <= 3
  {
    if n >= 10 {
      assert Decimal(n) == Decimal(n / 10) + [0x30 + n % 10];
    }
  }

  /** Which ratios are read, zeros in front allowed. */
  ghost predicate RatioReads(t: Text, w: nat, h: nat) {
    exists i: nat, j: nat ::
      && t == Zeros(i) + Decimal(w) + Lit(":") + (Zeros(j) + Decimal(h)) && 1 <= w <= 100 && 1 <= h <= 100
      && |Zeros(i) + Decimal(w)| <= 3 && |Zeros(j) + Decimal(h)| <= 3
  }

  function Zeros(n: nat): (t: Text)
    ensures |t| == n
  {
    seq(n, i => '0' as int)
  }

  lemma {:induction false} ZerosIn(a: Text) returns (i: nat)
    requires AllDigits(a)
    ensures Number(a) > 0 ==> a == Zeros(i) + Decimal(Number(a))
    ensures Number(a) == 0 ==> a == Zeros(i)
  {
    i := 0;
    if a != [] {
      var front, last := a[..|a| - 1], a[|a| - 1] - 0x30;
      assert a == front + [a[|a| - 1]];
      i := ZerosIn(front);
      if Number(front) == 0 {
        if last == 0 {
          i := i + 1;
          assert a == Zeros(i);
        }
      } else {
        assert Number(a) / 10 == Number(front) && Number(a) % 10 == last;
      }
    }
  }

  lemma {:induction false} ZerosNumber(i: nat, n: nat)
    ensures AllDigits(Zeros(i) + Decimal(n)) && Number(Zeros(i) + Decimal(n)) == n
    decreases n
  {
    var t := Zeros(i) + Decimal(n);
    if n < 10 {
      assert t[..|t| - 1] == Zeros(i);
      ZeroNumber(i);
    } else {
      assert t[..|t| - 1] == Zeros(i) + Decimal(n / 10);
      ZerosNumber(i, n / 10);
    }
  }

  lemma {:induction false} ZeroNumber(i: nat)
    ensures Number(Zeros(i)) == 0
  {
    if i > 0 {
      assert Zeros(i)[..i - 1] == Zeros(i - 1);
      ZeroNumber(i - 1);
    }
  }

  lemma ReadsRatio(t: Text, w: nat, h: nat)
    requires AspectRatio(t) == Some((w, h))
    ensures RatioReads(t, w, h)
  {
    var a, b := RatioParts(t, w, h);
    var i := ZerosIn(a);
    var j := ZerosIn(b);
    assert Lit(":") == [COLON];
    hide Decimal, Number, Lit, Zeros, AspectRatio;
  }

  lemma RatioParts(t: Text, w: nat, h: nat) returns (a: Text, b: Text)
    requires AspectRatio(t) == Some((w, h))
    ensures t == a + [COLON] + b && |a| <= 3 && |b| <= 3 && AllDigits(a) && AllDigits(b)
    ensures Number(a) == w && Number(b) == h && 1 <= w <= 100 && 1 <= h <= 100
  {
    hide Number;
    var k := IndexOf(t, COLON).value;
    a, b := t[..k], t[k + 1..];
  }

  lemma RatioRead(t: Text, w: nat, h: nat)
    requires RatioReads(t, w, h)
    ensures AspectRatio(t) == Some((w, h))
  {
    var i: nat, j: nat :|
      && t == Zeros(i) + Decimal(w) + Lit(":") + (Zeros(j) + Decimal(h)) && 1 <= w <= 100 && 1 <= h <= 100
      && |Zeros(i) + Decimal(w)| <= 3 && |Zeros(j) + Decimal(h)| <= 3;
    assert Lit(":") == [COLON];
    ZerosNumber(i, w);
    ZerosNumber(j, h);
    hide Number, Decimal, Zeros, Lit, AspectRatio;
    PartsRead(Zeros(i) + Decimal(w), Zeros(j) + Decimal(h), w, h);
  }

  lemma PartsRead(a: Text, b: Text, w: nat, h: nat)
    requires AllDigits(a) && AllDigits(b) && Number(a) == w && Number(b) == h
    requires 1 <= |a| <= 3 && 1 <= |b| <= 3 && 1 <= w <= 100 && 1 <= h <= 100
    ensures AspectRatio(a + [COLON] + b) == Some((w, h))
  {
    IndexOfAt(a, COLON, b);
    hide Number, IndexOf;
    var t := a + [COLON] + b;
    assert t[..|a|] == a && t[|a| + 1..] == b;
  }

  lemma AspectIff(t: Text, w: nat, h: nat)
    ensures AspectRatio(t) == Some((w, h)) <==> RatioReads(t, w, h)
  {
    hide AspectRatio, RatioReads;
    if AspectRatio(t) == Some((w, h)) {
      ReadsRatio(t, w, h);
    }
    if RatioReads(t, w, h) {
      RatioRead(t, w, h);
    }
  }

  /** What is wrong with a size: first a ratio that cannot be read, then a side out of range, then the proportion. */
  lemma SizeErrorIs(ratio: Option<Text>, width: int, height: int)
    ensures var r, edges := CheckSize(ratio, width, height), 16 <= width <= 8192 && 16 <= height <= 8192;
            match ratio
            case None => if edges then r == Ok(()) else r == Err(BadEdge)
            case Some(t) =>
              && (r == Err(BadRatio) <==> forall w, h :: !RatioReads(t, w, h))
              && (r == Err(BadEdge) <==> !edges && exists w, h :: RatioReads(t, w, h))
              && (r == Err(Conflict) <==> edges && exists w, h :: RatioReads(t, w, h) && width * h != height * w)
  {
    if ratio.Some? {
      var t := ratio.value;
      forall w: nat, h: nat
        ensures AspectRatio(t) == Some((w, h)) <==> RatioReads(t, w, h)
      {
        AspectIff(t, w, h);
      }
      if AspectRatio(t).Some? {
        SizePassesIff(t, width, height);
        assert RatioReads(t, AspectRatio(t).value.0, AspectRatio(t).value.1);
      }
    }
    hide AspectRatio, RatioReads;
  }
}
