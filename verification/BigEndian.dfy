/** Big-endian integers in byte strings, as a DataView reads and writes them. */
module BigEndian {
  import opened JsText

  function Be16(b: Bytes, at: nat): nat
    requires at + 2 <= |b|
  {
    (b[at] as int) * 0x100 + b[at + 1]
  }

  function Be32(b: Bytes, at: nat): nat
    requires at + 4 <= |b|
  {
    (b[at] as int) * 0x100_0000 + (b[at + 1] as int) * 0x1_0000 + (b[at + 2] as int) * 0x100 + b[at + 3]
  }

  function Be64(b: Bytes, at: nat): nat
    requires at + 8 <= |b|
  {
    Be32(b, at) * 0x1_0000_0000 + Be32(b, at + 4)
  }

  function Bytes16(n: nat): (b: Bytes)
    requires n < 0x1_0000
    ensures |b| == 2
  {
    [n / 0x100, n % 0x100]
  }

  function Bytes32(n: nat): (b: Bytes)
    requires n < 0x1_0000_0000
    ensures |b| == 4
  {
    [n / 0x100_0000, n / 0x1_0000 % 0x100, n / 0x100 % 0x100, n % 0x100]
  }

  function Bytes64(n: nat): (b: Bytes)
    requires n < 0x1_0000_0000_0000_0000
    ensures |b| == 8
  {
    Bytes32(n / 0x1_0000_0000) + Bytes32(n % 0x1_0000_0000)
  }

  lemma Bytes16Be16(a: Bytes, n: nat, b: Bytes)
    requires n < 0x1_0000
    ensures Be16(a + Bytes16(n) + b, |a|) == n
  {
    var d := a + Bytes16(n) + b;
    assert d[|a|] == n / 0x100 && d[|a| + 1] == n % 0x100;
  }

  lemma Bytes32Be32(a: Bytes, n: nat, b: Bytes)
    requires n < 0x1_0000_0000
    ensures Be32(a + Bytes32(n) + b, |a|) == n
  {
    FourBytes(n);
    hide Bytes32;
    var d := a + Bytes32(n) + b;
    assert d[|a|] == Bytes32(n)[0] && d[|a| + 1] == Bytes32(n)[1] && d[|a| + 2] == Bytes32(n)[2]
        && d[|a| + 3] == Bytes32(n)[3];
  }

  lemma FourBytes(n: nat)
    requires n < 0x1_0000_0000
    ensures var b := Bytes32(n);
            (b[0] as int) * 0x100_0000 + (b[1] as int) * 0x1_0000 + (b[2] as int) * 0x100 + b[3] == n
  {
    assert n / 0x100 == n / 0x1_0000 * 0x100 + n / 0x100 % 0x100;
    assert n / 0x1_0000 == n / 0x100_0000 * 0x100 + n / 0x1_0000 % 0x100;
  }

  lemma Bytes64Be64(a: Bytes, n: nat, b: Bytes)
    requires n < 0x1_0000_0000_0000_0000
    ensures Be64(a + Bytes64(n) + b, |a|) == n
  {
    hide Bytes32, Be32;
    var hi, lo := n / 0x1_0000_0000, n % 0x1_0000_0000;
    var d := a + Bytes64(n) + b;
    Bytes32Be32(a, hi, Bytes32(lo) + b);
    assert d == a + Bytes32(hi) + (Bytes32(lo) + b);
    Bytes32Be32(a + Bytes32(hi), lo, b);
    assert d == (a + Bytes32(hi)) + Bytes32(lo) + b;
  }

  /** A 32-bit word is its four bytes. */
  lemma Be32Bytes32(b: Bytes, at: nat)
    requires at + 4 <= |b|
    ensures Be32(b, at) < 0x1_0000_0000 && Bytes32(Be32(b, at)) == b[at..at + 4]
  {
    var n := Be32(b, at);
    var w, x, y, z := b[at] as int, b[at + 1] as int, b[at + 2] as int, b[at + 3] as int;
    var wx, wxy := w * 0x100 + x, (w * 0x100 + x) * 0x100 + y;
    assert n == wxy * 0x100 + z;
    assert n / 0x100 == wxy && n % 0x100 == z;
    assert wxy / 0x100 == wx && wxy % 0x100 == y && wx / 0x100 == w && wx % 0x100 == x;
    assert n / 0x1_0000 == wxy / 0x100 && n / 0x100_0000 == wx / 0x100;
  }

  /** A 64-bit word is its eight bytes. */
  lemma Be64Bytes64(b: Bytes, at: nat)
    requires at + 8 <= |b|
    ensures Be64(b, at) < 0x1_0000_0000_0000_0000 && Bytes64(Be64(b, at)) == b[at..at + 8]
  {
    Be32Bytes32(b, at);
    Be32Bytes32(b, at + 4);
    hide Be32, Bytes32;
    var hi, lo := Be32(b, at), Be32(b, at + 4);
    Halves(hi, lo);
    assert b[at..at + 8] == b[at..at + 4] + b[at + 4..at + 4 + 4];
  }

  lemma Halves(hi: nat, lo: nat)
    requires hi < 0x1_0000_0000 && lo < 0x1_0000_0000
    ensures var n := hi * 0x1_0000_0000 + lo;
            n < 0x1_0000_0000_0000_0000 && n / 0x1_0000_0000 == hi && n % 0x1_0000_0000 == lo
  {}

  lemma Be32Within(data: Bytes, from: nat, b: Bytes, at: nat)
    requires from + |b| <= |data| && b == data[from..from + |b|] && at + 4 <= |b|
    ensures Be32(b, at) == Be32(data, from + at)
  {}

  lemma Be64Within(data: Bytes, from: nat, b: Bytes)
    requires from + |b| <= |data| && b == data[from..from + |b|] && 8 <= |b|
    ensures Be64(b, 0) == Be64(data, from)
  {
    hide Be32;
    Be32Within(data, from, b, 0);
    Be32Within(data, from, b, 4);
  }
}
