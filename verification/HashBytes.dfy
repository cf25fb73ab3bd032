/** Bytes and 32-bit words, and messages cut into 64-byte blocks. */
module HashBytes {
  type Byte = x: int | 0 <= x < 256

  type Word = bv32

  const TWO32: int := 0x1_0000_0000
  const TWO64: int := 0x1_0000_0000_0000_0000

  const BLOCK: int := 64

  // ---------- big-endian and little-endian numbers ----------

  /** The value of a big-endian number. */
  function BigEndian(s: seq<Byte>): (n: nat) {
    if s == [] then 0 else 256 * BigEndian(s[..|s| - 1]) + s[|s| - 1]
  }

  /** The value of a little-endian number. */
  function LittleEndian(s: seq<Byte>): (n: nat) {
    if s == [] then 0 else s[0] + 256 * LittleEndian(s[1..])
  }

  // be32enc
  function Be32Enc(u: nat): (p: seq<Byte>)
    requires u < TWO32
    ensures |p| == 4
  {
    [u / 0x100_0000 % 256, u / 0x1_0000 % 256, u / 0x100 % 256, u % 256]
  }

  // be64enc
  function Be64Enc(u: nat): (p: seq<Byte>)
    requires u < TWO64
    ensures |p| == 8
  {
    Be32Enc(u / TWO32) + Be32Enc(u % TWO32)
  }

  // be16dec
  function Be16Dec(p: seq<Byte>): (u: nat)
    requires |p| >= 2
    ensures u < 0x1_0000
  {
    p[0] as int * 0x100 + p[1]
  }

  // be32dec
  function Be32Dec(p: seq<Byte>): (u: nat)
    requires |p| >= 4
    ensures u < TWO32
  {
    Be16Dec(p) * 0x1_0000 + Be16Dec(p[2..])
  }

  // Four bytes as MD5 stores and reads them.
  function Le32Enc(u: nat): (p: seq<Byte>)
    requires u < TWO32
    ensures |p| == 4
  {
    [u % 256, u / 0x100 % 256, u / 0x1_0000 % 256, u / 0x100_0000 % 256]
  }

  function Le32Dec(p: seq<Byte>): (u: nat)
    requires |p| >= 4
    ensures u < TWO32
  {
    p[0] as int + p[1] as int * 0x100 + p[2] as int * 0x1_0000 + p[3] as int * 0x100_0000
  }

  lemma FourBytes(p: seq<Byte>)
    requires |p| == 4
    ensures BigEndian(p) == Be32Dec(p) && LittleEndian(p) == Le32Dec(p)
  {
    var b0, b1, b2, b3: int := p[0], p[1], p[2], p[3];
    assert p[..1][..0] == [] && p[..2][..1] == p[..1] && p[..3][..2] == p[..2];
    assert BigEndian(p[..1]) == b0;
    assert BigEndian(p[..2]) == b0 * 256 + b1;
    assert BigEndian(p[..3]) == (b0 * 256 + b1) * 256 + b2;
    assert p[3..][1..] == [] && p[2..][1..] == p[3..] && p[1..][1..] == p[2..];
    assert LittleEndian(p[3..]) == b3;
    assert LittleEndian(p[2..]) == b2 + 256 * b3;
    assert LittleEndian(p[1..]) == b1 + 256 * (b2 + 256 * b3);
  }

  /** Decoding undoes encoding, and an encoded number has its value. */
  lemma EncodingsMean(u: nat)
    requires u < TWO32
    ensures Be32Dec(Be32Enc(u)) == u && BigEndian(Be32Enc(u)) == u
    ensures Le32Dec(Le32Enc(u)) == u && LittleEndian(Le32Enc(u)) == u
  {
    Digits(u);
    FourBytes(Be32Enc(u));
    FourBytes(Le32Enc(u));
  }

  lemma Digits(u: nat)
    requires u < TWO32
    ensures u == u / 0x100_0000 % 256 * 0x100_0000 + u / 0x1_0000 % 256 * 0x1_0000 + u / 0x100 % 256 * 0x100 + u % 256
  {
    var a, b, c := u / 0x100, u / 0x1_0000, u / 0x100_0000;
    assert u == a * 0x100 + u % 0x100;
    assert a == b * 0x100 + a % 0x100;
    assert b == c * 0x100 + b % 0x100;
    assert c < 256;
  }

  // A 64-bit number as two words, low-order word first.
  function Le64Enc(u: nat): (p: seq<Byte>)
    requires u < TWO64
    ensures |p| == 8
  {
    Le32Enc(u % TWO32) + Le32Enc(u / TWO32)
  }

  lemma {:induction false} LittleEndianConcat(a: seq<Byte>, b: seq<Byte>)
    ensures LittleEndian(a + b) == LittleEndian(a) + LittleEndian(b) * Power256(|a|)
  {
    if a == [] {
      assert a + b == b;
    } else {
      assert (a + b)[1..] == a[1..] + b;
      LittleEndianConcat(a[1..], b);
      Distribute(LittleEndian(b), Power256(|a[1..]|), LittleEndian(a[1..]));
    }
  }

  lemma Le64Means(u: nat)
    requires u < TWO64
    ensures LittleEndian(Le64Enc(u)) == u
  {
    var hi, lo := u / TWO32, u % TWO32;
    EncodingsMean(hi);
    EncodingsMean(lo);
    hide Be32Enc, Be32Dec, BigEndian, Le32Enc, Le32Dec, LittleEndian, Power256;
    LittleEndianConcat(Le32Enc(lo), Le32Enc(hi));
    assert Power256(|Le32Enc(lo)|) == TWO32 by { Power256Of4(); }
    assert LittleEndian(Le64Enc(u)) == lo + hi * TWO32;
  }

  lemma {:induction false} BigEndianConcat(a: seq<Byte>, b: seq<Byte>)
    ensures BigEndian(a + b) == BigEndian(a) * Power256(|b|) + BigEndian(b)
  {
    if b == [] {
      assert a + b == a;
    } else {
      var b' := b[..|b| - 1];
      assert (a + b)[..|a + b| - 1] == a + b';
      BigEndianConcat(a, b');
      Distribute(BigEndian(a), Power256(|b'|), BigEndian(b'));
    }
  }

  lemma Distribute(x: nat, y: nat, z: nat)
    ensures 256 * (x * y + z) == x * (256 * y) + 256 * z
  {}

  function Power256(n: nat): nat { if n == 0 then 1 else 256 * Power256(n - 1) }

  lemma Power256Of4()
    ensures Power256(4) == TWO32
  {
    assert Power256(2) == 256 * 256;
  }

  lemma Be64Means(u: nat)
    requires u < TWO64
    ensures BigEndian(Be64Enc(u)) == u
  {
    var hi, lo := u / TWO32, u % TWO32;
    EncodingsMean(hi);
    EncodingsMean(lo);
    hide Be32Enc, Be32Dec, BigEndian, Le32Enc, Le32Dec, LittleEndian, Power256;
    var p := Be32Enc(lo);
    BigEndianConcat(Be32Enc(hi), p);
    assert Power256(|p|) == TWO32 by { Power256Of4(); }
    assert BigEndian(Be64Enc(u)) == hi * TWO32 + lo;
  }

  // ---------- padding ----------

  function Zeros(n: nat): (z: seq<Byte>)
    ensures |z| == n && forall i :: 0 <= i < n ==> z[i] == 0
  {
    seq(n, _ => 0)
  }

  // The number of zero bytes between the byte 0x80 and the length.
  function ZeroCount(len: nat): (k: nat)
    ensures k < BLOCK && (len + 1 + k) % BLOCK == 56 && (len + 1 + k + 8) % BLOCK == 0
  {
    (55 - len) % BLOCK
  }

  /** It is the smallest that leaves room for exactly the length. */
  lemma ZeroCountIsSmallest(len: nat, k: nat)
    requires (len + 1 + k) % BLOCK == 56
    ensures ZeroCount(len) <= k
  {
    var z := ZeroCount(len);
    assert k == (len + 1 + k) / BLOCK * BLOCK + 55 - len;
  }

  lemma ZeroCountIs(n: nat, r: nat)
    requires r < BLOCK
    ensures ZeroCount(BLOCK * n + r) == if r < 56 then 55 - r else 119 - r
  {
    assert 55 - (BLOCK * n + r) == 55 - r - BLOCK * n;
  }

  // The complete blocks of a message, and the bytes after them.
  function Blocks(len: nat): nat { len / BLOCK }

  function Rest(len: nat): nat { len % BLOCK }

  lemma BlocksAndRest(len: nat)
    ensures len == BLOCK * Blocks(len) + Rest(len) && Rest(len) < BLOCK
  {}

  lemma TheyAreUnique(len: nat, n: nat, r: nat)
    requires len == BLOCK * n + r && r < BLOCK
    ensures n == Blocks(len) && r == Rest(len)
  {}

  // ---------- pieces of a file ----------

  function Join(chunks: seq<seq<Byte>>): seq<Byte> {
    if chunks == [] then [] else Join(chunks[..|chunks| - 1]) + chunks[|chunks| - 1]
  }

  lemma JoinNext(chunks: seq<seq<Byte>>, i: nat)
    requires i < |chunks|
    ensures Join(chunks[..i + 1]) == Join(chunks[..i]) + chunks[i]
  {
    assert chunks[..i + 1][..i] == chunks[..i];
  }

  lemma JoinOfNone()
    ensures Join([]) == []
  {}
}
