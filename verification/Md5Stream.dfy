/** The incremental interface of MD5: the context of mkhash.c. */
module Md5Stream {
  import opened HashBytes
  import opened Md5

  const TWO29: int := 0x2000_0000
  const TWO61: int := 0x2000_0000_0000_0000

  // ---------- RFC 1321, sections 3.1, 3.2 and 3.5 ----------

  // The padding and the low-order 64 bits of the length.
  function Padding(len: nat): (p: seq<Byte>)
    ensures |p| == 1 + ZeroCount(len) + 8
  {
    [0x80] + Zeros(ZeroCount(len)) + Le64Enc(8 * len % TWO64)
  }

  function Padded(msg: seq<Byte>): (p: seq<Byte>)
    ensures |p| % BLOCK == 0
  {
    msg + Padding(|msg|)
  }

  function LowFirst(w: Word): (d: seq<Byte>)
    ensures |d| == 4
  {
    Le32Enc(w as int)
  }

  function Output(r: Regs): (d: seq<Byte>)
    ensures |d| == 16
  {
    LowFirst(r.a) + LowFirst(r.b) + LowFirst(r.c) + LowFirst(r.d)
  }

  function Digest(msg: seq<Byte>): (d: seq<Byte>)
    ensures |d| == 16
  {
    Output(Fold(Initial(), Padded(msg), Blocks(|Padded(msg)|)))
  }

  // ---------- the split counter ----------

  // The number of bytes seen, modulo 2^61.
  ghost predicate Counts(lo: nat, hi: nat, len: nat) {
    lo < TWO29 && hi < TWO32 && hi * TWO29 + lo == len % TWO61
  }

  function NextLo(lo: nat, size: nat): nat { (lo + size) % TWO29 }

  function NextHi(lo: nat, hi: nat, size: nat): nat {
    var hi' := if NextLo(lo, size) < lo then (hi + 1) % TWO32 else hi;
    (hi' + size / TWO29) % TWO32
  }

  /** The counter stays exact for every size. */
  lemma CountingIsExact(lo: nat, hi: nat, len: nat, size: nat)
    requires Counts(lo, hi, len)
    ensures Counts(NextLo(lo, size), NextHi(lo, hi, size), len + size)
    ensures lo % BLOCK == Rest(len)
  {
    var q, r := size / TWO29, size % TWO29;
    var carry: nat := if lo + r >= TWO29 then 1 else 0;
    NextParts(lo, hi, size, q, r, carry);
    hide NextLo, NextHi;
    CarryOver(hi + carry + q, NextLo(lo, size));
    SumModulo(len, size, hi * TWO29 + lo, (hi + carry + q) * TWO29 + NextLo(lo, size));
    assert lo % BLOCK == Rest(len) by { LowBits(lo, hi, len); }
  }

  lemma NextParts(lo: nat, hi: nat, size: nat, q: nat, r: nat, carry: nat)
    requires lo < TWO29 && hi < TWO32 && q == size / TWO29 && r == size % TWO29
    requires carry == if lo + r >= TWO29 then 1 else 0
    ensures NextLo(lo, size) == lo + r - carry * TWO29
    ensures NextHi(lo, hi, size) == (hi + carry + q) % TWO32
  {
    assert lo + size == (q + carry) * TWO29 + (lo + r - carry * TWO29);
    assert NextLo(lo, size) < lo <==> carry == 1;
  }

  // The high part wraps around with the whole.
  lemma CarryOver(hi: nat, lo: nat)
    requires lo < TWO29
    ensures (hi * TWO29 + lo) % TWO61 == hi % TWO32 * TWO29 + lo
  {
    var a, b := hi / TWO32, hi % TWO32;
    assert hi * TWO29 + lo == a * TWO61 + (b * TWO29 + lo);
  }

  lemma SumModulo(len: nat, size: nat, seen: nat, sum: nat)
    requires seen == len % TWO61 && sum == seen + size
    ensures (len + size) % TWO61 == sum % TWO61
  {
    assert len + size == len / TWO61 * TWO61 + sum;
  }

  lemma LowBits(lo: nat, hi: nat, len: nat)
    requires Counts(lo, hi, len)
    ensures lo % BLOCK == Rest(len)
  {
    assert len == len / TWO61 * TWO61 + (hi * TWO29 + lo);
  }

  // The 64-bit length, as MD5_end stores it.
  lemma LengthBytes(lo: nat, hi: nat, len: nat)
    requires Counts(lo, hi, len)
    ensures 8 * lo < TWO32 && hi < TWO32
    ensures Le32Enc(8 * lo) + Le32Enc(hi) == Le64Enc(8 * len % TWO64)
  {
    hide Le32Enc;
    LengthParts(lo, hi, len);
  }

  lemma LengthParts(lo: nat, hi: nat, len: nat)
    requires Counts(lo, hi, len)
    ensures 8 * len % TWO64 % TWO32 == 8 * lo && 8 * len % TWO64 / TWO32 == hi
  {
    EightTimes(len);
    SplitBits(lo, hi);
  }

  lemma EightTimes(len: nat)
    ensures 8 * len % TWO64 == 8 * (len % TWO61)
  {
    var k, s := len / TWO61, len % TWO61;
    assert 8 * len == k * TWO64 + 8 * s;
  }

  lemma SplitBits(lo: nat, hi: nat)
    requires lo < TWO29
    ensures (8 * (hi * TWO29 + lo)) % TWO32 == 8 * lo && (8 * (hi * TWO29 + lo)) / TWO32 == hi
  {
    assert 8 * (hi * TWO29 + lo) == hi * TWO32 + 8 * lo;
  }

  lemma FoldOfPrefix(r: Regs, m: seq<Byte>, m': seq<Byte>, n: nat)
    requires BLOCK * n <= |m| && BLOCK * n <= |m'| && m[..BLOCK * n] == m'[..BLOCK * n]
    ensures Fold(r, m, n) == Fold(r, m', n)
  {
    hide Compress;
    assert Fold(r, m', 0) == r;
    hide Fold;
    assert m'[BLOCK * 0..BLOCK * (0 + n)] == m'[..BLOCK * n];
    FoldMore(r, m', 0, m, n);
  }

  class Context {
    var lo: nat
    var hi: nat
    var r: Regs
    const buffer: array<Byte>

    ghost predicate Valid() { buffer.Length == BLOCK }

    // n blocks of m are hashed, and the buffer holds its next k bytes.
    ghost predicate Buffered(m: seq<Byte>, n: nat, k: nat)
      reads this`r, buffer
    {
      && Valid() && k <= BLOCK && BLOCK * n + k <= |m|
      && r == Fold(Initial(), m, n)
      && buffer[..k] == m[BLOCK * n..BLOCK * n + k]
    }

    /** The context after the bytes of msg. */
    ghost predicate Seen(msg: seq<Byte>)
      reads this, buffer
    {
      BlocksAndRest(|msg|);
      Counts(lo, hi, |msg|) && Buffered(msg, Blocks(|msg|), Rest(|msg|))
    }

    constructor ()
      ensures Valid() && fresh(buffer)
    {
      buffer := new Byte[BLOCK];
    }

    method Begin()
      requires Valid()
      modifies this
      ensures Seen([])
    {
      hide Compress;
      r := Regs(0x67452301, 0xefcdab89, 0x98badcfe, 0x10325476);
      lo, hi := 0, 0;
    }

    // memcpy(&ctx->buffer[k], src, |src|)
    method CopyIn(k: nat, src: seq<Byte>, ghost m: seq<Byte>, ghost n: nat)
      requires Buffered(m, n, k) && k + |src| <= BLOCK
      requires BLOCK * n + k + |src| <= |m| && src == m[BLOCK * n + k..BLOCK * n + k + |src|]
      modifies buffer
      ensures Buffered(m, n, k + |src|)
    {
      hide Fold;
      forall j | 0 <= j < |src| { buffer[k + j] := src[j]; }
      assert buffer[..k + |src|] == old(buffer[..k]) + src;
    }

    // MD5_body(ctx, data, size), where j blocks of data follow the first n of m.
    method Absorb(data: seq<Byte>, ghost m: seq<Byte>, ghost n: nat, ghost j: nat)
      requires Valid() && j > 0 && |data| == BLOCK * j && BLOCK * (n + j) <= |m|
      requires data == m[BLOCK * n..BLOCK * (n + j)] && r == Fold(Initial(), m, n)
      modifies this`r
      ensures Buffered(m, n + j, 0)
    {
      hide Fold;
      r := Body(r, data, j);
      assert data[..BLOCK * j] == data;
      FoldMore(Initial(), m, n, data, j);
    }

    lemma FullBuffer(m: seq<Byte>, n: nat)
      requires Buffered(m, n, BLOCK)
      ensures BLOCK * (n + 1) <= |m| && buffer[..] == m[BLOCK * n..BLOCK * (n + 1)]
      ensures r == Fold(Initial(), m, n)
    {
      assert buffer[..] == buffer[..BLOCK];
    }

    lemma BufferedState(m: seq<Byte>, n: nat, k: nat)
      requires Buffered(m, n, k)
      ensures Valid() && BLOCK * n <= |m| && r == Fold(Initial(), m, n)
    {}

    lemma MoreToCome(msg: seq<Byte>, m: seq<Byte>, n: nat, k: nat)
      requires Buffered(msg, n, k) && |msg| <= |m| && msg == m[..|msg|]
      ensures Buffered(m, n, k)
    {
      hide Fold;
      assert msg[..BLOCK * n] == m[..|msg|][..BLOCK * n] == m[..BLOCK * n];
      FoldOfPrefix(Initial(), msg, m, n);
    }

    /** Appends data to the bytes seen, whatever they were. */
    method Hash(data: seq<Byte>, ghost msg: seq<Byte>)
      requires Seen(msg)
      modifies this, buffer
      ensures Seen(msg + data)
    {
      hide Buffered, Fold, Counts, NextLo, NextHi, Blocks, Rest;
      CountingIsExact(lo, hi, |msg|, |data|);
      BlocksAndRest(|msg|);
      ghost var n, m := Blocks(|msg|), msg + data;
      var savedLo := lo;
      lo := NextLo(savedLo, |data|);
      hi := NextHi(savedLo, hi, |data|);
      var used := savedLo % BLOCK;
      MoreToCome(msg, m, n, used);
      n := HashBlocks(data, used, m, n);
      TheyAreUnique(|m|, n, |m| - BLOCK * n);
    }

    // The rest of MD5_hash: `used` bytes are in the buffer, data is to follow.
    method HashBlocks(data: seq<Byte>, used: nat, ghost m: seq<Byte>, ghost n0: nat) returns (ghost n: nat)
      requires used < BLOCK && Buffered(m, n0, used)
      requires |m| == BLOCK * n0 + used + |data| && m[BLOCK * n0 + used..] == data
      modifies this`r, buffer
      ensures BLOCK * n <= |m| < BLOCK * (n + 1) && Buffered(m, n, |m| - BLOCK * n)
    {
      hide Fold, Buffered;
      n := n0;
      var p := 0;
      if used != 0 {
        var available := BLOCK - used;
        if |data| < available {
          CopyIn(used, data, m, n);
          return;
        }
        CopyIn(used, data[..available], m, n);
        p := available;
        FullBuffer(m, n);
        Absorb(buffer[..], m, n, 1);
        n := n + 1;
      }
      n := HashRest(data[p..], m, n);
    }

    // The buffer is empty: complete blocks need not go through it.
    method HashRest(data: seq<Byte>, ghost m: seq<Byte>, ghost n0: nat) returns (ghost n: nat)
      requires Buffered(m, n0, 0) && |m| == BLOCK * n0 + |data| && m[BLOCK * n0..] == data
      modifies this`r, buffer
      ensures BLOCK * n <= |m| < BLOCK * (n + 1) && Buffered(m, n, |m| - BLOCK * n)
    {
      hide Fold, Buffered, Blocks;
      n := n0;
      var p := 0;
      if |data| >= BLOCK {
        BlocksAndRest(|data|);
        BufferedState(m, n, 0);
        p := BLOCK * Blocks(|data|);
        Absorb(data[..p], m, n, Blocks(|data|));
        n := n + Blocks(|data|);
      }
      CopyIn(0, data[p..], m, n);
    }

    // memset(&ctx->buffer[k], 0, len)
    method Clear(k: nat, len: nat, ghost m: seq<Byte>, ghost n: nat)
      requires Buffered(m, n, k) && k + len <= BLOCK
      requires BLOCK * n + k + len <= |m| && m[BLOCK * n + k..BLOCK * n + k + len] == Zeros(len)
      modifies buffer
      ensures Buffered(m, n, k + len)
    {
      hide Buffered;
      CopyIn(k, Zeros(len), m, n);
    }

    /** MD5_end: the digest of all bytes seen; the context is cleared. */
    method End(result: array<Byte>, ghost msg: seq<Byte>)
      requires Seen(msg) && result.Length == 16 && result != buffer
      modifies this, buffer, result
      ensures result[..] == Digest(msg)
      ensures lo == 0 && hi == 0 && r == Regs(0, 0, 0, 0) && forall j :: 0 <= j < BLOCK ==> buffer[j] == 0
    {
      hide Fold, Padded, Counts;
      Finish(msg);
      Store(result);
      assert result[..] == Digest(msg);
      lo, hi, r := 0, 0, Regs(0, 0, 0, 0);
      forall j | 0 <= j < BLOCK { buffer[j] := 0; }
    }

    method Store(result: array<Byte>)
      requires result.Length == 16
      modifies result
      ensures result[..] == Output(r)
    {
      hide LowFirst;
      var d := LowFirst(r.a) + LowFirst(r.b) + LowFirst(r.c) + LowFirst(r.d);
      forall j | 0 <= j < 16 { result[j] := d[j]; }
    }

    // MD5_end up to the last block.
    method Finish(ghost msg: seq<Byte>)
      requires Seen(msg)
      modifies this, buffer
      ensures r == Fold(Initial(), Padded(msg), Blocks(|Padded(msg)|))
    {
      hide Buffered, Fold, Padded, Padding, Counts, Blocks, Rest, Le32Enc, Le64Enc, Zeros;
      CountingIsExact(lo, hi, |msg|, 0);
      BlocksAndRest(|msg|);
      LengthBytes(lo, hi, |msg|);
      var used := lo % BLOCK;
      ghost var m, n := Padded(msg), Blocks(|msg|);
      PaddedParts(msg, n, used);
      hide *;
      CopyIn(used, [0x80], m, n);
      used := used + 1;
      var available := BLOCK - used;
      if available < 8 {
        Clear(used, available, m, n);
        FullBuffer(m, n);
        Absorb(buffer[..], m, n, 1);
        n, used, available := n + 1, 0, BLOCK;
      }
      Clear(used, available - 8, m, n);
      PutLength(m, n);
    }

    // The eight bytes of the length end the last block.
    method PutLength(ghost m: seq<Byte>, ghost n: nat)
      requires 8 * lo < TWO32 && hi < TWO32 && |m| == BLOCK * (n + 1) && Buffered(m, n, 56)
      requires m[BLOCK * n + 56..BLOCK * n + 60] == Le32Enc(8 * lo) && m[BLOCK * n + 60..] == Le32Enc(hi)
      modifies this, buffer
      ensures r == Fold(Initial(), m, n + 1)
    {
      hide Buffered, Fold, Le32Enc;
      lo := 8 * lo % TWO32;
      CopyIn(56, Le32Enc(lo), m, n);
      CopyIn(60, Le32Enc(hi), m, n);
      FullBuffer(m, n);
      Absorb(buffer[..], m, n, 1);
      BufferedState(m, n + 1, 0);
    }

    // The parts of the padded message that MD5_end writes.
    lemma PaddedParts(msg: seq<Byte>, n: nat, k: nat)
      requires Buffered(msg, n, k) && Counts(lo, hi, |msg|) && |msg| == BLOCK * n + k && k < BLOCK
      ensures Buffered(Padded(msg), n, k) && 8 * lo < TWO32 && hi < TWO32
      ensures var m, b, e := Padded(msg), BLOCK * n, if k < 56 then BLOCK else BLOCK + BLOCK;
        && |m| == b + e && Blocks(|m|) == n + (if k < 56 then 1 else 2)
        && m[b + k..b + k + 1] == [0x80]
        && (if k < 56 then m[b + k + 1..b + 56] == Zeros(55 - k)
            else m[b + k + 1..b + 64] == Zeros(63 - k) && m[b + 64..b + 120] == Zeros(56))
        && m[b + e - 8..b + e - 4] == Le32Enc(8 * lo) && m[b + e - 4..] == Le32Enc(hi)
    {
      hide Fold, ZeroCount, Le64Enc, Le32Enc, Counts;
      var m := Padded(msg);
      MoreToCome(msg, m, n, k);
      ZeroCountIs(n, k);
      LengthBytes(lo, hi, |msg|);
    }
  }

  /** md5_hash: however a file is cut into pieces, the digest is that of the
      whole. */
  method HashFile(chunks: seq<seq<Byte>>) returns (val: array<Byte>)
    ensures val.Length == 16 && val[..] == Digest(Join(chunks))
  {
    hide *;
    var ctx := new Context();
    val := new Byte[16];
    ctx.Begin();
    var i := 0;
    assert chunks[..0] == [] && Join([]) == [] by { JoinOfNone(); }
    while i < |chunks|
      invariant i <= |chunks| && ctx.Seen(Join(chunks[..i]))
    {
      ctx.Hash(chunks[i], Join(chunks[..i]));
      JoinNext(chunks, i);
      i := i + 1;
    }
    assert chunks[..i] == chunks;
    ctx.End(val, Join(chunks));
  }

  /** The padded message ends with the number of bits of the message, modulo
      2^64. */
  lemma PaddingHoldsLength(msg: seq<Byte>)
    ensures var p := Padded(msg);
      p[..|msg|] == msg && p[|msg|] == 0x80 && LittleEndian(p[|p| - 8..]) == 8 * |msg| % TWO64
  {
    hide Le64Enc, ZeroCount, LittleEndian;
    Le64Means(8 * |msg| % TWO64);
    var p := Padded(msg);
    assert p[|p| - 8..] == Le64Enc(8 * |msg| % TWO64);
  }
}
