/** The incremental interface of SHA-256: the context of mkhash.c. */
module Sha256Stream {
  import opened HashBytes
  import opened Sha256

  // ---------- FIPS 180-4, sections 5.1.1 and 6.2 ----------

  predicate Hashable(len: nat) { 8 * len < TWO64 }

  // The bit 1, the zeros and the length that follow a message.
  function Padding(len: nat): (p: seq<Byte>)
    requires Hashable(len)
    ensures |p| == 1 + ZeroCount(len) + 8
  {
    [0x80] + Zeros(ZeroCount(len)) + Be64Enc(8 * len)
  }

  function Padded(msg: seq<Byte>): (p: seq<Byte>)
    requires Hashable(|msg|)
    ensures |p| % BLOCK == 0
  {
    msg + Padding(|msg|)
  }

  function WordBytes(s: seq<Word>): (p: seq<Byte>)
    ensures |p| == 4 * |s|
  {
    if s == [] then [] else WordBytes(s[..|s| - 1]) + Be32Enc(s[|s| - 1] as int)
  }

  function Digest(msg: seq<Byte>): (d: seq<Byte>)
    requires Hashable(|msg|)
    ensures |d| == 32
  {
    WordBytes(Fold(Padded(msg), Blocks(|Padded(msg)|)))
  }

  lemma {:induction false} FoldOfPrefix(m: seq<Byte>, m': seq<Byte>, n: nat)
    requires BLOCK * n <= |m| && BLOCK * n <= |m'| && m[..BLOCK * n] == m'[..BLOCK * n]
    ensures Fold(m, n) == Fold(m', n)
  {
    hide Compress;
    if n > 0 {
      var k := BLOCK * n;
      assert m[..BLOCK * (n - 1)] == m[..k][..BLOCK * (n - 1)];
      assert m'[..BLOCK * (n - 1)] == m'[..k][..BLOCK * (n - 1)];
      FoldOfPrefix(m, m', n - 1);
      assert m[BLOCK * (n - 1)..k] == m[..k][BLOCK * (n - 1)..];
      assert m'[BLOCK * (n - 1)..k] == m'[..k][BLOCK * (n - 1)..];
    }
  }

  // The 64-bit counter of bits.
  function CountOf(len: nat): nat { 8 * len % TWO64 }

  // ctx->count + (len << 3)
  function PlusBits(count: nat, len: nat): nat { (count + 8 * len % TWO64) % TWO64 }

  // (ctx->count >> 3) & 0x3f
  function InBuffer(count: nat): nat { count / 8 % BLOCK }

  lemma CountingIsExact(n: nat, k: nat)
    ensures InBuffer(CountOf(n)) == Rest(n) && PlusBits(CountOf(n), k) == CountOf(n + k)
  {
    var q := 8 * n / TWO64;
    var d := n - q * 0x2000_0000_0000_0000;
    assert 8 * n % TWO64 == 8 * d;
    SameRest(n, d, q * 0x80_0000_0000_0000);
    SumOfRemainders(8 * n, 8 * k);
  }

  lemma SameRest(n: nat, d: nat, k: nat)
    requires n == d + BLOCK * k
    ensures d % BLOCK == n % BLOCK
  {}

  lemma SumOfRemainders(x: nat, y: nat)
    ensures (x % TWO64 + y % TWO64) % TWO64 == (x + y) % TWO64
  {}

  lemma CountFits(len: nat)
    requires Hashable(len)
    ensures CountOf(len) == 8 * len
  {}

  class Context {
    const state: array<Word>
    var count: nat
    const buf: array<Byte>

    ghost predicate Valid() { state.Length == 8 && buf.Length == BLOCK }

    // n blocks of m are hashed, and the buffer holds its next r bytes.
    ghost predicate Buffered(m: seq<Byte>, n: nat, r: nat)
      reads state, buf
    {
      && Valid() && r <= BLOCK && BLOCK * n + r <= |m|
      && state[..] == Fold(m, n)
      && buf[..r] == m[BLOCK * n..BLOCK * n + r]
    }

    /** The context after the bytes of msg. */
    ghost predicate Seen(msg: seq<Byte>)
      reads this, state, buf
    {
      BlocksAndRest(|msg|);
      count == CountOf(|msg|) && Buffered(msg, Blocks(|msg|), Rest(|msg|))
    }

    constructor ()
      ensures Valid() && fresh(state) && fresh(buf)
    {
      state, buf := new Word[8], new Byte[BLOCK];
    }

    method Init()
      requires Valid()
      modifies this, state
      ensures Seen([])
    {
      hide Add, Schedule, Parse, Compress;
      count := 0;
      state[0], state[1], state[2], state[3] := 0x6A09E667, 0xBB67AE85, 0x3C6EF372, 0xA54FF53A;
      state[4], state[5], state[6], state[7] := 0x510E527F, 0x9B05688C, 0x1F83D9AB, 0x5BE0CD19;
      assert state[..] == Fold([], 0);
    }

    // memcpy(&ctx->buf[r], src, |src|)
    method CopyIn(r: nat, src: seq<Byte>, ghost m: seq<Byte>, ghost n: nat)
      requires Buffered(m, n, r) && r + |src| <= BLOCK
      requires BLOCK * n + r + |src| <= |m| && src == m[BLOCK * n + r..BLOCK * n + r + |src|]
      modifies buf
      ensures Buffered(m, n, r + |src|)
    {
      hide Fold;
      forall j | 0 <= j < |src| { buf[r + j] := src[j]; }
      assert buf[..r + |src|] == old(buf[..r]) + src;
    }

    // SHA256_Transform(ctx->state, block)
    method Absorb(block: seq<Byte>, ghost m: seq<Byte>, ghost n: nat)
      requires Valid() && |block| == BLOCK && BLOCK * (n + 1) <= |m| && block == m[BLOCK * n..BLOCK * (n + 1)]
      requires state[..] == Fold(m, n)
      modifies state
      ensures Buffered(m, n + 1, 0)
    {
      hide Compress;
      Transform(state, block);
    }

    /** Appends src to the bytes seen, whatever they were. */
    method Update(src: seq<Byte>, ghost msg: seq<Byte>)
      requires Seen(msg)
      modifies this, state, buf
      ensures Seen(msg + src)
    {
      hide Buffered, Fold, CountOf, PlusBits, InBuffer, Blocks, Rest;
      CountingIsExact(|msg|, |src|);
      BlocksAndRest(|msg|);
      ghost var n, m := Blocks(|msg|), msg + src;
      var r := InBuffer(count);
      MoreToCome(msg, src, n, r);
      count := PlusBits(count, |src|);
      n := UpdateBlocks(src, r, m, n);
      TheyAreUnique(|m|, n, |m| - BLOCK * n);
    }

    lemma MoreToCome(msg: seq<Byte>, src: seq<Byte>, n: nat, r: nat)
      requires Buffered(msg, n, r)
      ensures Buffered(msg + src, n, r)
    {
      hide Fold;
      FoldOfPrefix(msg, msg + src, n);
    }

    lemma FullBuffer(m: seq<Byte>, n: nat)
      requires Buffered(m, n, BLOCK)
      ensures BLOCK * (n + 1) <= |m| && buf[..] == m[BLOCK * n..BLOCK * (n + 1)]
      ensures state[..] == Fold(m, n)
    {
      assert buf[..] == buf[..BLOCK];
    }

    lemma BufferedState(m: seq<Byte>, n: nat, r: nat)
      requires Buffered(m, n, r)
      ensures Valid() && BLOCK * n <= |m| && state[..] == Fold(m, n)
    {}

    // The rest of SHA256_Update: r bytes are in the buffer, src is to follow.
    method UpdateBlocks(src: seq<Byte>, r: nat, ghost m: seq<Byte>, ghost n0: nat) returns (ghost n: nat)
      requires r < BLOCK && Buffered(m, n0, r) && |m| == BLOCK * n0 + r + |src| && m[BLOCK * n0 + r..] == src
      modifies state, buf
      ensures BLOCK * n <= |m| < BLOCK * (n + 1) && Buffered(m, n, |m| - BLOCK * n)
    {
      hide Fold, Buffered;
      n := n0;
      if |src| < BLOCK - r {
        CopyIn(r, src, m, n);
        return;
      }
      var p := BLOCK - r;
      CopyIn(r, src[..p], m, n);
      FullBuffer(m, n);
      Absorb(buf[..], m, n);
      n := n + 1;
      while |src| - p >= BLOCK
        invariant p <= |src| && BLOCK * n0 + r + p == BLOCK * n && Buffered(m, n, 0)
        decreases |src| - p
      {
        BufferedState(m, n, 0);
        Absorb(src[p..p + BLOCK], m, n);
        p, n := p + BLOCK, n + 1;
      }
      CopyIn(0, src[p..], m, n);
    }

    // memcpy(&ctx->buf[r], PAD, k)
    method CopyPad(r: nat, k: nat, ghost m: seq<Byte>, ghost n: nat)
      requires Buffered(m, n, r) && r + k <= BLOCK && 0 < k
      requires BLOCK * n + r + k <= |m| && m[BLOCK * n + r..BLOCK * n + r + k] == [0x80] + Zeros(k - 1)
      modifies buf
      ensures Buffered(m, n, r + k)
    {
      hide Buffered;
      CopyIn(r, [0x80] + Zeros(k - 1), m, n);
    }

    /** SHA256_Pad hashes the padded message. */
    method Pad(ghost msg: seq<Byte>)
      requires Seen(msg) && Hashable(|msg|)
      modifies state, buf
      ensures state[..] == Fold(Padded(msg), Blocks(|Padded(msg)|))
    {
      hide Buffered, Fold, Padded, Padding, CountOf, PlusBits, InBuffer, Blocks, Rest, Be64Enc, Zeros;
      CountingIsExact(|msg|, 0);
      BlocksAndRest(|msg|);
      var r := InBuffer(count);
      ghost var m, n := Padded(msg), Blocks(|msg|);
      PaddedParts(msg, n, r);
      if r < 56 {
        CopyPad(r, 56 - r, m, n);
      } else {
        CopyPad(r, 64 - r, m, n);
        FullBuffer(m, n);
        Absorb(buf[..], m, n);
        n := n + 1;
        CopyIn(0, Zeros(56), m, n);
      }
      CountFits(|msg|);
      CopyIn(56, Be64Enc(count), m, n);
      FullBuffer(m, n);
      Absorb(buf[..], m, n);
      BufferedState(m, n + 1, 0);
    }

    // The parts of the padded message that SHA256_Pad writes.
    lemma PaddedParts(msg: seq<Byte>, n: nat, r: nat)
      requires Buffered(msg, n, r) && Hashable(|msg|) && |msg| == BLOCK * n + r && r < BLOCK
      ensures Buffered(Padded(msg), n, r)
      ensures var m, k := Padded(msg), BLOCK * n;
        if r < 56 then
          && |m| == k + BLOCK && Blocks(|m|) == n + 1
          && m[k + r..k + 56] == [0x80] + Zeros(55 - r) && m[k + 56..] == Be64Enc(8 * |msg|)
        else
          && |m| == k + BLOCK + BLOCK && Blocks(|m|) == n + 2
          && m[k + r..k + 64] == [0x80] + Zeros(63 - r) && m[k + 64..k + 120] == Zeros(56)
          && m[k + 120..] == Be64Enc(8 * |msg|)
    {
      hide Fold, ZeroCount, Be64Enc;
      var m := Padded(msg);
      FoldOfPrefix(msg, m, n);
      ZeroCountIs(n, r);
    }

    /** SHA256_Final: the digest of all bytes seen; the context is cleared. */
    method Final(digest: array<Byte>, ghost msg: seq<Byte>)
      requires Seen(msg) && Hashable(|msg|) && digest.Length == 32 && digest != buf
      modifies this, state, buf, digest
      ensures digest[..] == Digest(msg)
      ensures count == 0 && (forall j :: 0 <= j < 8 ==> state[j] == 0) && forall j :: 0 <= j < BLOCK ==> buf[j] == 0
    {
      hide Fold, Padded, CountOf;
      Pad(msg);
      Be32EncVect(digest, state);
      assert digest[..] == Digest(msg);
      count := 0;
      forall j | 0 <= j < 8 { state[j] := 0; }
      forall j | 0 <= j < BLOCK { buf[j] := 0; }
    }
  }

  lemma NoWords(s: seq<Word>)
    requires s == []
    ensures WordBytes(s) == []
  {}

  lemma OneMoreWord(s: seq<Word>, i: nat)
    requires i < |s|
    ensures WordBytes(s[..i + 1]) == WordBytes(s[..i]) + Be32Enc(s[i] as int)
  {
    assert s[..i + 1][..i] == s[..i];
  }

  // be32enc into dst[k..]
  method StoreFour(dst: array<Byte>, k: nat, p: seq<Byte>)
    requires |p| == 4 && k + 4 <= dst.Length
    modifies dst
    ensures dst[..k + 4] == old(dst[..k]) + p
  {
    dst[k], dst[k + 1], dst[k + 2], dst[k + 3] := p[0], p[1], p[2], p[3];
  }

  method Be32EncVect(dst: array<Byte>, src: array<Word>)
    requires dst.Length == 4 * src.Length
    modifies dst
    ensures dst[..] == WordBytes(src[..])
  {
    hide Be32Enc, WordBytes;
    NoWords(src[..0]);
    for i := 0 to src.Length
      invariant dst[..4 * i] == WordBytes(src[..i])
    {
      StoreFour(dst, 4 * i, Be32Enc(src[i] as int));
      OneMoreWord(src[..], i);
      assert src[..][..i + 1] == src[..i + 1] && src[..][..i] == src[..i];
    }
    assert src[..src.Length] == src[..] && dst[..4 * src.Length] == dst[..];
  }

  /** sha256_hash: however a file is cut into pieces, the digest is that of the
      whole. */
  method HashFile(chunks: seq<seq<Byte>>) returns (digest: array<Byte>)
    requires Hashable(|Join(chunks)|)
    ensures digest.Length == 32 && digest[..] == Digest(Join(chunks))
  {
    hide *;
    var ctx := new Context();
    digest := new Byte[32];
    ctx.Init();
    var i := 0;
    assert chunks[..0] == [] && Join([]) == [] by { JoinOfNone(); }
    while i < |chunks|
      invariant i <= |chunks| && ctx.Seen(Join(chunks[..i]))
    {
      ctx.Update(chunks[i], Join(chunks[..i]));
      JoinNext(chunks, i);
      i := i + 1;
    }
    assert chunks[..i] == chunks;
    ctx.Final(digest, Join(chunks));
  }

  /** The padded message ends with the number of bits of the message. */
  lemma PaddingHoldsLength(msg: seq<Byte>)
    requires Hashable(|msg|)
    ensures var p := Padded(msg);
      p[..|msg|] == msg && p[|msg|] == 0x80 && BigEndian(p[|p| - 8..]) == 8 * |msg|
  {
    hide Be64Enc, ZeroCount, BigEndian;
    Be64Means(8 * |msg|);
    var p := Padded(msg);
    assert p[|p| - 8..] == Be64Enc(8 * |msg|);
  }
}
