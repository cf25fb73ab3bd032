/** SHA-256 as FIPS 180-4 defines it, and the block transformation of mkhash.c. */
module Sha256 {
  import opened HashBytes

  // ---------- FIPS 180-4, sections 4 to 6 ----------

  function Rotr(x: Word, n: Word): Word
    requires 0 < n < 32
  {
    (x >> n) | (x << (32 - n))
  }

  function Xor(x: Word, y: Word): Word { x ^ y }

  // Addition modulo 2^32.
  function Add(x: Word, y: Word): Word { x + y }

  function Add4(w: Word, x: Word, y: Word, z: Word): Word { w + x + y + z }

  function Add5(v: Word, w: Word, x: Word, y: Word, z: Word): Word { v + w + x + y + z }

  function Ch(x: Word, y: Word, z: Word): Word { (x & y) ^ (!x & z) }

  function Maj(x: Word, y: Word, z: Word): Word { (x & y) ^ (x & z) ^ (y & z) }

  function BigSigma0(x: Word): Word { Xor(Xor(Rotr(x, 2), Rotr(x, 13)), Rotr(x, 22)) }

  function BigSigma1(x: Word): Word { Xor(Xor(Rotr(x, 6), Rotr(x, 11)), Rotr(x, 25)) }

  function SmallSigma0(x: Word): Word { Xor(Xor(Rotr(x, 7), Rotr(x, 18)), x >> 3) }

  function SmallSigma1(x: Word): Word { Xor(Xor(Rotr(x, 17), Rotr(x, 19)), x >> 10) }

  // The constants, eight to a line.
  function KLine(q: nat): (k: seq<Word>)
    requires q < 8
    ensures |k| == 8
  {
    match q
    case 0 => [0x428a2f98, 0x71374491, 0xb5c0fbcf, 0xe9b5dba5,
               0x3956c25b, 0x59f111f1, 0x923f82a4, 0xab1c5ed5]
    case 1 => [0xd807aa98, 0x12835b01, 0x243185be, 0x550c7dc3,
               0x72be5d74, 0x80deb1fe, 0x9bdc06a7, 0xc19bf174]
    case 2 => [0xe49b69c1, 0xefbe4786, 0x0fc19dc6, 0x240ca1cc,
               0x2de92c6f, 0x4a7484aa, 0x5cb0a9dc, 0x76f988da]
    case 3 => [0x983e5152, 0xa831c66d, 0xb00327c8, 0xbf597fc7,
               0xc6e00bf3, 0xd5a79147, 0x06ca6351, 0x14292967]
    case 4 => [0x27b70a85, 0x2e1b2138, 0x4d2c6dfc, 0x53380d13,
               0x650a7354, 0x766a0abb, 0x81c2c92e, 0x92722c85]
    case 5 => [0xa2bfe8a1, 0xa81a664b, 0xc24b8b70, 0xc76c51a3,
               0xd192e819, 0xd6990624, 0xf40e3585, 0x106aa070]
    case 6 => [0x19a4c116, 0x1e376c08, 0x2748774c, 0x34b0bcb5,
               0x391c0cb3, 0x4ed8aa4a, 0x5b9cca4f, 0x682e6ff3]
    case _ => [0x748f82ee, 0x78a5636f, 0x84c87814, 0x8cc70208,
               0x90befffa, 0xa4506ceb, 0xbef9a3f7, 0xc67178f2]
  }

  function K(): (k: seq<Word>)
    ensures |k| == 64
  {
    seq(64, t requires 0 <= t < 64 => KLine(t / 8)[t % 8])
  }

  /** The message block: sixteen big-endian words. */
  function Parse(block: seq<Byte>): (m: seq<Word>)
    requires |block| == BLOCK
    ensures |m| == 16
  {
    seq(16, t requires 0 <= t < 16 => WordAt(block, t))
  }

  function WordAt(block: seq<Byte>, t: nat): Word
    requires |block| == BLOCK && t < 16
  {
    var p := block[4 * t..4 * t + 4];
    FourBytes(p);
    BigEndian(p) as Word
  }

  /** The message schedule. */
  function Schedule(m: seq<Word>, t: nat): Word
    requires |m| == 16
  {
    if t < 16 then m[t]
    else
      Add4(SmallSigma1(Schedule(m, t - 2)), Schedule(m, t - 7),
           SmallSigma0(Schedule(m, t - 15)), Schedule(m, t - 16))
  }

  // The working variables.
  datatype Regs = Regs(a: Word, b: Word, c: Word, d: Word, e: Word, f: Word, g: Word, h: Word)

  function Step(r: Regs, k: Word, w: Word): Regs {
    var t1 := Add5(r.h, BigSigma1(r.e), Ch(r.e, r.f, r.g), k, w);
    var t2 := Add(BigSigma0(r.a), Maj(r.a, r.b, r.c));
    Regs(Add(t1, t2), r.a, r.b, r.c, Add(r.d, t1), r.e, r.f, r.g)
  }

  // The working variables after t steps.
  function Rounds(r: Regs, m: seq<Word>, t: nat): Regs
    requires |m| == 16 && t <= 64
  {
    if t == 0 then r else Step(Rounds(r, m, t - 1), K()[t - 1], Schedule(m, t - 1))
  }

  function RegsOf(s: seq<Word>): Regs
    requires |s| == 8
  {
    Regs(s[0], s[1], s[2], s[3], s[4], s[5], s[6], s[7])
  }

  function Compress(s: seq<Word>, block: seq<Byte>): (r: seq<Word>)
    requires |s| == 8 && |block| == BLOCK
    ensures |r| == 8
  {
    var v := Rounds(RegsOf(s), Parse(block), 64);
    [Add(s[0], v.a), Add(s[1], v.b), Add(s[2], v.c), Add(s[3], v.d),
     Add(s[4], v.e), Add(s[5], v.f), Add(s[6], v.g), Add(s[7], v.h)]
  }

  function H0(): (s: seq<Word>)
    ensures |s| == 8
  {
    [0x6A09E667, 0xBB67AE85, 0x3C6EF372, 0xA54FF53A, 0x510E527F, 0x9B05688C, 0x1F83D9AB, 0x5BE0CD19]
  }

  /** The hash value after the first n blocks of m. */
  function Fold(m: seq<Byte>, n: nat): (s: seq<Word>)
    requires BLOCK * n <= |m|
    ensures |s| == 8
  {
    if n == 0 then H0() else Compress(Fold(m, n - 1), m[BLOCK * (n - 1)..BLOCK * n])
  }

  // ---------- SHA256_Transform ----------

  function ChFast(x: Word, y: Word, z: Word): Word { (x & (y ^ z)) ^ z }

  function MajFast(x: Word, y: Word, z: Word): Word { (x & (y | z)) | (y & z) }

  lemma ChIdentity(x: Word, y: Word, z: Word)
    ensures (x & (y ^ z)) ^ z == (x & y) ^ (!x & z)
  {}

  lemma MajIdentity(x: Word, y: Word, z: Word)
    ensures (x & (y | z)) | (y & z) == (x & y) ^ (x & z) ^ (y & z)
  {}

  lemma FastFormsAreExact(x: Word, y: Word, z: Word)
    ensures ChFast(x, y, z) == Ch(x, y, z) && MajFast(x, y, z) == Maj(x, y, z)
  {
    ChIdentity(x, y, z);
    MajIdentity(x, y, z);
  }

  // The place of the k-th working variable after t steps.
  function Slot(t: nat, k: nat): nat
    requires t <= 64 && k < 8
  {
    var r := t % 8;
    if k >= r then k - r else 8 + k - r
  }

  /** The registers are not shifted; their places rotate instead. */
  ghost predicate Holds(s: seq<Word>, r: Regs, t: nat) {
    && |s| == 8 && t <= 64
    && r == Regs(s[Slot(t, 0)], s[Slot(t, 1)], s[Slot(t, 2)], s[Slot(t, 3)],
                 s[Slot(t, 4)], s[Slot(t, 5)], s[Slot(t, 6)], s[Slot(t, 7)])
  }

  // h += S1(e) + Ch(e, f, g) + k, where k stands for W[t] + K[t].
  function Plus4(h: Word, x: Word, y: Word, w: Word, k: Word): Word { h + (x + y + w + k) }

  // RND, the registers given by their places.
  method Rnd(S: array<Word>, a: nat, b: nat, c: nat, d: nat, e: nat, f: nat, g: nat, h: nat, w: Word, k: Word)
    requires S.Length == 8 && a < 8 && b < 8 && c < 8 && d < 8 && e < 8 && f < 8 && g < 8 && h < 8
    requires d != h && a != d && a != h && b != d && b != h && c != d && c != h
    modifies S
    ensures var t1 := Plus4(old(S[h]), BigSigma1(old(S[e])), ChFast(old(S[e]), old(S[f]), old(S[g])), w, k);
      && S[d] == Add(old(S[d]), t1)
      && S[h] == Add(t1, Add(BigSigma0(old(S[a])), MajFast(old(S[a]), old(S[b]), old(S[c]))))
    ensures forall j :: 0 <= j < 8 && j != d && j != h ==> S[j] == old(S[j])
  {
    hide *;
    S[h] := Plus4(S[h], BigSigma1(S[e]), ChFast(S[e], S[f], S[g]), w, k);
    S[d] := Add(S[d], S[h]);
    S[h] := Add(S[h], Add(BigSigma0(S[a]), MajFast(S[a], S[b], S[c])));
  }

  /** The shortened forms and another order of the additions give the step of
      the standard. */
  lemma RndIsStep(r: Regs, k: Word, w: Word)
    ensures var t1 := Plus4(r.h, BigSigma1(r.e), ChFast(r.e, r.f, r.g), w, k);
      Step(r, k, w) == Regs(Add(t1, Add(BigSigma0(r.a), MajFast(r.a, r.b, r.c))), r.a, r.b, r.c,
                            Add(r.d, t1), r.e, r.f, r.g)
  {
    hide Add, Add5, Plus4, BigSigma0, BigSigma1, Ch, Maj, ChFast, MajFast;
    FastFormsAreExact(r.e, r.f, r.g);
    FastFormsAreExact(r.a, r.b, r.c);
    OrderDoesNotMatter(r.h, BigSigma1(r.e), Ch(r.e, r.f, r.g), w, k);
  }

  lemma OrderDoesNotMatter(h: Word, x: Word, y: Word, w: Word, k: Word)
    ensures Plus4(h, x, y, w, k) == Add5(h, x, y, k, w)
  {}

  lemma SlotOf(i: nat, ii: nat, k: nat)
    requires i < 16 && ii % 16 == 0 && i + ii < 64 && k < 8
    ensures (64 + k - i) % 8 == Slot(i + ii, k)
  {
    assert (i + ii) % 8 == i % 8;
    assert i == i / 8 * 8 + i % 8;
  }

  lemma SlotsOf(i: nat, ii: nat)
    requires i < 16 && ii % 16 == 0 && i + ii < 64
    ensures (64 - i) % 8 == Slot(i + ii, 0) && (65 - i) % 8 == Slot(i + ii, 1)
    ensures (66 - i) % 8 == Slot(i + ii, 2) && (67 - i) % 8 == Slot(i + ii, 3)
    ensures (68 - i) % 8 == Slot(i + ii, 4) && (69 - i) % 8 == Slot(i + ii, 5)
    ensures (70 - i) % 8 == Slot(i + ii, 6) && (71 - i) % 8 == Slot(i + ii, 7)
  {
    hide Slot;
    SlotOf(i, ii, 0);
    SlotOf(i, ii, 1);
    SlotOf(i, ii, 2);
    SlotOf(i, ii, 3);
    SlotOf(i, ii, 4);
    SlotOf(i, ii, 5);
    SlotOf(i, ii, 6);
    SlotOf(i, ii, 7);
  }

  lemma SlotsRotate(t: nat)
    requires t < 64
    ensures Slot(t + 1, 0) == Slot(t, 7) && Slot(t + 1, 1) == Slot(t, 0) && Slot(t + 1, 2) == Slot(t, 1)
    ensures Slot(t + 1, 3) == Slot(t, 2) && Slot(t + 1, 4) == Slot(t, 3) && Slot(t + 1, 5) == Slot(t, 4)
    ensures Slot(t + 1, 6) == Slot(t, 5) && Slot(t + 1, 7) == Slot(t, 6)
  {}

  // The two places that a step writes differ from all others.
  lemma SlotsDiffer(t: nat)
    requires t < 64
    ensures var d, h := Slot(t, 3), Slot(t, 7);
      && d != h && {Slot(t, 0), Slot(t, 1), Slot(t, 2), Slot(t, 4), Slot(t, 5), Slot(t, 6)} !! {d, h}
  {}

  /** One step on the rotating places. */
  lemma HoldsNext(s: seq<Word>, s': seq<Word>, v: Regs, v': Regs, t: nat)
    requires Holds(s, v, t) && t < 64 && |s'| == 8
    requires var d, h := Slot(t, 3), Slot(t, 7);
      && (forall j :: 0 <= j < 8 && j != d && j != h ==> s'[j] == s[j])
      && v' == Regs(s'[h], v.a, v.b, v.c, s'[d], v.e, v.f, v.g)
    ensures Holds(s', v', t + 1)
  {
    SlotsDiffer(t);
    SlotsRotate(t);
    hide Slot;
  }

  // RNDr: the places rotate with i.
  method Rndr(S: array<Word>, W: array<Word>, i: nat, ii: nat, ghost r: Regs, ghost m: seq<Word>)
    requires S.Length == 8 && W.Length == 64 && S != W && |m| == 16
    requires i < 16 && ii % 16 == 0 && i + ii < 64
    requires Scheduled(W[..], m, ii + 16) && Holds(S[..], Rounds(r, m, i + ii), i + ii)
    modifies S
    ensures Holds(S[..], Rounds(r, m, i + ii + 1), i + ii + 1)
  {
    hide Add, Add5, Plus4, BigSigma0, BigSigma1, ChFast, MajFast, K, Schedule, Step, Slot;
    ghost var t, v, s := i + ii, Rounds(r, m, i + ii), S[..];
    RndIsStep(v, K()[t], W[t]);
    SlotsOf(i, ii);
    SlotsDiffer(t);
    Rnd(S, (64 - i) % 8, (65 - i) % 8, (66 - i) % 8, (67 - i) % 8,
        (68 - i) % 8, (69 - i) % 8, (70 - i) % 8, (71 - i) % 8, W[i + ii], K()[i + ii]);
    HoldsNext(s, S[..], v, Rounds(r, m, t + 1), t);
  }

  // MSCH: the word i + ii + 16 of the schedule.
  method Msch(W: array<Word>, i: nat, ii: nat, ghost m: seq<Word>)
    requires W.Length == 64 && |m| == 16 && i + ii + 16 < 64
    requires Scheduled(W[..], m, i + ii + 16)
    modifies W
    ensures Scheduled(W[..], m, i + ii + 17)
  {
    hide Add4, SmallSigma0, SmallSigma1;
    W[i + ii + 16] := Add4(SmallSigma1(W[i + ii + 14]), W[i + ii + 9], SmallSigma0(W[i + ii + 1]), W[i + ii]);
  }

  // The first n words are those of the standard's schedule.
  ghost predicate Scheduled(w: seq<Word>, m: seq<Word>, n: nat) {
    |w| == 64 && |m| == 16 && n <= 64 && forall t :: 0 <= t < n ==> w[t] == Schedule(m, t)
  }

  // be32dec_vect
  method Be32DecVect(W: array<Word>, block: seq<Byte>)
    requires W.Length == 64 && |block| == BLOCK
    modifies W
    ensures Scheduled(W[..], Parse(block), 16)
  {
    for i := 0 to 16
      invariant forall t :: 0 <= t < i ==> W[t] == WordAt(block, t)
    {
      FourBytes(block[4 * i..4 * i + 4]);
      W[i] := Be32Dec(block[4 * i..4 * i + 4]) as Word;
    }
  }

  method Rndr16(S: array<Word>, W: array<Word>, i: nat, ghost r: Regs, ghost m: seq<Word>)
    requires S.Length == 8 && W.Length == 64 && S != W && |m| == 16 && i % 16 == 0 && i <= 48
    requires Scheduled(W[..], m, i + 16) && Holds(S[..], Rounds(r, m, i), i)
    modifies S
    ensures Holds(S[..], Rounds(r, m, i + 16), i + 16)
  {
    hide Scheduled, Rounds, Holds;
    Rndr(S, W, 0, i, r, m);
    Rndr(S, W, 1, i, r, m);
    Rndr(S, W, 2, i, r, m);
    Rndr(S, W, 3, i, r, m);
    Rndr(S, W, 4, i, r, m);
    Rndr(S, W, 5, i, r, m);
    Rndr(S, W, 6, i, r, m);
    Rndr(S, W, 7, i, r, m);
    Rndr(S, W, 8, i, r, m);
    Rndr(S, W, 9, i, r, m);
    Rndr(S, W, 10, i, r, m);
    Rndr(S, W, 11, i, r, m);
    Rndr(S, W, 12, i, r, m);
    Rndr(S, W, 13, i, r, m);
    Rndr(S, W, 14, i, r, m);
    Rndr(S, W, 15, i, r, m);
  }

  method Msch16(W: array<Word>, i: nat, ghost m: seq<Word>)
    requires W.Length == 64 && |m| == 16 && i <= 32 && Scheduled(W[..], m, i + 16)
    modifies W
    ensures Scheduled(W[..], m, i + 32)
  {
    hide Scheduled;
    Msch(W, 0, i, m);
    Msch(W, 1, i, m);
    Msch(W, 2, i, m);
    Msch(W, 3, i, m);
    Msch(W, 4, i, m);
    Msch(W, 5, i, m);
    Msch(W, 6, i, m);
    Msch(W, 7, i, m);
    Msch(W, 8, i, m);
    Msch(W, 9, i, m);
    Msch(W, 10, i, m);
    Msch(W, 11, i, m);
    Msch(W, 12, i, m);
    Msch(W, 13, i, m);
    Msch(W, 14, i, m);
    Msch(W, 15, i, m);
  }

  lemma PlacesAtStart(s: seq<Word>, m: seq<Word>)
    requires |s| == 8 && |m| == 16
    ensures Holds(s, Rounds(RegsOf(s), m, 0), 0)
  {}

  lemma PlacesAtEnd(s: seq<Word>, v: Regs)
    requires Holds(s, v, 64)
    ensures v == RegsOf(s)
  {}

  // The loop of SHA256_Transform.
  method Mix(S: array<Word>, W: array<Word>, ghost r: Regs, ghost m: seq<Word>)
    requires S.Length == 8 && W.Length == 64 && S != W && |m| == 16
    requires Scheduled(W[..], m, 16) && Holds(S[..], Rounds(r, m, 0), 0)
    modifies S, W
    ensures Holds(S[..], Rounds(r, m, 64), 64)
  {
    hide *;
    var i := 0;
    while true
      invariant i % 16 == 0 && i <= 48
      invariant Scheduled(W[..], m, i + 16) && Holds(S[..], Rounds(r, m, i), i)
      decreases 64 - i
    {
      Rndr16(S, W, i, r, m);
      if i == 48 {
        break;
      }
      Msch16(W, i, m);
      i := i + 16;
    }
  }

  // The working variables are added to the state.
  method AddInto(state: array<Word>, S: array<Word>)
    requires state.Length == 8 && S.Length == 8 && state != S
    modifies state
    ensures forall k :: 0 <= k < 8 ==> state[k] == Add(old(state[k]), S[k])
  {
    hide *;
    for j := 0 to 8
      invariant forall k :: 0 <= k < 8 ==> state[k] == if k < j then Add(old(state[k]), S[k]) else old(state[k])
    {
      state[j] := Add(state[j], S[j]);
    }
  }

  lemma IsCompressed(s0: seq<Word>, s: seq<Word>, block: seq<Byte>, v: seq<Word>)
    requires |s0| == 8 && |s| == 8 && |v| == 8 && |block| == BLOCK
    requires RegsOf(v) == Rounds(RegsOf(s0), Parse(block), 64)
    requires forall k :: 0 <= k < 8 ==> s[k] == Add(s0[k], v[k])
    ensures s == Compress(s0, block)
  {
    hide Add, Rounds, Parse;
  }

  /** SHA256_Transform computes the hash value after one more block. */
  method Transform(state: array<Word>, block: seq<Byte>)
    requires state.Length == 8 && |block| == BLOCK
    modifies state
    ensures state[..] == Compress(old(state[..]), block)
  {
    hide *;
    var W := new Word[64];
    var S := new Word[8];
    ghost var s0, m := state[..], Parse(block);
    Be32DecVect(W, block);
    ghost var w := W[..];
    forall j | 0 <= j < 8 { S[j] := state[j]; }
    assert S[..] == s0 && W[..] == w;
    PlacesAtStart(s0, m);
    Mix(S, W, RegsOf(s0), m);
    PlacesAtEnd(S[..], Rounds(RegsOf(s0), m, 64));
    AddInto(state, S);
    IsCompressed(s0, state[..], block, S[..]);
  }
}
