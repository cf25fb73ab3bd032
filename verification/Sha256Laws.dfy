/** Where the functions and constants of SHA-256 come from: sections 4.1.2, 4.2.2
    and 5.3.3 of FIPS 180-4. */
module Sha256Laws {
  import opened HashBytes
  import opened Sha256

  // Bit i of x, counted from the lowest and around the end.
  function Bit(x: Word, i: Word): Word { (x >> (i & 31)) & 1 }

  lemma XorBit(x: Word, y: Word, i: Word)
    ensures Bit(Xor(x, y), i) == Xor(Bit(x, i), Bit(y, i))
  {}

  lemma Rotr2Bit(x: Word, i: Word)
    requires i < 32
    ensures Bit(Rotr(x, 2), i) == Bit(x, i + 2)
  {}

  lemma Rotr6Bit(x: Word, i: Word)
    requires i < 32
    ensures Bit(Rotr(x, 6), i) == Bit(x, i + 6)
  {}

  lemma Rotr7Bit(x: Word, i: Word)
    requires i < 32
    ensures Bit(Rotr(x, 7), i) == Bit(x, i + 7)
  {}

  lemma Rotr11Bit(x: Word, i: Word)
    requires i < 32
    ensures Bit(Rotr(x, 11), i) == Bit(x, i + 11)
  {}

  lemma Rotr13Bit(x: Word, i: Word)
    requires i < 32
    ensures Bit(Rotr(x, 13), i) == Bit(x, i + 13)
  {}

  lemma Rotr17Bit(x: Word, i: Word)
    requires i < 32
    ensures Bit(Rotr(x, 17), i) == Bit(x, i + 17)
  {}

  lemma Rotr18Bit(x: Word, i: Word)
    requires i < 32
    ensures Bit(Rotr(x, 18), i) == Bit(x, i + 18)
  {}

  lemma Rotr19Bit(x: Word, i: Word)
    requires i < 32
    ensures Bit(Rotr(x, 19), i) == Bit(x, i + 19)
  {}

  lemma Rotr22Bit(x: Word, i: Word)
    requires i < 32
    ensures Bit(Rotr(x, 22), i) == Bit(x, i + 22)
  {}

  lemma Rotr25Bit(x: Word, i: Word)
    requires i < 32
    ensures Bit(Rotr(x, 25), i) == Bit(x, i + 25)
  {}

  lemma Shift3Bit(x: Word, i: Word)
    requires i < 32
    ensures Bit(x >> 3, i) == if i < 29 then Bit(x, i + 3) else 0
  {}

  lemma Shift10Bit(x: Word, i: Word)
    requires i < 32
    ensures Bit(x >> 10, i) == if i < 22 then Bit(x, i + 10) else 0
  {}

  /** Bit i of the large sigmas is the exclusive or of three bits of x... */
  lemma BigSigma0Bits(x: Word, i: Word)
    requires i < 32
    ensures Bit(BigSigma0(x), i) == Xor(Xor(Bit(x, i + 2), Bit(x, i + 13)), Bit(x, i + 22))
  {
    hide Bit, Xor, Rotr;
    XorBit(Rotr(x, 2), Rotr(x, 13), i);
    XorBit(Xor(Rotr(x, 2), Rotr(x, 13)), Rotr(x, 22), i);
    Rotr2Bit(x, i);
    Rotr13Bit(x, i);
    Rotr22Bit(x, i);
  }

  lemma BigSigma1Bits(x: Word, i: Word)
    requires i < 32
    ensures Bit(BigSigma1(x), i) == Xor(Xor(Bit(x, i + 6), Bit(x, i + 11)), Bit(x, i + 25))
  {
    hide Bit, Xor, Rotr;
    XorBit(Rotr(x, 6), Rotr(x, 11), i);
    XorBit(Xor(Rotr(x, 6), Rotr(x, 11)), Rotr(x, 25), i);
    Rotr6Bit(x, i);
    Rotr11Bit(x, i);
    Rotr25Bit(x, i);
  }

  /** ...and that of the small ones of two such bits and one that is missing at
      the top. */
  lemma SmallSigma0Bits(x: Word, i: Word)
    requires i < 32
    ensures Bit(SmallSigma0(x), i) == Xor(Xor(Bit(x, i + 7), Bit(x, i + 18)), if i < 29 then Bit(x, i + 3) else 0)
  {
    hide Bit, Xor, Rotr;
    XorBit(Rotr(x, 7), Rotr(x, 18), i);
    XorBit(Xor(Rotr(x, 7), Rotr(x, 18)), x >> 3, i);
    Rotr7Bit(x, i);
    Rotr18Bit(x, i);
    Shift3Bit(x, i);
  }

  lemma SmallSigma1Bits(x: Word, i: Word)
    requires i < 32
    ensures Bit(SmallSigma1(x), i) == Xor(Xor(Bit(x, i + 17), Bit(x, i + 19)), if i < 22 then Bit(x, i + 10) else 0)
  {
    hide Bit, Xor, Rotr;
    XorBit(Rotr(x, 17), Rotr(x, 19), i);
    XorBit(Xor(Rotr(x, 17), Rotr(x, 19)), x >> 10, i);
    Rotr17Bit(x, i);
    Rotr19Bit(x, i);
    Shift10Bit(x, i);
  }

  /** Ch takes the bits of y where x has ones and those of z elsewhere... */
  lemma ChBits(x: Word, y: Word, z: Word, i: Word)
    requires i < 32
    ensures Bit(x, i) == 1 ==> Bit(Ch(x, y, z), i) == Bit(y, i)
    ensures Bit(x, i) != 1 ==> Bit(Ch(x, y, z), i) == Bit(z, i)
  {}

  /** ...and Maj the bits that most of the three have. */
  lemma MajBits(x: Word, y: Word, z: Word, i: Word)
    requires i < 32
    ensures Bit(x, i) == Bit(y, i) ==> Bit(Maj(x, y, z), i) == Bit(x, i)
    ensures Bit(x, i) != Bit(y, i) ==> Bit(Maj(x, y, z), i) == Bit(z, i)
  {}

  // The first 64 primes, eight to a line.
  function PrimeLine(q: nat): (p: seq<nat>)
    requires q < 8
    ensures |p| == 8
  {
    match q
    case 0 => [2, 3, 5, 7, 11, 13, 17, 19]
    case 1 => [23, 29, 31, 37, 41, 43, 47, 53]
    case 2 => [59, 61, 67, 71, 73, 79, 83, 89]
    case 3 => [97, 101, 103, 107, 109, 113, 127, 131]
    case 4 => [137, 139, 149, 151, 157, 163, 167, 173]
    case 5 => [179, 181, 191, 193, 197, 199, 211, 223]
    case 6 => [227, 229, 233, 239, 241, 251, 257, 263]
    case _ => [269, 271, 277, 281, 283, 293, 307, 311]
  }

  // k is the first 32 bits after the point of the cube root of p.
  ghost predicate IsCubeRoot(p: nat, k: Word) {
    exists i: nat :: IsRootWith(p, i * TWO32 + k as int)
  }

  predicate IsRootWith(p: nat, n: int) {
    n * n * n <= p * TWO32 * TWO64 < (n + 1) * (n + 1) * (n + 1)
  }

  /** The constants are those bits for the primes. */
  lemma ConstantIsRoot(t: nat)
    requires t < 64
    ensures IsCubeRoot(PrimeLine(t / 8)[t % 8], K()[t])
  {
    match t / 8 {
      case 0 => Line0();
      case 1 => Line1();
      case 2 => Line2();
      case 3 => Line3();
      case 4 => Line4();
      case 5 => Line5();
      case 6 => Line6();
      case _ => Line7();
    }
  }

  lemma Line0()
    ensures forall j :: 0 <= j < 8 ==> IsCubeRoot(PrimeLine(0)[j], KLine(0)[j])
  {
    assert IsRootWith(2, 1 * TWO32 + KLine(0)[0] as int);
    assert IsRootWith(3, 1 * TWO32 + KLine(0)[1] as int);
    assert IsRootWith(5, 1 * TWO32 + KLine(0)[2] as int);
    assert IsRootWith(7, 1 * TWO32 + KLine(0)[3] as int);
    assert IsRootWith(11, 2 * TWO32 + KLine(0)[4] as int);
    assert IsRootWith(13, 2 * TWO32 + KLine(0)[5] as int);
    assert IsRootWith(17, 2 * TWO32 + KLine(0)[6] as int);
    assert IsRootWith(19, 2 * TWO32 + KLine(0)[7] as int);
  }

  lemma Line1()
    ensures forall j :: 0 <= j < 8 ==> IsCubeRoot(PrimeLine(1)[j], KLine(1)[j])
  {
    assert IsRootWith(23, 2 * TWO32 + KLine(1)[0] as int);
    assert IsRootWith(29, 3 * TWO32 + KLine(1)[1] as int);
    assert IsRootWith(31, 3 * TWO32 + KLine(1)[2] as int);
    assert IsRootWith(37, 3 * TWO32 + KLine(1)[3] as int);
    assert IsRootWith(41, 3 * TWO32 + KLine(1)[4] as int);
    assert IsRootWith(43, 3 * TWO32 + KLine(1)[5] as int);
    assert IsRootWith(47, 3 * TWO32 + KLine(1)[6] as int);
    assert IsRootWith(53, 3 * TWO32 + KLine(1)[7] as int);
  }

  lemma Line2()
    ensures forall j :: 0 <= j < 8 ==> IsCubeRoot(PrimeLine(2)[j], KLine(2)[j])
  {
    assert IsRootWith(59, 3 * TWO32 + KLine(2)[0] as int);
    assert IsRootWith(61, 3 * TWO32 + KLine(2)[1] as int);
    assert IsRootWith(67, 4 * TWO32 + KLine(2)[2] as int);
    assert IsRootWith(71, 4 * TWO32 + KLine(2)[3] as int);
    assert IsRootWith(73, 4 * TWO32 + KLine(2)[4] as int);
    assert IsRootWith(79, 4 * TWO32 + KLine(2)[5] as int);
    assert IsRootWith(83, 4 * TWO32 + KLine(2)[6] as int);
    assert IsRootWith(89, 4 * TWO32 + KLine(2)[7] as int);
  }

  lemma Line3()
    ensures forall j :: 0 <= j < 8 ==> IsCubeRoot(PrimeLine(3)[j], KLine(3)[j])
  {
    assert IsRootWith(97, 4 * TWO32 + KLine(3)[0] as int);
    assert IsRootWith(101, 4 * TWO32 + KLine(3)[1] as int);
    assert IsRootWith(103, 4 * TWO32 + KLine(3)[2] as int);
    assert IsRootWith(107, 4 * TWO32 + KLine(3)[3] as int);
    assert IsRootWith(109, 4 * TWO32 + KLine(3)[4] as int);
    assert IsRootWith(113, 4 * TWO32 + KLine(3)[5] as int);
    assert IsRootWith(127, 5 * TWO32 + KLine(3)[6] as int);
    assert IsRootWith(131, 5 * TWO32 + KLine(3)[7] as int);
  }

  lemma Line4()
    ensures forall j :: 0 <= j < 8 ==> IsCubeRoot(PrimeLine(4)[j], KLine(4)[j])
  {
    assert IsRootWith(137, 5 * TWO32 + KLine(4)[0] as int);
    assert IsRootWith(139, 5 * TWO32 + KLine(4)[1] as int);
    assert IsRootWith(149, 5 * TWO32 + KLine(4)[2] as int);
    assert IsRootWith(151, 5 * TWO32 + KLine(4)[3] as int);
    assert IsRootWith(157, 5 * TWO32 + KLine(4)[4] as int);
    assert IsRootWith(163, 5 * TWO32 + KLine(4)[5] as int);
    assert IsRootWith(167, 5 * TWO32 + KLine(4)[6] as int);
    assert IsRootWith(173, 5 * TWO32 + KLine(4)[7] as int);
  }

  lemma Line5()
    ensures forall j :: 0 <= j < 8 ==> IsCubeRoot(PrimeLine(5)[j], KLine(5)[j])
  {
    assert IsRootWith(179, 5 * TWO32 + KLine(5)[0] as int);
    assert IsRootWith(181, 5 * TWO32 + KLine(5)[1] as int);
    assert IsRootWith(191, 5 * TWO32 + KLine(5)[2] as int);
    assert IsRootWith(193, 5 * TWO32 + KLine(5)[3] as int);
    assert IsRootWith(197, 5 * TWO32 + KLine(5)[4] as int);
    assert IsRootWith(199, 5 * TWO32 + KLine(5)[5] as int);
    assert IsRootWith(211, 5 * TWO32 + KLine(5)[6] as int);
    assert IsRootWith(223, 6 * TWO32 + KLine(5)[7] as int);
  }

  lemma Line6()
    ensures forall j :: 0 <= j < 8 ==> IsCubeRoot(PrimeLine(6)[j], KLine(6)[j])
  {
    assert IsRootWith(227, 6 * TWO32 + KLine(6)[0] as int);
    assert IsRootWith(229, 6 * TWO32 + KLine(6)[1] as int);
    assert IsRootWith(233, 6 * TWO32 + KLine(6)[2] as int);
    assert IsRootWith(239, 6 * TWO32 + KLine(6)[3] as int);
    assert IsRootWith(241, 6 * TWO32 + KLine(6)[4] as int);
    assert IsRootWith(251, 6 * TWO32 + KLine(6)[5] as int);
    assert IsRootWith(257, 6 * TWO32 + KLine(6)[6] as int);
    assert IsRootWith(263, 6 * TWO32 + KLine(6)[7] as int);
  }

  lemma Line7()
    ensures forall j :: 0 <= j < 8 ==> IsCubeRoot(PrimeLine(7)[j], KLine(7)[j])
  {
    assert IsRootWith(269, 6 * TWO32 + KLine(7)[0] as int);
    assert IsRootWith(271, 6 * TWO32 + KLine(7)[1] as int);
    assert IsRootWith(277, 6 * TWO32 + KLine(7)[2] as int);
    assert IsRootWith(281, 6 * TWO32 + KLine(7)[3] as int);
    assert IsRootWith(283, 6 * TWO32 + KLine(7)[4] as int);
    assert IsRootWith(293, 6 * TWO32 + KLine(7)[5] as int);
    assert IsRootWith(307, 6 * TWO32 + KLine(7)[6] as int);
    assert IsRootWith(311, 6 * TWO32 + KLine(7)[7] as int);
  }

  /** The initial hash value is the same of the square roots of the first eight. */
  lemma InitialIsRoots()
    ensures forall j :: 0 <= j < 8 ==> exists i: nat :: IsSquareRootWith(PrimeLine(0)[j], i * TWO32 + H0()[j] as int)
  {
    assert IsSquareRootWith(2, 1 * TWO32 + H0()[0] as int);
    assert IsSquareRootWith(3, 1 * TWO32 + H0()[1] as int);
    assert IsSquareRootWith(5, 2 * TWO32 + H0()[2] as int);
    assert IsSquareRootWith(7, 2 * TWO32 + H0()[3] as int);
    assert IsSquareRootWith(11, 3 * TWO32 + H0()[4] as int);
    assert IsSquareRootWith(13, 3 * TWO32 + H0()[5] as int);
    assert IsSquareRootWith(17, 4 * TWO32 + H0()[6] as int);
    assert IsSquareRootWith(19, 4 * TWO32 + H0()[7] as int);
  }

  predicate IsSquareRootWith(p: nat, n: int) { n * n <= p * TWO64 < (n + 1) * (n + 1) }

  // ---------- one block after another ----------

  predicate IsSum(z: Word, x: Word, y: Word) { z == x + y }

  lemma AddIsSum(x: Word, y: Word)
    ensures IsSum(Add(x, y), x, y)
  {}

  /** The hash value begins with the initial one, and after each block it is the
      sum of the one before and the working variables, which began with that; words
      are added modulo 2^32. */
  lemma NextHashValue(m: seq<Byte>, n: nat)
    requires BLOCK * (n + 1) <= |m|
    ensures var s, s' := Fold(m, n), Fold(m, n + 1);
      var first := Regs(s[0], s[1], s[2], s[3], s[4], s[5], s[6], s[7]);
      var v := Rounds(first, Parse(m[BLOCK * n..BLOCK * n + BLOCK]), 64);
      && (n == 0 ==> s == H0())
      && IsSum(s'[0], s[0], v.a) && IsSum(s'[1], s[1], v.b) && IsSum(s'[2], s[2], v.c) && IsSum(s'[3], s[3], v.d)
      && IsSum(s'[4], s[4], v.e) && IsSum(s'[5], s[5], v.f) && IsSum(s'[6], s[6], v.g) && IsSum(s'[7], s[7], v.h)
  {
    hide Rounds, Parse, H0, Add, IsSum;
    forall x, y ensures IsSum(Add(x, y), x, y) {
      AddIsSum(x, y);
    }
    assert m[BLOCK * n..BLOCK * (n + 1)] == m[BLOCK * n..BLOCK * n + BLOCK];
  }
}
