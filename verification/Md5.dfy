/** MD5 as RFC 1321 defines it, and the block loop of mkhash.c. */
module Md5 {
  import opened HashBytes

  // ---------- RFC 1321, section 3.4 ----------

  function F(x: Word, y: Word, z: Word): Word { (x & y) | (!x & z) }

  function G(x: Word, y: Word, z: Word): Word { (x & z) | (y & !z) }

  function H(x: Word, y: Word, z: Word): Word { (x ^ y) ^ z }

  function I(x: Word, y: Word, z: Word): Word { y ^ (x | !z) }

  // X <<< s
  function Rotl(x: Word, s: Word): Word
    requires 0 < s < 32
  {
    (x << s) | (x >> (32 - s))
  }

  // Addition modulo 2^32.
  function Add(x: Word, y: Word): Word { x + y }

  function Add4(w: Word, x: Word, y: Word, z: Word): Word { w + x + y + z }

  function Aux(round: nat, x: Word, y: Word, z: Word): Word {
    if round == 0 then F(x, y, z) else if round == 1 then G(x, y, z)
    else if round == 2 then H(x, y, z) else I(x, y, z)
  }

  // An operation [abcd k s i] with T[i], and the four on a line of the standard:
  // [ABCD k s i] [DABC k s i] [CDAB k s i] [BCDA k s i].
  datatype Op = Op(k: nat, s: Word, t: Word)

  datatype Row = Row(first: Op, second: Op, third: Op, fourth: Op)

  predicate ValidOp(o: Op) { o.k < 16 && 0 < o.s < 32 }

  function RowAt(q: nat): (row: Row)
    requires q < 16
    ensures ValidOp(row.first) && ValidOp(row.second) && ValidOp(row.third) && ValidOp(row.fourth)
  {
    match q
    case 0 => Row(Op(0, 7, 0xd76aa478), Op(1, 12, 0xe8c7b756),
              Op(2, 17, 0x242070db), Op(3, 22, 0xc1bdceee))
    case 1 => Row(Op(4, 7, 0xf57c0faf), Op(5, 12, 0x4787c62a),
              Op(6, 17, 0xa8304613), Op(7, 22, 0xfd469501))
    case 2 => Row(Op(8, 7, 0x698098d8), Op(9, 12, 0x8b44f7af),
              Op(10, 17, 0xffff5bb1), Op(11, 22, 0x895cd7be))
    case 3 => Row(Op(12, 7, 0x6b901122), Op(13, 12, 0xfd987193),
              Op(14, 17, 0xa679438e), Op(15, 22, 0x49b40821))
    case 4 => Row(Op(1, 5, 0xf61e2562), Op(6, 9, 0xc040b340),
              Op(11, 14, 0x265e5a51), Op(0, 20, 0xe9b6c7aa))
    case 5 => Row(Op(5, 5, 0xd62f105d), Op(10, 9, 0x02441453),
              Op(15, 14, 0xd8a1e681), Op(4, 20, 0xe7d3fbc8))
    case 6 => Row(Op(9, 5, 0x21e1cde6), Op(14, 9, 0xc33707d6),
              Op(3, 14, 0xf4d50d87), Op(8, 20, 0x455a14ed))
    case 7 => Row(Op(13, 5, 0xa9e3e905), Op(2, 9, 0xfcefa3f8),
              Op(7, 14, 0x676f02d9), Op(12, 20, 0x8d2a4c8a))
    case 8 => Row(Op(5, 4, 0xfffa3942), Op(8, 11, 0x8771f681),
              Op(11, 16, 0x6d9d6122), Op(14, 23, 0xfde5380c))
    case 9 => Row(Op(1, 4, 0xa4beea44), Op(4, 11, 0x4bdecfa9),
              Op(7, 16, 0xf6bb4b60), Op(10, 23, 0xbebfbc70))
    case 10 => Row(Op(13, 4, 0x289b7ec6), Op(0, 11, 0xeaa127fa),
               Op(3, 16, 0xd4ef3085), Op(6, 23, 0x04881d05))
    case 11 => Row(Op(9, 4, 0xd9d4d039), Op(12, 11, 0xe6db99e5),
               Op(15, 16, 0x1fa27cf8), Op(2, 23, 0xc4ac5665))
    case 12 => Row(Op(0, 6, 0xf4292244), Op(7, 10, 0x432aff97),
               Op(14, 15, 0xab9423a7), Op(5, 21, 0xfc93a039))
    case 13 => Row(Op(12, 6, 0x655b59c3), Op(3, 10, 0x8f0ccc92),
               Op(10, 15, 0xffeff47d), Op(1, 21, 0x85845dd1))
    case 14 => Row(Op(8, 6, 0x6fa87e4f), Op(15, 10, 0xfe2ce6e0),
               Op(6, 15, 0xa3014314), Op(13, 21, 0x4e0811a1))
    case _ => Row(Op(4, 6, 0xf7537e82), Op(11, 10, 0xbd3af235),
               Op(2, 15, 0x2ad7d2bb), Op(9, 21, 0xeb86d391))
  }

  datatype Regs = Regs(a: Word, b: Word, c: Word, d: Word)

  // a = b + ((a + F(b, c, d) + X[k] + T[i]) <<< s), with F for any of the four.
  function NewValue(round: nat, o: Op, x: seq<Word>, a: Word, b: Word, c: Word, d: Word): Word
    requires ValidOp(o) && |x| == 16
  {
    Add(b, Rotl(Add4(a, Aux(round, b, c, d), x[o.k], o.t), o.s))
  }

  function DoRow(q: nat, x: seq<Word>, r: Regs): Regs
    requires q < 16 && |x| == 16
  {
    var row, round := RowAt(q), q / 4;
    var a := NewValue(round, row.first, x, r.a, r.b, r.c, r.d);
    var d := NewValue(round, row.second, x, r.d, a, r.b, r.c);
    var c := NewValue(round, row.third, x, r.c, d, a, r.b);
    var b := NewValue(round, row.fourth, x, r.b, c, d, a);
    Regs(a, b, c, d)
  }

  // The registers after the first n rows of operations.
  function Rows(n: nat, x: seq<Word>, r: Regs): Regs
    requires n <= 16 && |x| == 16
  {
    if n == 0 then r else DoRow(n - 1, x, Rows(n - 1, x, r))
  }

  // The sixteen words of a block, low-order byte first.
  function Words(block: seq<Byte>): (x: seq<Word>)
    requires |block| == BLOCK
    ensures |x| == 16
  {
    seq(16, t requires 0 <= t < 16 => WordAt(block, t))
  }

  function WordAt(block: seq<Byte>, t: nat): Word
    requires |block| == BLOCK && t < 16
  {
    var p := block[4 * t..4 * t + 4];
    FourBytes(p);
    LittleEndian(p) as Word
  }

  function Compress(r: Regs, block: seq<Byte>): Regs
    requires |block| == BLOCK
  {
    var v := Rows(16, Words(block), r);
    Regs(Add(r.a, v.a), Add(r.b, v.b), Add(r.c, v.c), Add(r.d, v.d))
  }

  function Initial(): Regs { Regs(0x67452301, 0xefcdab89, 0x98badcfe, 0x10325476) }

  /** The registers after the first n blocks of m, begun with r. */
  function Fold(r: Regs, m: seq<Byte>, n: nat): Regs
    requires BLOCK * n <= |m|
  {
    if n == 0 then r else Compress(Fold(r, m, n - 1), m[BLOCK * (n - 1)..BLOCK * n])
  }

  // ---------- MD5_body ----------

  function FastF(x: Word, y: Word, z: Word): Word { z ^ (x & (y ^ z)) }

  function FastG(x: Word, y: Word, z: Word): Word { y ^ (z & (x ^ y)) }

  function H2(x: Word, y: Word, z: Word): Word { x ^ (y ^ z) }

  lemma FastFIsF(x: Word, y: Word, z: Word)
    ensures FastF(x, y, z) == F(x, y, z)
  {
    assert z ^ (x & (y ^ z)) == (x & y) | (!x & z);
  }

  lemma FastGIsG(x: Word, y: Word, z: Word)
    ensures FastG(x, y, z) == G(x, y, z)
  {
    assert y ^ (z & (x ^ y)) == (x & z) | (y & !z);
  }

  lemma H2IsH(x: Word, y: Word, z: Word)
    ensures H2(x, y, z) == H(x, y, z)
  {
    assert x ^ (y ^ z) == (x ^ y) ^ z;
  }

  // a += f + x + t
  function PlusThree(a: Word, f: Word, x: Word, t: Word): Word { a + (f + x + t) }

  // a = (a << s) | ((a & 0xffffffff) >> (32 - s))
  function RotlMasked(a: Word, s: Word): Word
    requires 0 < s < 32
  {
    (a << s) | ((a & 0xffffffff) >> (32 - s))
  }

  // STEP, where f is the value of the auxiliary function.
  function Step(f: Word, a: Word, b: Word, x: Word, t: Word, s: Word): Word
    requires 0 < s < 32
  {
    Add(RotlMasked(PlusThree(a, f, x, t), s), b)
  }

  lemma OrderDoesNotMatter(a: Word, f: Word, x: Word, t: Word)
    ensures PlusThree(a, f, x, t) == Add4(a, f, x, t)
  {}

  lemma AddCommutes(x: Word, y: Word)
    ensures Add(x, y) == Add(y, x)
  {}

  lemma MaskIsIdle(a: Word, s: Word)
    requires 0 < s < 32
    ensures RotlMasked(a, s) == Rotl(a, s)
  {
    assert a & 0xffffffff == a;
  }

  lemma StepIsNewValue(round: nat, f: Word, o: Op, x: seq<Word>, a: Word, b: Word, c: Word, d: Word)
    requires ValidOp(o) && |x| == 16 && f == Aux(round, b, c, d)
    ensures Step(f, a, b, x[o.k], o.t, o.s) == NewValue(round, o, x, a, b, c, d)
  {
    hide Add, Add4, PlusThree, Rotl, RotlMasked, Aux;
    OrderDoesNotMatter(a, f, x[o.k], o.t);
    MaskIsIdle(Add4(a, f, x[o.k], o.t), o.s);
    AddCommutes(b, Rotl(Add4(a, f, x[o.k], o.t), o.s));
  }

  lemma RowF(q: nat, x: seq<Word>, r: Regs)
    requires 0 <= q < 4 && |x| == 16
    ensures var row := RowAt(q);
      var a := Step(FastF(r.b, r.c, r.d), r.a, r.b, x[row.first.k], row.first.t, row.first.s);
      var d := Step(FastF(a, r.b, r.c), r.d, a, x[row.second.k], row.second.t, row.second.s);
      var c := Step(FastF(d, a, r.b), r.c, d, x[row.third.k], row.third.t, row.third.s);
      var b := Step(FastF(c, d, a), r.b, c, x[row.fourth.k], row.fourth.t, row.fourth.s);
      DoRow(q, x, r) == Regs(a, b, c, d)
  {
    hide Step, NewValue, RowAt, F, G, H, I, FastF, FastG, H2;
    var row, v := RowAt(q), DoRow(q, x, r);
    FastFIsF(r.b, r.c, r.d);
    FastFIsF(v.a, r.b, r.c);
    FastFIsF(v.d, v.a, r.b);
    FastFIsF(v.c, v.d, v.a);
    StepIsNewValue(0, FastF(r.b, r.c, r.d), row.first, x, r.a, r.b, r.c, r.d);
    StepIsNewValue(0, FastF(v.a, r.b, r.c), row.second, x, r.d, v.a, r.b, r.c);
    StepIsNewValue(0, FastF(v.d, v.a, r.b), row.third, x, r.c, v.d, v.a, r.b);
    StepIsNewValue(0, FastF(v.c, v.d, v.a), row.fourth, x, r.b, v.c, v.d, v.a);
  }

  lemma RowG(q: nat, x: seq<Word>, r: Regs)
    requires 4 <= q < 8 && |x| == 16
    ensures var row := RowAt(q);
      var a := Step(FastG(r.b, r.c, r.d), r.a, r.b, x[row.first.k], row.first.t, row.first.s);
      var d := Step(FastG(a, r.b, r.c), r.d, a, x[row.second.k], row.second.t, row.second.s);
      var c := Step(FastG(d, a, r.b), r.c, d, x[row.third.k], row.third.t, row.third.s);
      var b := Step(FastG(c, d, a), r.b, c, x[row.fourth.k], row.fourth.t, row.fourth.s);
      DoRow(q, x, r) == Regs(a, b, c, d)
  {
    hide Step, NewValue, RowAt, F, G, H, I, FastF, FastG, H2;
    var row, v := RowAt(q), DoRow(q, x, r);
    FastGIsG(r.b, r.c, r.d);
    FastGIsG(v.a, r.b, r.c);
    FastGIsG(v.d, v.a, r.b);
    FastGIsG(v.c, v.d, v.a);
    StepIsNewValue(1, FastG(r.b, r.c, r.d), row.first, x, r.a, r.b, r.c, r.d);
    StepIsNewValue(1, FastG(v.a, r.b, r.c), row.second, x, r.d, v.a, r.b, r.c);
    StepIsNewValue(1, FastG(v.d, v.a, r.b), row.third, x, r.c, v.d, v.a, r.b);
    StepIsNewValue(1, FastG(v.c, v.d, v.a), row.fourth, x, r.b, v.c, v.d, v.a);
  }

  lemma RowH(q: nat, x: seq<Word>, r: Regs)
    requires 8 <= q < 12 && |x| == 16
    ensures var row := RowAt(q);
      var a := Step(H(r.b, r.c, r.d), r.a, r.b, x[row.first.k], row.first.t, row.first.s);
      var d := Step(H2(a, r.b, r.c), r.d, a, x[row.second.k], row.second.t, row.second.s);
      var c := Step(H(d, a, r.b), r.c, d, x[row.third.k], row.third.t, row.third.s);
      var b := Step(H2(c, d, a), r.b, c, x[row.fourth.k], row.fourth.t, row.fourth.s);
      DoRow(q, x, r) == Regs(a, b, c, d)
  {
    hide Step, NewValue, RowAt, F, G, H, I, FastF, FastG, H2;
    var row, v := RowAt(q), DoRow(q, x, r);
    H2IsH(v.a, r.b, r.c);
    H2IsH(v.c, v.d, v.a);
    StepIsNewValue(2, H(r.b, r.c, r.d), row.first, x, r.a, r.b, r.c, r.d);
    StepIsNewValue(2, H2(v.a, r.b, r.c), row.second, x, r.d, v.a, r.b, r.c);
    StepIsNewValue(2, H(v.d, v.a, r.b), row.third, x, r.c, v.d, v.a, r.b);
    StepIsNewValue(2, H2(v.c, v.d, v.a), row.fourth, x, r.b, v.c, v.d, v.a);
  }

  lemma RowI(q: nat, x: seq<Word>, r: Regs)
    requires 12 <= q < 16 && |x| == 16
    ensures var row := RowAt(q);
      var a := Step(I(r.b, r.c, r.d), r.a, r.b, x[row.first.k], row.first.t, row.first.s);
      var d := Step(I(a, r.b, r.c), r.d, a, x[row.second.k], row.second.t, row.second.s);
      var c := Step(I(d, a, r.b), r.c, d, x[row.third.k], row.third.t, row.third.s);
      var b := Step(I(c, d, a), r.b, c, x[row.fourth.k], row.fourth.t, row.fourth.s);
      DoRow(q, x, r) == Regs(a, b, c, d)
  {
    hide Step, NewValue, RowAt, F, G, H, I, FastF, FastG, H2;
    var row, v := RowAt(q), DoRow(q, x, r);
    StepIsNewValue(3, I(r.b, r.c, r.d), row.first, x, r.a, r.b, r.c, r.d);
    StepIsNewValue(3, I(v.a, r.b, r.c), row.second, x, r.d, v.a, r.b, r.c);
    StepIsNewValue(3, I(v.d, v.a, r.b), row.third, x, r.c, v.d, v.a, r.b);
    StepIsNewValue(3, I(v.c, v.d, v.a), row.fourth, x, r.b, v.c, v.d, v.a);
  }

  method Round1(x: seq<Word>, r: Regs, ghost r0: Regs) returns (r': Regs)
    requires |x| == 16 && r == Rows(0, x, r0)
    ensures r' == Rows(4, x, r0)
  {
    hide DoRow, Step, FastF, FastG, H, H2, I;
    var a, b, c, d := r.a, r.b, r.c, r.d;
    RowF(0, x, Regs(a, b, c, d));
    a := Step(FastF(b, c, d), a, b, x[0], 0xd76aa478, 7);
    d := Step(FastF(a, b, c), d, a, x[1], 0xe8c7b756, 12);
    c := Step(FastF(d, a, b), c, d, x[2], 0x242070db, 17);
    b := Step(FastF(c, d, a), b, c, x[3], 0xc1bdceee, 22);
    assert Regs(a, b, c, d) == Rows(1, x, r0);
    RowF(1, x, Regs(a, b, c, d));
    a := Step(FastF(b, c, d), a, b, x[4], 0xf57c0faf, 7);
    d := Step(FastF(a, b, c), d, a, x[5], 0x4787c62a, 12);
    c := Step(FastF(d, a, b), c, d, x[6], 0xa8304613, 17);
    b := Step(FastF(c, d, a), b, c, x[7], 0xfd469501, 22);
    assert Regs(a, b, c, d) == Rows(2, x, r0);
    RowF(2, x, Regs(a, b, c, d));
    a := Step(FastF(b, c, d), a, b, x[8], 0x698098d8, 7);
    d := Step(FastF(a, b, c), d, a, x[9], 0x8b44f7af, 12);
    c := Step(FastF(d, a, b), c, d, x[10], 0xffff5bb1, 17);
    b := Step(FastF(c, d, a), b, c, x[11], 0x895cd7be, 22);
    assert Regs(a, b, c, d) == Rows(3, x, r0);
    RowF(3, x, Regs(a, b, c, d));
    a := Step(FastF(b, c, d), a, b, x[12], 0x6b901122, 7);
    d := Step(FastF(a, b, c), d, a, x[13], 0xfd987193, 12);
    c := Step(FastF(d, a, b), c, d, x[14], 0xa679438e, 17);
    b := Step(FastF(c, d, a), b, c, x[15], 0x49b40821, 22);
    assert Regs(a, b, c, d) == Rows(4, x, r0);
    r' := Regs(a, b, c, d);
  }

  method Round2(x: seq<Word>, r: Regs, ghost r0: Regs) returns (r': Regs)
    requires |x| == 16 && r == Rows(4, x, r0)
    ensures r' == Rows(8, x, r0)
  {
    hide DoRow, Step, FastF, FastG, H, H2, I;
    var a, b, c, d := r.a, r.b, r.c, r.d;
    RowG(4, x, Regs(a, b, c, d));
    a := Step(FastG(b, c, d), a, b, x[1], 0xf61e2562, 5);
    d := Step(FastG(a, b, c), d, a, x[6], 0xc040b340, 9);
    c := Step(FastG(d, a, b), c, d, x[11], 0x265e5a51, 14);
    b := Step(FastG(c, d, a), b, c, x[0], 0xe9b6c7aa, 20);
    assert Regs(a, b, c, d) == Rows(5, x, r0);
    RowG(5, x, Regs(a, b, c, d));
    a := Step(FastG(b, c, d), a, b, x[5], 0xd62f105d, 5);
    d := Step(FastG(a, b, c), d, a, x[10], 0x02441453, 9);
    c := Step(FastG(d, a, b), c, d, x[15], 0xd8a1e681, 14);
    b := Step(FastG(c, d, a), b, c, x[4], 0xe7d3fbc8, 20);
    assert Regs(a, b, c, d) == Rows(6, x, r0);
    RowG(6, x, Regs(a, b, c, d));
    a := Step(FastG(b, c, d), a, b, x[9], 0x21e1cde6, 5);
    d := Step(FastG(a, b, c), d, a, x[14], 0xc33707d6, 9);
    c := Step(FastG(d, a, b), c, d, x[3], 0xf4d50d87, 14);
    b := Step(FastG(c, d, a), b, c, x[8], 0x455a14ed, 20);
    assert Regs(a, b, c, d) == Rows(7, x, r0);
    RowG(7, x, Regs(a, b, c, d));
    a := Step(FastG(b, c, d), a, b, x[13], 0xa9e3e905, 5);
    d := Step(FastG(a, b, c), d, a, x[2], 0xfcefa3f8, 9);
    c := Step(FastG(d, a, b), c, d, x[7], 0x676f02d9, 14);
    b := Step(FastG(c, d, a), b, c, x[12], 0x8d2a4c8a, 20);
    assert Regs(a, b, c, d) == Rows(8, x, r0);
    r' := Regs(a, b, c, d);
  }

  method Round3(x: seq<Word>, r: Regs, ghost r0: Regs) returns (r': Regs)
    requires |x| == 16 && r == Rows(8, x, r0)
    ensures r' == Rows(12, x, r0)
  {
    hide DoRow, Step, FastF, FastG, H, H2, I;
    var a, b, c, d := r.a, r.b, r.c, r.d;
    RowH(8, x, Regs(a, b, c, d));
    a := Step(H(b, c, d), a, b, x[5], 0xfffa3942, 4);
    d := Step(H2(a, b, c), d, a, x[8], 0x8771f681, 11);
    c := Step(H(d, a, b), c, d, x[11], 0x6d9d6122, 16);
    b := Step(H2(c, d, a), b, c, x[14], 0xfde5380c, 23);
    assert Regs(a, b, c, d) == Rows(9, x, r0);
    RowH(9, x, Regs(a, b, c, d));
    a := Step(H(b, c, d), a, b, x[1], 0xa4beea44, 4);
    d := Step(H2(a, b, c), d, a, x[4], 0x4bdecfa9, 11);
    c := Step(H(d, a, b), c, d, x[7], 0xf6bb4b60, 16);
    b := Step(H2(c, d, a), b, c, x[10], 0xbebfbc70, 23);
    assert Regs(a, b, c, d) == Rows(10, x, r0);
    RowH(10, x, Regs(a, b, c, d));
    a := Step(H(b, c, d), a, b, x[13], 0x289b7ec6, 4);
    d := Step(H2(a, b, c), d, a, x[0], 0xeaa127fa, 11);
    c := Step(H(d, a, b), c, d, x[3], 0xd4ef3085, 16);
    b := Step(H2(c, d, a), b, c, x[6], 0x04881d05, 23);
    assert Regs(a, b, c, d) == Rows(11, x, r0);
    RowH(11, x, Regs(a, b, c, d));
    a := Step(H(b, c, d), a, b, x[9], 0xd9d4d039, 4);
    d := Step(H2(a, b, c), d, a, x[12], 0xe6db99e5, 11);
    c := Step(H(d, a, b), c, d, x[15], 0x1fa27cf8, 16);
    b := Step(H2(c, d, a), b, c, x[2], 0xc4ac5665, 23);
    assert Regs(a, b, c, d) == Rows(12, x, r0);
    r' := Regs(a, b, c, d);
  }

  method Round4(x: seq<Word>, r: Regs, ghost r0: Regs) returns (r': Regs)
    requires |x| == 16 && r == Rows(12, x, r0)
    ensures r' == Rows(16, x, r0)
  {
    hide DoRow, Step, FastF, FastG, H, H2, I;
    var a, b, c, d := r.a, r.b, r.c, r.d;
    RowI(12, x, Regs(a, b, c, d));
    a := Step(I(b, c, d), a, b, x[0], 0xf4292244, 6);
    d := Step(I(a, b, c), d, a, x[7], 0x432aff97, 10);
    c := Step(I(d, a, b), c, d, x[14], 0xab9423a7, 15);
    b := Step(I(c, d, a), b, c, x[5], 0xfc93a039, 21);
    assert Regs(a, b, c, d) == Rows(13, x, r0);
    RowI(13, x, Regs(a, b, c, d));
    a := Step(I(b, c, d), a, b, x[12], 0x655b59c3, 6);
    d := Step(I(a, b, c), d, a, x[3], 0x8f0ccc92, 10);
    c := Step(I(d, a, b), c, d, x[10], 0xffeff47d, 15);
    b := Step(I(c, d, a), b, c, x[1], 0x85845dd1, 21);
    assert Regs(a, b, c, d) == Rows(14, x, r0);
    RowI(14, x, Regs(a, b, c, d));
    a := Step(I(b, c, d), a, b, x[8], 0x6fa87e4f, 6);
    d := Step(I(a, b, c), d, a, x[15], 0xfe2ce6e0, 10);
    c := Step(I(d, a, b), c, d, x[6], 0xa3014314, 15);
    b := Step(I(c, d, a), b, c, x[13], 0x4e0811a1, 21);
    assert Regs(a, b, c, d) == Rows(15, x, r0);
    RowI(15, x, Regs(a, b, c, d));
    a := Step(I(b, c, d), a, b, x[4], 0xf7537e82, 6);
    d := Step(I(a, b, c), d, a, x[11], 0xbd3af235, 10);
    c := Step(I(d, a, b), c, d, x[2], 0x2ad7d2bb, 15);
    b := Step(I(c, d, a), b, c, x[9], 0xeb86d391, 21);
    assert Regs(a, b, c, d) == Rows(16, x, r0);
    r' := Regs(a, b, c, d);
  }

  // SET(n) and GET(n)
  function Get(block: seq<Byte>, n: nat): Word
    requires |block| == BLOCK && n < 16
  {
    Le32Dec(block[4 * n..4 * n + 4]) as Word
  }

  lemma GetIsWordAt(block: seq<Byte>, n: nat)
    requires |block| == BLOCK && n < 16
    ensures Get(block, n) == WordAt(block, n)
  {
    FourBytes(block[4 * n..4 * n + 4]);
  }

  method Load(block: seq<Byte>) returns (x: seq<Word>)
    requires |block| == BLOCK
    ensures x == Words(block)
  {
    hide Get, WordAt;
    x := [];
    for n := 0 to 16
      invariant |x| == n && forall j :: 0 <= j < n ==> x[j] == WordAt(block, j)
    {
      GetIsWordAt(block, n);
      x := x + [Get(block, n)];
    }
  }

  /** MD5_body: all blocks of the data, of which there is at least one. */
  method Body(r: Regs, data: seq<Byte>, ghost n: nat) returns (r': Regs)
    requires |data| == BLOCK * n && n > 0
    ensures r' == Fold(r, data, n)
  {
    hide Words, Rows, Add;
    var ptr, size := 0, |data|;
    ghost var k := 0;
    r' := r;
    while true
      invariant k < n && ptr == BLOCK * k && size == |data| - ptr && r' == Fold(r, data, k)
      decreases size
    {
      var saved := r';
      var x := Load(data[ptr..ptr + BLOCK]);
      assert r' == Rows(0, x, saved) by { NoRows(x, saved); }
      r' := Round1(x, r', saved);
      r' := Round2(x, r', saved);
      r' := Round3(x, r', saved);
      r' := Round4(x, r', saved);
      r' := Regs(Add(r'.a, saved.a), Add(r'.b, saved.b), Add(r'.c, saved.c), Add(r'.d, saved.d));
      SumsCommute(saved, Rows(16, x, saved));
      ptr, k := ptr + BLOCK, k + 1;
      size := size - BLOCK;
      if size == 0 {
        break;
      }
    }
  }

  lemma NoRows(x: seq<Word>, r: Regs)
    requires |x| == 16
    ensures Rows(0, x, r) == r
  {}

  lemma SumsCommute(r: Regs, v: Regs)
    ensures Regs(Add(v.a, r.a), Add(v.b, r.b), Add(v.c, r.c), Add(v.d, r.d))
         == Regs(Add(r.a, v.a), Add(r.b, v.b), Add(r.c, v.c), Add(r.d, v.d))
  {
    hide Add;
    AddCommutes(r.a, v.a);
    AddCommutes(r.b, v.b);
    AddCommutes(r.c, v.c);
    AddCommutes(r.d, v.d);
  }

  /** Blocks may be processed in several goes. */
  lemma {:induction false} FoldMore(r: Regs, m: seq<Byte>, n: nat, data: seq<Byte>, k: nat)
    requires BLOCK * (n + k) <= |m| && |data| >= BLOCK * k
    requires data[..BLOCK * k] == m[BLOCK * n..BLOCK * (n + k)]
    ensures Fold(Fold(r, m, n), data, k) == Fold(r, m, n + k)
  {
    hide Compress;
    if k > 0 {
      var b, e := BLOCK * (k - 1), BLOCK * k;
      var part := m[BLOCK * n..BLOCK * (n + k)];
      assert data[..b] == data[..e][..b] == part[..b] == m[BLOCK * n..BLOCK * (n + k - 1)];
      FoldMore(r, m, n, data, k - 1);
      assert data[b..e] == data[..e][b..] == part[b..] == m[BLOCK * (n + k - 1)..BLOCK * (n + k)];
    }
  }
}
