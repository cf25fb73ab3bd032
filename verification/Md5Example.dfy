/** The example of RFC 1321 for the message "abc": the registers after every line
    of operations, and the digest. */
module Md5Example {
  import opened HashBytes
  import opened Md5
  import opened Md5Stream

  const ABC: seq<Byte> := [0x61, 0x62, 0x63]

  // The sixteen words of the padded message.
  ghost predicate IsAbc(x: seq<Word>) {
    && |x| == 16 && x[0] == 0x80636261 && x[14] == 0x18
    && forall t :: 1 <= t < 16 && t != 14 ==> x[t] == 0
  }

  // One more line of operations.
  lemma NextRow(x: seq<Word>, q: nat, r: Regs, r': Regs)
    requires |x| == 16 && q < 16 && Rows(q, x, Initial()) == r && DoRow(q, x, r) == r'
    ensures Rows(q + 1, x, Initial()) == r'
  {}

  // What an operation makes of the registers and a word w.
  function Value(round: nat, s: Word, t: Word, w: Word, a: Word, b: Word, c: Word, d: Word): Word
    requires 0 < s < 32
  {
    Add(b, Rotl(Add4(a, Aux(round, b, c, d), w, t), s))
  }

  lemma ValueIsNew(round: nat, o: Op, x: seq<Word>, w: Word, a: Word, b: Word, c: Word, d: Word)
    requires ValidOp(o) && |x| == 16 && x[o.k] == w
    ensures NewValue(round, o, x, a, b, c, d) == Value(round, o.s, o.t, w, a, b, c, d)
  {}

  lemma RowFrom(q: nat, x: seq<Word>, w1: Word, w2: Word, w3: Word, w4: Word, r: Regs, r': Regs)
    requires q < 16 && |x| == 16
    requires var w := RowAt(q);
      x[w.first.k] == w1 && x[w.second.k] == w2 && x[w.third.k] == w3 && x[w.fourth.k] == w4
    requires var w, n := RowAt(q), q / 4;
      && Value(n, w.first.s, w.first.t, w1, r.a, r.b, r.c, r.d) == r'.a
      && Value(n, w.second.s, w.second.t, w2, r.d, r'.a, r.b, r.c) == r'.d
      && Value(n, w.third.s, w.third.t, w3, r.c, r'.d, r'.a, r.b) == r'.c
      && Value(n, w.fourth.s, w.fourth.t, w4, r.b, r'.c, r'.d, r'.a) == r'.b
    ensures DoRow(q, x, r) == r'
  {
    hide RowAt, NewValue, Value;
    var w, n := RowAt(q), q / 4;
    ValueIsNew(n, w.first, x, w1, r.a, r.b, r.c, r.d);
    ValueIsNew(n, w.second, x, w2, r.d, r'.a, r.b, r.c);
    ValueIsNew(n, w.third, x, w3, r.c, r'.d, r'.a, r.b);
    ValueIsNew(n, w.fourth, x, w4, r.b, r'.c, r'.d, r'.a);
  }

  lemma Row0(x: seq<Word>)
    requires IsAbc(x)
    ensures DoRow(0, x, Regs(0x67452301, 0xefcdab89, 0x98badcfe, 0x10325476))
         == Regs(0xd6d117b4, 0x7ad956f2, 0x2f6fbd72, 0x344a8432)
  {
    assert Value(0, 7, 0xd76aa478, 0x80636261, 0x67452301, 0xefcdab89, 0x98badcfe, 0x10325476) == 0xd6d117b4;
    assert Value(0, 12, 0xe8c7b756, 0, 0x10325476, 0xd6d117b4, 0xefcdab89, 0x98badcfe) == 0x344a8432;
    assert Value(0, 17, 0x242070db, 0, 0x98badcfe, 0x344a8432, 0xd6d117b4, 0xefcdab89) == 0x2f6fbd72;
    assert Value(0, 22, 0xc1bdceee, 0, 0xefcdab89, 0x2f6fbd72, 0x344a8432, 0xd6d117b4) == 0x7ad956f2;
    hide Value, NewValue;
    RowFrom(0, x, 0x80636261, 0, 0, 0, Regs(0x67452301, 0xefcdab89, 0x98badcfe, 0x10325476),
            Regs(0xd6d117b4, 0x7ad956f2, 0x2f6fbd72, 0x344a8432));
  }

  lemma Row1(x: seq<Word>)
    requires IsAbc(x)
    ensures DoRow(1, x, Regs(0xd6d117b4, 0x7ad956f2, 0x2f6fbd72, 0x344a8432))
         == Regs(0xc73741ef, 0x928d99f6, 0x207dc67b, 0x8bac3051)
  {
    assert Value(0, 7, 0xf57c0faf, 0, 0xd6d117b4, 0x7ad956f2, 0x2f6fbd72, 0x344a8432) == 0xc73741ef;
    assert Value(0, 12, 0x4787c62a, 0, 0x344a8432, 0xc73741ef, 0x7ad956f2, 0x2f6fbd72) == 0x8bac3051;
    assert Value(0, 17, 0xa8304613, 0, 0x2f6fbd72, 0x8bac3051, 0xc73741ef, 0x7ad956f2) == 0x207dc67b;
    assert Value(0, 22, 0xfd469501, 0, 0x7ad956f2, 0x207dc67b, 0x8bac3051, 0xc73741ef) == 0x928d99f6;
    hide Value, NewValue;
    RowFrom(1, x, 0, 0, 0, 0, Regs(0xd6d117b4, 0x7ad956f2, 0x2f6fbd72, 0x344a8432),
            Regs(0xc73741ef, 0x928d99f6, 0x207dc67b, 0x8bac3051));
  }

  lemma Row2(x: seq<Word>)
    requires IsAbc(x)
    ensures DoRow(2, x, Regs(0xc73741ef, 0x928d99f6, 0x207dc67b, 0x8bac3051))
         == Regs(0x854b3712, 0x5ed49596, 0x3020401c, 0x74e2f284)
  {
    assert Value(0, 7, 0x698098d8, 0, 0xc73741ef, 0x928d99f6, 0x207dc67b, 0x8bac3051) == 0x854b3712;
    assert Value(0, 12, 0x8b44f7af, 0, 0x8bac3051, 0x854b3712, 0x928d99f6, 0x207dc67b) == 0x74e2f284;
    assert Value(0, 17, 0xffff5bb1, 0, 0x207dc67b, 0x74e2f284, 0x854b3712, 0x928d99f6) == 0x3020401c;
    assert Value(0, 22, 0x895cd7be, 0, 0x928d99f6, 0x3020401c, 0x74e2f284, 0x854b3712) == 0x5ed49596;
    hide Value, NewValue;
    RowFrom(2, x, 0, 0, 0, 0, Regs(0xc73741ef, 0x928d99f6, 0x207dc67b, 0x8bac3051),
            Regs(0x854b3712, 0x5ed49596, 0x3020401c, 0x74e2f284));
  }

  lemma Row3(x: seq<Word>)
    requires IsAbc(x)
    ensures DoRow(3, x, Regs(0x854b3712, 0x5ed49596, 0x3020401c, 0x74e2f284))
         == Regs(0xdda9b9a6, 0x72aff2e0, 0xe396856b, 0xa1051895)
  {
    assert Value(0, 7, 0x6b901122, 0, 0x854b3712, 0x5ed49596, 0x3020401c, 0x74e2f284) == 0xdda9b9a6;
    assert Value(0, 12, 0xfd987193, 0, 0x74e2f284, 0xdda9b9a6, 0x5ed49596, 0x3020401c) == 0xa1051895;
    assert Value(0, 17, 0xa679438e, 0x18, 0x3020401c, 0xa1051895, 0xdda9b9a6, 0x5ed49596) == 0xe396856b;
    assert Value(0, 22, 0x49b40821, 0, 0x5ed49596, 0xe396856b, 0xa1051895, 0xdda9b9a6) == 0x72aff2e0;
    hide Value, NewValue;
    RowFrom(3, x, 0, 0, 0x18, 0, Regs(0x854b3712, 0x5ed49596, 0x3020401c, 0x74e2f284),
            Regs(0xdda9b9a6, 0x72aff2e0, 0xe396856b, 0xa1051895));
  }

  lemma Row4(x: seq<Word>)
    requires IsAbc(x)
    ensures DoRow(4, x, Regs(0xdda9b9a6, 0x72aff2e0, 0xe396856b, 0xa1051895))
         == Regs(0x3e9e9126, 0xb5b204e4, 0xe25e1652, 0x4a1d804e)
  {
    assert Value(1, 5, 0xf61e2562, 0, 0xdda9b9a6, 0x72aff2e0, 0xe396856b, 0xa1051895) == 0x3e9e9126;
    assert Value(1, 9, 0xc040b340, 0, 0xa1051895, 0x3e9e9126, 0x72aff2e0, 0xe396856b) == 0x4a1d804e;
    assert Value(1, 14, 0x265e5a51, 0, 0xe396856b, 0x4a1d804e, 0x3e9e9126, 0x72aff2e0) == 0xe25e1652;
    assert Value(1, 20, 0xe9b6c7aa, 0x80636261, 0x72aff2e0, 0xe25e1652, 0x4a1d804e, 0x3e9e9126) == 0xb5b204e4;
    hide Value, NewValue;
    RowFrom(4, x, 0, 0, 0, 0x80636261, Regs(0xdda9b9a6, 0x72aff2e0, 0xe396856b, 0xa1051895),
            Regs(0x3e9e9126, 0xb5b204e4, 0xe25e1652, 0x4a1d804e));
  }

  lemma Row5(x: seq<Word>)
    requires IsAbc(x)
    ensures DoRow(5, x, Regs(0x3e9e9126, 0xb5b204e4, 0xe25e1652, 0x4a1d804e))
         == Regs(0x59a8ffda, 0x47092c07, 0xabfc7920, 0x6d002f1e)
  {
    assert Value(1, 5, 0xd62f105d, 0, 0x3e9e9126, 0xb5b204e4, 0xe25e1652, 0x4a1d804e) == 0x59a8ffda;
    assert Value(1, 9, 0x02441453, 0, 0x4a1d804e, 0x59a8ffda, 0xb5b204e4, 0xe25e1652) == 0x6d002f1e;
    assert Value(1, 14, 0xd8a1e681, 0, 0xe25e1652, 0x6d002f1e, 0x59a8ffda, 0xb5b204e4) == 0xabfc7920;
    assert Value(1, 20, 0xe7d3fbc8, 0, 0xb5b204e4, 0xabfc7920, 0x6d002f1e, 0x59a8ffda) == 0x47092c07;
    hide Value, NewValue;
    RowFrom(5, x, 0, 0, 0, 0, Regs(0x3e9e9126, 0xb5b204e4, 0xe25e1652, 0x4a1d804e),
            Regs(0x59a8ffda, 0x47092c07, 0xabfc7920, 0x6d002f1e));
  }

  lemma Row6(x: seq<Word>)
    requires IsAbc(x)
    ensures DoRow(6, x, Regs(0x59a8ffda, 0x47092c07, 0xabfc7920, 0x6d002f1e))
         == Regs(0xb7f268cf, 0x786acb8f, 0xfe1623b1, 0x09388eff)
  {
    assert Value(1, 5, 0x21e1cde6, 0, 0x59a8ffda, 0x47092c07, 0xabfc7920, 0x6d002f1e) == 0xb7f268cf;
    assert Value(1, 9, 0xc33707d6, 0x18, 0x6d002f1e, 0xb7f268cf, 0x47092c07, 0xabfc7920) == 0x09388eff;
    assert Value(1, 14, 0xf4d50d87, 0, 0xabfc7920, 0x09388eff, 0xb7f268cf, 0x47092c07) == 0xfe1623b1;
    assert Value(1, 20, 0x455a14ed, 0, 0x47092c07, 0xfe1623b1, 0x09388eff, 0xb7f268cf) == 0x786acb8f;
    hide Value, NewValue;
    RowFrom(6, x, 0, 0x18, 0, 0, Regs(0x59a8ffda, 0x47092c07, 0xabfc7920, 0x6d002f1e),
            Regs(0xb7f268cf, 0x786acb8f, 0xfe1623b1, 0x09388eff));
  }

  lemma Row7(x: seq<Word>)
    requires IsAbc(x)
    ensures DoRow(7, x, Regs(0xb7f268cf, 0x786acb8f, 0xfe1623b1, 0x09388eff))
         == Regs(0x790a77fb, 0x726342d3, 0xa62884aa, 0x9f47e4f8)
  {
    assert Value(1, 5, 0xa9e3e905, 0, 0xb7f268cf, 0x786acb8f, 0xfe1623b1, 0x09388eff) == 0x790a77fb;
    assert Value(1, 9, 0xfcefa3f8, 0, 0x09388eff, 0x790a77fb, 0x786acb8f, 0xfe1623b1) == 0x9f47e4f8;
    assert Value(1, 14, 0x676f02d9, 0, 0xfe1623b1, 0x9f47e4f8, 0x790a77fb, 0x786acb8f) == 0xa62884aa;
    assert Value(1, 20, 0x8d2a4c8a, 0, 0x786acb8f, 0xa62884aa, 0x9f47e4f8, 0x790a77fb) == 0x726342d3;
    hide Value, NewValue;
    RowFrom(7, x, 0, 0, 0, 0, Regs(0xb7f268cf, 0x786acb8f, 0xfe1623b1, 0x09388eff),
            Regs(0x790a77fb, 0x726342d3, 0xa62884aa, 0x9f47e4f8));
  }

  lemma Row8(x: seq<Word>)
    requires IsAbc(x)
    ensures DoRow(8, x, Regs(0x790a77fb, 0x726342d3, 0xa62884aa, 0x9f47e4f8))
         == Regs(0xb3707ebf, 0x3b0875c7, 0x8d212ff5, 0x60127b2e)
  {
    assert Value(2, 4, 0xfffa3942, 0, 0x790a77fb, 0x726342d3, 0xa62884aa, 0x9f47e4f8) == 0xb3707ebf;
    assert Value(2, 11, 0x8771f681, 0, 0x9f47e4f8, 0xb3707ebf, 0x726342d3, 0xa62884aa) == 0x60127b2e;
    assert Value(2, 16, 0x6d9d6122, 0, 0xa62884aa, 0x60127b2e, 0xb3707ebf, 0x726342d3) == 0x8d212ff5;
    assert Value(2, 23, 0xfde5380c, 0x18, 0x726342d3, 0x8d212ff5, 0x60127b2e, 0xb3707ebf) == 0x3b0875c7;
    hide Value, NewValue;
    RowFrom(8, x, 0, 0, 0, 0x18, Regs(0x790a77fb, 0x726342d3, 0xa62884aa, 0x9f47e4f8),
            Regs(0xb3707ebf, 0x3b0875c7, 0x8d212ff5, 0x60127b2e));
  }

  lemma Row9(x: seq<Word>)
    requires IsAbc(x)
    ensures DoRow(9, x, Regs(0xb3707ebf, 0x3b0875c7, 0x8d212ff5, 0x60127b2e))
         == Regs(0x21b117b9, 0x5a2f5ea5, 0x3575227e, 0x6e7429d5)
  {
    assert Value(2, 4, 0xa4beea44, 0, 0xb3707ebf, 0x3b0875c7, 0x8d212ff5, 0x60127b2e) == 0x21b117b9;
    assert Value(2, 11, 0x4bdecfa9, 0, 0x60127b2e, 0x21b117b9, 0x3b0875c7, 0x8d212ff5) == 0x6e7429d5;
    assert Value(2, 16, 0xf6bb4b60, 0, 0x8d212ff5, 0x6e7429d5, 0x21b117b9, 0x3b0875c7) == 0x3575227e;
    assert Value(2, 23, 0xbebfbc70, 0, 0x3b0875c7, 0x3575227e, 0x6e7429d5, 0x21b117b9) == 0x5a2f5ea5;
    hide Value, NewValue;
    RowFrom(9, x, 0, 0, 0, 0, Regs(0xb3707ebf, 0x3b0875c7, 0x8d212ff5, 0x60127b2e),
            Regs(0x21b117b9, 0x5a2f5ea5, 0x3575227e, 0x6e7429d5));
  }

  lemma Row10(x: seq<Word>)
    requires IsAbc(x)
    ensures DoRow(10, x, Regs(0x21b117b9, 0x5a2f5ea5, 0x3575227e, 0x6e7429d5))
         == Regs(0x11de1779, 0x4c6124f4, 0x31c465ca, 0xfadcaa38)
  {
    assert Value(2, 4, 0x289b7ec6, 0, 0x21b117b9, 0x5a2f5ea5, 0x3575227e, 0x6e7429d5) == 0x11de1779;
    assert Value(2, 11, 0xeaa127fa, 0x80636261, 0x6e7429d5, 0x11de1779, 0x5a2f5ea5, 0x3575227e) == 0xfadcaa38;
    assert Value(2, 16, 0xd4ef3085, 0, 0x3575227e, 0xfadcaa38, 0x11de1779, 0x5a2f5ea5) == 0x31c465ca;
    assert Value(2, 23, 0x04881d05, 0, 0x5a2f5ea5, 0x31c465ca, 0xfadcaa38, 0x11de1779) == 0x4c6124f4;
    hide Value, NewValue;
    RowFrom(10, x, 0, 0x80636261, 0, 0, Regs(0x21b117b9, 0x5a2f5ea5, 0x3575227e, 0x6e7429d5),
            Regs(0x11de1779, 0x4c6124f4, 0x31c465ca, 0xfadcaa38));
  }

  lemma Row11(x: seq<Word>)
    requires IsAbc(x)
    ensures DoRow(11, x, Regs(0x11de1779, 0x4c6124f4, 0x31c465ca, 0xfadcaa38))
         == Regs(0x7f2e507b, 0x7beb9700, 0x8fae6399, 0x99d9679d)
  {
    assert Value(2, 4, 0xd9d4d039, 0, 0x11de1779, 0x4c6124f4, 0x31c465ca, 0xfadcaa38) == 0x7f2e507b;
    assert Value(2, 11, 0xe6db99e5, 0, 0xfadcaa38, 0x7f2e507b, 0x4c6124f4, 0x31c465ca) == 0x99d9679d;
    assert Value(2, 16, 0x1fa27cf8, 0, 0x31c465ca, 0x99d9679d, 0x7f2e507b, 0x4c6124f4) == 0x8fae6399;
    assert Value(2, 23, 0xc4ac5665, 0, 0x4c6124f4, 0x8fae6399, 0x99d9679d, 0x7f2e507b) == 0x7beb9700;
    hide Value, NewValue;
    RowFrom(11, x, 0, 0, 0, 0, Regs(0x11de1779, 0x4c6124f4, 0x31c465ca, 0xfadcaa38),
            Regs(0x7f2e507b, 0x7beb9700, 0x8fae6399, 0x99d9679d));
  }

  lemma Row12(x: seq<Word>)
    requires IsAbc(x)
    ensures DoRow(12, x, Regs(0x7f2e507b, 0x7beb9700, 0x8fae6399, 0x99d9679d))
         == Regs(0x7b201df8, 0x8bf025c4, 0xb298cefd, 0xf4e8e96e)
  {
    assert Value(3, 6, 0xf4292244, 0x80636261, 0x7f2e507b, 0x7beb9700, 0x8fae6399, 0x99d9679d) == 0x7b201df8;
    assert Value(3, 10, 0x432aff97, 0, 0x99d9679d, 0x7b201df8, 0x7beb9700, 0x8fae6399) == 0xf4e8e96e;
    assert Value(3, 15, 0xab9423a7, 0x18, 0x8fae6399, 0xf4e8e96e, 0x7b201df8, 0x7beb9700) == 0xb298cefd;
    assert Value(3, 21, 0xfc93a039, 0, 0x7beb9700, 0xb298cefd, 0xf4e8e96e, 0x7b201df8) == 0x8bf025c4;
    hide Value, NewValue;
    RowFrom(12, x, 0x80636261, 0, 0x18, 0, Regs(0x7f2e507b, 0x7beb9700, 0x8fae6399, 0x99d9679d),
            Regs(0x7b201df8, 0x8bf025c4, 0xb298cefd, 0xf4e8e96e));
  }

  lemma Row13(x: seq<Word>)
    requires IsAbc(x)
    ensures DoRow(13, x, Regs(0x7b201df8, 0x8bf025c4, 0xb298cefd, 0xf4e8e96e))
         == Regs(0x06cc5e8a, 0x3bfa2c27, 0x7d632dd0, 0x5b0d97aa)
  {
    assert Value(3, 6, 0x655b59c3, 0, 0x7b201df8, 0x8bf025c4, 0xb298cefd, 0xf4e8e96e) == 0x06cc5e8a;
    assert Value(3, 10, 0x8f0ccc92, 0, 0xf4e8e96e, 0x06cc5e8a, 0x8bf025c4, 0xb298cefd) == 0x5b0d97aa;
    assert Value(3, 15, 0xffeff47d, 0, 0xb298cefd, 0x5b0d97aa, 0x06cc5e8a, 0x8bf025c4) == 0x7d632dd0;
    assert Value(3, 21, 0x85845dd1, 0, 0x8bf025c4, 0x7d632dd0, 0x5b0d97aa, 0x06cc5e8a) == 0x3bfa2c27;
    hide Value, NewValue;
    RowFrom(13, x, 0, 0, 0, 0, Regs(0x7b201df8, 0x8bf025c4, 0xb298cefd, 0xf4e8e96e),
            Regs(0x06cc5e8a, 0x3bfa2c27, 0x7d632dd0, 0x5b0d97aa));
  }

  lemma Row14(x: seq<Word>)
    requires IsAbc(x)
    ensures DoRow(14, x, Regs(0x06cc5e8a, 0x3bfa2c27, 0x7d632dd0, 0x5b0d97aa))
         == Regs(0x7f81cc35, 0x7327d604, 0x4f9dbe3f, 0x094454ab)
  {
    assert Value(3, 6, 0x6fa87e4f, 0, 0x06cc5e8a, 0x3bfa2c27, 0x7d632dd0, 0x5b0d97aa) == 0x7f81cc35;
    assert Value(3, 10, 0xfe2ce6e0, 0, 0x5b0d97aa, 0x7f81cc35, 0x3bfa2c27, 0x7d632dd0) == 0x094454ab;
    assert Value(3, 15, 0xa3014314, 0, 0x7d632dd0, 0x094454ab, 0x7f81cc35, 0x3bfa2c27) == 0x4f9dbe3f;
    assert Value(3, 21, 0x4e0811a1, 0, 0x3bfa2c27, 0x4f9dbe3f, 0x094454ab, 0x7f81cc35) == 0x7327d604;
    hide Value, NewValue;
    RowFrom(14, x, 0, 0, 0, 0, Regs(0x06cc5e8a, 0x3bfa2c27, 0x7d632dd0, 0x5b0d97aa),
            Regs(0x7f81cc35, 0x7327d604, 0x4f9dbe3f, 0x094454ab));
  }

  lemma Row15(x: seq<Word>)
    requires IsAbc(x)
    ensures DoRow(15, x, Regs(0x7f81cc35, 0x7327d604, 0x4f9dbe3f, 0x094454ab))
         == Regs(0x310ade8f, 0xc08226b3, 0xe484b9d8, 0x624d8cb2)
  {
    assert Value(3, 6, 0xf7537e82, 0, 0x7f81cc35, 0x7327d604, 0x4f9dbe3f, 0x094454ab) == 0x310ade8f;
    assert Value(3, 10, 0xbd3af235, 0, 0x094454ab, 0x310ade8f, 0x7327d604, 0x4f9dbe3f) == 0x624d8cb2;
    assert Value(3, 15, 0x2ad7d2bb, 0, 0x4f9dbe3f, 0x624d8cb2, 0x310ade8f, 0x7327d604) == 0xe484b9d8;
    assert Value(3, 21, 0xeb86d391, 0, 0x7327d604, 0xe484b9d8, 0x624d8cb2, 0x310ade8f) == 0xc08226b3;
    hide Value, NewValue;
    RowFrom(15, x, 0, 0, 0, 0, Regs(0x7f81cc35, 0x7327d604, 0x4f9dbe3f, 0x094454ab),
            Regs(0x310ade8f, 0xc08226b3, 0xe484b9d8, 0x624d8cb2));
  }

  lemma Round1(x: seq<Word>)
    requires IsAbc(x)
    ensures Rows(4, x, Initial()) == Regs(0xdda9b9a6, 0x72aff2e0, 0xe396856b, 0xa1051895)
  {
    hide DoRow;
    assert Rows(0, x, Initial()) == Initial();
    hide Rows;
    Row0(x);
    NextRow(x, 0, Regs(0x67452301, 0xefcdab89, 0x98badcfe, 0x10325476),
            Regs(0xd6d117b4, 0x7ad956f2, 0x2f6fbd72, 0x344a8432));
    Row1(x);
    NextRow(x, 1, Regs(0xd6d117b4, 0x7ad956f2, 0x2f6fbd72, 0x344a8432),
            Regs(0xc73741ef, 0x928d99f6, 0x207dc67b, 0x8bac3051));
    Row2(x);
    NextRow(x, 2, Regs(0xc73741ef, 0x928d99f6, 0x207dc67b, 0x8bac3051),
            Regs(0x854b3712, 0x5ed49596, 0x3020401c, 0x74e2f284));
    Row3(x);
    NextRow(x, 3, Regs(0x854b3712, 0x5ed49596, 0x3020401c, 0x74e2f284),
            Regs(0xdda9b9a6, 0x72aff2e0, 0xe396856b, 0xa1051895));
  }

  lemma Round2(x: seq<Word>)
    requires IsAbc(x)
    ensures Rows(8, x, Initial()) == Regs(0x790a77fb, 0x726342d3, 0xa62884aa, 0x9f47e4f8)
  {
    hide DoRow;
    Round1(x);
    hide Rows;
    Row4(x);
    NextRow(x, 4, Regs(0xdda9b9a6, 0x72aff2e0, 0xe396856b, 0xa1051895),
            Regs(0x3e9e9126, 0xb5b204e4, 0xe25e1652, 0x4a1d804e));
    Row5(x);
    NextRow(x, 5, Regs(0x3e9e9126, 0xb5b204e4, 0xe25e1652, 0x4a1d804e),
            Regs(0x59a8ffda, 0x47092c07, 0xabfc7920, 0x6d002f1e));
    Row6(x);
    NextRow(x, 6, Regs(0x59a8ffda, 0x47092c07, 0xabfc7920, 0x6d002f1e),
            Regs(0xb7f268cf, 0x786acb8f, 0xfe1623b1, 0x09388eff));
    Row7(x);
    NextRow(x, 7, Regs(0xb7f268cf, 0x786acb8f, 0xfe1623b1, 0x09388eff),
            Regs(0x790a77fb, 0x726342d3, 0xa62884aa, 0x9f47e4f8));
  }

  lemma Round3(x: seq<Word>)
    requires IsAbc(x)
    ensures Rows(12, x, Initial()) == Regs(0x7f2e507b, 0x7beb9700, 0x8fae6399, 0x99d9679d)
  {
    hide DoRow;
    Round2(x);
    hide Rows;
    Row8(x);
    NextRow(x, 8, Regs(0x790a77fb, 0x726342d3, 0xa62884aa, 0x9f47e4f8),
            Regs(0xb3707ebf, 0x3b0875c7, 0x8d212ff5, 0x60127b2e));
    Row9(x);
    NextRow(x, 9, Regs(0xb3707ebf, 0x3b0875c7, 0x8d212ff5, 0x60127b2e),
            Regs(0x21b117b9, 0x5a2f5ea5, 0x3575227e, 0x6e7429d5));
    Row10(x);
    NextRow(x, 10, Regs(0x21b117b9, 0x5a2f5ea5, 0x3575227e, 0x6e7429d5),
            Regs(0x11de1779, 0x4c6124f4, 0x31c465ca, 0xfadcaa38));
    Row11(x);
    NextRow(x, 11, Regs(0x11de1779, 0x4c6124f4, 0x31c465ca, 0xfadcaa38),
            Regs(0x7f2e507b, 0x7beb9700, 0x8fae6399, 0x99d9679d));
  }

  lemma Round4(x: seq<Word>)
    requires IsAbc(x)
    ensures Rows(16, x, Initial()) == Regs(0x310ade8f, 0xc08226b3, 0xe484b9d8, 0x624d8cb2)
  {
    hide DoRow;
    Round3(x);
    hide Rows;
    Row12(x);
    NextRow(x, 12, Regs(0x7f2e507b, 0x7beb9700, 0x8fae6399, 0x99d9679d),
            Regs(0x7b201df8, 0x8bf025c4, 0xb298cefd, 0xf4e8e96e));
    Row13(x);
    NextRow(x, 13, Regs(0x7b201df8, 0x8bf025c4, 0xb298cefd, 0xf4e8e96e),
            Regs(0x06cc5e8a, 0x3bfa2c27, 0x7d632dd0, 0x5b0d97aa));
    Row14(x);
    NextRow(x, 14, Regs(0x06cc5e8a, 0x3bfa2c27, 0x7d632dd0, 0x5b0d97aa),
            Regs(0x7f81cc35, 0x7327d604, 0x4f9dbe3f, 0x094454ab));
    Row15(x);
    NextRow(x, 15, Regs(0x7f81cc35, 0x7327d604, 0x4f9dbe3f, 0x094454ab),
            Regs(0x310ade8f, 0xc08226b3, 0xe484b9d8, 0x624d8cb2));
  }

  // ---------- the digest ----------

  lemma PaddedAbc()
    ensures var p := Padded(ABC);
      && |p| == BLOCK && p[..4] == [0x61, 0x62, 0x63, 0x80]
      && (forall i :: 4 <= i < 64 && i != 56 ==> p[i] == 0) && p[56] == 0x18
  {
    assert ZeroCount(3) == 52;
    assert Le64Enc(24) == [24, 0, 0, 0, 0, 0, 0, 0];
  }

  lemma WordFrom(p: seq<Byte>, t: nat, w: Word)
    requires |p| == BLOCK && t < 16 && Le32Dec(p[4 * t..4 * t + 4]) == w as int
    ensures WordAt(p, t) == w
  {
    hide LittleEndian, Le32Dec;
    FourBytes(p[4 * t..4 * t + 4]);
    assert (w as int) as Word == w;
  }

  lemma AbcDecoded(w: Word)
    requires w == 0x80636261
    ensures Le32Dec([0x61, 0x62, 0x63, 0x80]) == w as int
  {}

  lemma SmallDecoded(p: seq<Byte>, t: nat, w: Word)
    requires |p| == BLOCK && t < 16 && p[4 * t] == w as int && p[4 * t + 1] == 0 && p[4 * t + 2] == 0 && p[4 * t + 3] == 0
    ensures WordAt(p, t) == w
  {
    WordFrom(p, t, w);
  }

  lemma AbcIsParsed()
    ensures IsAbc(Words(Padded(ABC)))
  {
    var p := Padded(ABC);
    PaddedAbc();
    AbcDecoded(0x80636261);
    hide Padded, WordAt, Le32Dec;
    assert p[4 * 0..4 * 0 + 4] == p[..4];
    WordFrom(p, 0, 0x80636261);
    forall t | 1 <= t < 16 && t != 14 ensures WordAt(p, t) == 0 {
      SmallDecoded(p, t, 0);
    }
    SmallDecoded(p, 14, 0x18);
  }

  lemma AbcIsCompressed()
    ensures |Padded(ABC)| == BLOCK
    ensures Fold(Initial(), Padded(ABC), 1) == Regs(0x98500190, 0xb04fd23c, 0x7d3f96d6, 0x727fe128)
  {
    PaddedAbc();
    AbcIsParsed();
    Round4(Words(Padded(ABC)));
    assert Padded(ABC)[BLOCK * 0..BLOCK * 1] == Padded(ABC);
    hide Rows, Padded, Words;
    assert Fold(Initial(), Padded(ABC), 0) == Initial();
  }

  /** The digest of "abc" is the one published with the standard. */
  lemma DigestOfAbc()
    ensures Digest(ABC) == [0x90, 0x01, 0x50, 0x98] + [0x3c, 0xd2, 0x4f, 0xb0]
                         + [0xd6, 0x96, 0x3f, 0x7d] + [0x28, 0xe1, 0x7f, 0x72]
  {
    AbcIsCompressed();
    hide Fold, Padded;
    Encoded(0x98500190, 0xb04fd23c, 0x7d3f96d6, 0x727fe128);
  }

  lemma Encoded(a: Word, b: Word, c: Word, d: Word)
    requires a == 0x98500190 && b == 0xb04fd23c && c == 0x7d3f96d6 && d == 0x727fe128
    ensures LowFirst(a) == [0x90, 0x01, 0x50, 0x98] && LowFirst(b) == [0x3c, 0xd2, 0x4f, 0xb0]
    ensures LowFirst(c) == [0xd6, 0x96, 0x3f, 0x7d] && LowFirst(d) == [0x28, 0xe1, 0x7f, 0x72]
  {}

  predicate IsSum(z: Word, x: Word, y: Word) { z == x + y }

  lemma AddIsSum(x: Word, y: Word)
    ensures IsSum(Add(x, y), x, y)
  {}

  // Each register is the sum of what it was and of what the operations make of it;
  // words are added modulo 2^32.
  predicate IsNext(r: Regs, x: seq<Word>, r': Regs)
    requires |x| == 16
  {
    var v := Rows(16, x, r);
    IsSum(r'.a, r.a, v.a) && IsSum(r'.b, r.b, v.b) && IsSum(r'.c, r.c, v.c) && IsSum(r'.d, r.d, v.d)
  }

  /** The registers after one block more. */
  lemma NextRegisters(r: Regs, m: seq<Byte>, n: nat)
    requires BLOCK * (n + 1) <= |m|
    ensures IsNext(Fold(r, m, n), Words(m[BLOCK * n..BLOCK * (n + 1)]), Fold(r, m, n + 1)) && Fold(r, m, 0) == r
  {
    hide Rows, Words, Add, IsSum;
    forall x, y ensures IsSum(Add(x, y), x, y) {
      AddIsSum(x, y);
    }
  }
}
