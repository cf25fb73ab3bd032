/** The example of FIPS 180 for SHA-256: the message "abc", its schedule, the
    working variables after every step, and its digest. */
module Sha256Example {
  import opened HashBytes
  import opened Sha256
  import opened Sha256Stream

  const ABC: seq<Byte> := [0x61, 0x62, 0x63]

  // The sixteen words of the padded message.
  ghost predicate IsAbc(m: seq<Word>) {
    && |m| == 16 && m[0] == 0x61626380 && m[15] == 0x18
    && forall t :: 1 <= t < 15 ==> m[t] == 0
  }

  // One more word of the schedule.
  lemma NextWord(m: seq<Word>, t: nat, w2: Word, w7: Word, w15: Word, w16: Word)
    requires |m| == 16 && t >= 16
    requires Schedule(m, t - 2) == w2 && Schedule(m, t - 7) == w7
    requires Schedule(m, t - 15) == w15 && Schedule(m, t - 16) == w16
    ensures Schedule(m, t) == Add4(SmallSigma1(w2), w7, SmallSigma0(w15), w16)
  {}

  lemma Words0(m: seq<Word>)
    requires IsAbc(m)
    ensures Schedule(m, 0) == 0x61626380 && Schedule(m, 1) == 0x00000000
    ensures Schedule(m, 2) == 0x00000000 && Schedule(m, 3) == 0x00000000
    ensures Schedule(m, 4) == 0x00000000 && Schedule(m, 5) == 0x00000000
    ensures Schedule(m, 6) == 0x00000000 && Schedule(m, 7) == 0x00000000
    ensures Schedule(m, 8) == 0x00000000 && Schedule(m, 9) == 0x00000000
    ensures Schedule(m, 10) == 0x00000000 && Schedule(m, 11) == 0x00000000
    ensures Schedule(m, 12) == 0x00000000 && Schedule(m, 13) == 0x00000000
    ensures Schedule(m, 14) == 0x00000000 && Schedule(m, 15) == 0x00000018
  {
  }

  lemma Words16(m: seq<Word>)
    requires IsAbc(m)
    ensures Schedule(m, 16) == 0x61626380 && Schedule(m, 17) == 0x000f0000
    ensures Schedule(m, 18) == 0x7da86405 && Schedule(m, 19) == 0x600003c6
    ensures Schedule(m, 20) == 0x3e9d7b78 && Schedule(m, 21) == 0x0183fc00
    ensures Schedule(m, 22) == 0x12dcbfdb && Schedule(m, 23) == 0xe2e2c38e
    ensures Schedule(m, 24) == 0xc8215c1a && Schedule(m, 25) == 0xb73679a2
    ensures Schedule(m, 26) == 0xe5bc3909 && Schedule(m, 27) == 0x32663c5b
    ensures Schedule(m, 28) == 0x9d209d67 && Schedule(m, 29) == 0xec8726cb
    ensures Schedule(m, 30) == 0x702138a4 && Schedule(m, 31) == 0xd3b7973b
  {
    Words0(m);
    NextWord(m, 16, 0x00000000, 0x00000000, 0x00000000, 0x61626380);
    NextWord(m, 17, 0x00000018, 0x00000000, 0x00000000, 0x00000000);
    NextWord(m, 18, 0x61626380, 0x00000000, 0x00000000, 0x00000000);
    NextWord(m, 19, 0x000f0000, 0x00000000, 0x00000000, 0x00000000);
    NextWord(m, 20, 0x7da86405, 0x00000000, 0x00000000, 0x00000000);
    NextWord(m, 21, 0x600003c6, 0x00000000, 0x00000000, 0x00000000);
    NextWord(m, 22, 0x3e9d7b78, 0x00000018, 0x00000000, 0x00000000);
    NextWord(m, 23, 0x0183fc00, 0x61626380, 0x00000000, 0x00000000);
    NextWord(m, 24, 0x12dcbfdb, 0x000f0000, 0x00000000, 0x00000000);
    NextWord(m, 25, 0xe2e2c38e, 0x7da86405, 0x00000000, 0x00000000);
    NextWord(m, 26, 0xc8215c1a, 0x600003c6, 0x00000000, 0x00000000);
    NextWord(m, 27, 0xb73679a2, 0x3e9d7b78, 0x00000000, 0x00000000);
    NextWord(m, 28, 0xe5bc3909, 0x0183fc00, 0x00000000, 0x00000000);
    NextWord(m, 29, 0x32663c5b, 0x12dcbfdb, 0x00000000, 0x00000000);
    NextWord(m, 30, 0x9d209d67, 0xe2e2c38e, 0x00000018, 0x00000000);
    NextWord(m, 31, 0xec8726cb, 0xc8215c1a, 0x61626380, 0x00000018);
  }

  lemma Words32(m: seq<Word>)
    requires IsAbc(m)
    ensures Schedule(m, 32) == 0x93f5997f && Schedule(m, 33) == 0x3b68ba73
    ensures Schedule(m, 34) == 0xaff4ffc1 && Schedule(m, 35) == 0xf10a5c62
    ensures Schedule(m, 36) == 0x0a8b3996 && Schedule(m, 37) == 0x72af830a
    ensures Schedule(m, 38) == 0x9409e33e && Schedule(m, 39) == 0x24641522
    ensures Schedule(m, 40) == 0x9f47bf94 && Schedule(m, 41) == 0xf0a64f5a
    ensures Schedule(m, 42) == 0x3e246a79 && Schedule(m, 43) == 0x27333ba3
    ensures Schedule(m, 44) == 0x0c4763f2 && Schedule(m, 45) == 0x840abf27
    ensures Schedule(m, 46) == 0x7a290d5d && Schedule(m, 47) == 0x065c43da
  {
    Words16(m);
    NextWord(m, 32, 0x702138a4, 0xb73679a2, 0x000f0000, 0x61626380);
    NextWord(m, 33, 0xd3b7973b, 0xe5bc3909, 0x7da86405, 0x000f0000);
    NextWord(m, 34, 0x93f5997f, 0x32663c5b, 0x600003c6, 0x7da86405);
    NextWord(m, 35, 0x3b68ba73, 0x9d209d67, 0x3e9d7b78, 0x600003c6);
    NextWord(m, 36, 0xaff4ffc1, 0xec8726cb, 0x0183fc00, 0x3e9d7b78);
    NextWord(m, 37, 0xf10a5c62, 0x702138a4, 0x12dcbfdb, 0x0183fc00);
    NextWord(m, 38, 0x0a8b3996, 0xd3b7973b, 0xe2e2c38e, 0x12dcbfdb);
    NextWord(m, 39, 0x72af830a, 0x93f5997f, 0xc8215c1a, 0xe2e2c38e);
    NextWord(m, 40, 0x9409e33e, 0x3b68ba73, 0xb73679a2, 0xc8215c1a);
    NextWord(m, 41, 0x24641522, 0xaff4ffc1, 0xe5bc3909, 0xb73679a2);
    NextWord(m, 42, 0x9f47bf94, 0xf10a5c62, 0x32663c5b, 0xe5bc3909);
    NextWord(m, 43, 0xf0a64f5a, 0x0a8b3996, 0x9d209d67, 0x32663c5b);
    NextWord(m, 44, 0x3e246a79, 0x72af830a, 0xec8726cb, 0x9d209d67);
    NextWord(m, 45, 0x27333ba3, 0x9409e33e, 0x702138a4, 0xec8726cb);
    NextWord(m, 46, 0x0c4763f2, 0x24641522, 0xd3b7973b, 0x702138a4);
    NextWord(m, 47, 0x840abf27, 0x9f47bf94, 0x93f5997f, 0xd3b7973b);
  }

  lemma Words48(m: seq<Word>)
    requires IsAbc(m)
    ensures Schedule(m, 48) == 0xfb3e89cb && Schedule(m, 49) == 0xcc7617db
    ensures Schedule(m, 50) == 0xb9e66c34 && Schedule(m, 51) == 0xa9993667
    ensures Schedule(m, 52) == 0x84badedd && Schedule(m, 53) == 0xc21462bc
    ensures Schedule(m, 54) == 0x1487472c && Schedule(m, 55) == 0xb20f7a99
    ensures Schedule(m, 56) == 0xef57b9cd && Schedule(m, 57) == 0xebe6b238
    ensures Schedule(m, 58) == 0x9fe3095e && Schedule(m, 59) == 0x78bc8d4b
    ensures Schedule(m, 60) == 0xa43fcf15 && Schedule(m, 61) == 0x668b2ff8
    ensures Schedule(m, 62) == 0xeeaba2cc && Schedule(m, 63) == 0x12b1edeb
  {
    Words32(m);
    NextWord(m, 48, 0x7a290d5d, 0xf0a64f5a, 0x3b68ba73, 0x93f5997f);
    NextWord(m, 49, 0x065c43da, 0x3e246a79, 0xaff4ffc1, 0x3b68ba73);
    NextWord(m, 50, 0xfb3e89cb, 0x27333ba3, 0xf10a5c62, 0xaff4ffc1);
    NextWord(m, 51, 0xcc7617db, 0x0c4763f2, 0x0a8b3996, 0xf10a5c62);
    NextWord(m, 52, 0xb9e66c34, 0x840abf27, 0x72af830a, 0x0a8b3996);
    NextWord(m, 53, 0xa9993667, 0x7a290d5d, 0x9409e33e, 0x72af830a);
    NextWord(m, 54, 0x84badedd, 0x065c43da, 0x24641522, 0x9409e33e);
    NextWord(m, 55, 0xc21462bc, 0xfb3e89cb, 0x9f47bf94, 0x24641522);
    NextWord(m, 56, 0x1487472c, 0xcc7617db, 0xf0a64f5a, 0x9f47bf94);
    NextWord(m, 57, 0xb20f7a99, 0xb9e66c34, 0x3e246a79, 0xf0a64f5a);
    NextWord(m, 58, 0xef57b9cd, 0xa9993667, 0x27333ba3, 0x3e246a79);
    NextWord(m, 59, 0xebe6b238, 0x84badedd, 0x0c4763f2, 0x27333ba3);
    NextWord(m, 60, 0x9fe3095e, 0xc21462bc, 0x840abf27, 0x0c4763f2);
    NextWord(m, 61, 0x78bc8d4b, 0x1487472c, 0x7a290d5d, 0x840abf27);
    NextWord(m, 62, 0xa43fcf15, 0xb20f7a99, 0x065c43da, 0x7a290d5d);
    NextWord(m, 63, 0x668b2ff8, 0xef57b9cd, 0xfb3e89cb, 0x065c43da);
  }

  // One more step.
  lemma NextStep(m: seq<Word>, t: nat, r: Regs, k: Word, w: Word, r': Regs)
    requires |m| == 16 && t < 64 && Rounds(RegsOf(H0()), m, t) == r && K()[t] == k && Schedule(m, t) == w
    requires Step(r, k, w) == r'
    ensures Rounds(RegsOf(H0()), m, t + 1) == r'
  {}

  lemma Constants0()
    ensures var k := K();
      && k[0] == 0x428a2f98 && k[1] == 0x71374491 && k[2] == 0xb5c0fbcf && k[3] == 0xe9b5dba5
      && k[4] == 0x3956c25b && k[5] == 0x59f111f1 && k[6] == 0x923f82a4 && k[7] == 0xab1c5ed5
  {}

  lemma Constants8()
    ensures var k := K();
      && k[8] == 0xd807aa98 && k[9] == 0x12835b01 && k[10] == 0x243185be && k[11] == 0x550c7dc3
      && k[12] == 0x72be5d74 && k[13] == 0x80deb1fe && k[14] == 0x9bdc06a7 && k[15] == 0xc19bf174
  {}

  lemma Constants16()
    ensures var k := K();
      && k[16] == 0xe49b69c1 && k[17] == 0xefbe4786 && k[18] == 0x0fc19dc6 && k[19] == 0x240ca1cc
      && k[20] == 0x2de92c6f && k[21] == 0x4a7484aa && k[22] == 0x5cb0a9dc && k[23] == 0x76f988da
  {}

  lemma Constants24()
    ensures var k := K();
      && k[24] == 0x983e5152 && k[25] == 0xa831c66d && k[26] == 0xb00327c8 && k[27] == 0xbf597fc7
      && k[28] == 0xc6e00bf3 && k[29] == 0xd5a79147 && k[30] == 0x06ca6351 && k[31] == 0x14292967
  {}

  lemma Constants32()
    ensures var k := K();
      && k[32] == 0x27b70a85 && k[33] == 0x2e1b2138 && k[34] == 0x4d2c6dfc && k[35] == 0x53380d13
      && k[36] == 0x650a7354 && k[37] == 0x766a0abb && k[38] == 0x81c2c92e && k[39] == 0x92722c85
  {}

  lemma Constants40()
    ensures var k := K();
      && k[40] == 0xa2bfe8a1 && k[41] == 0xa81a664b && k[42] == 0xc24b8b70 && k[43] == 0xc76c51a3
      && k[44] == 0xd192e819 && k[45] == 0xd6990624 && k[46] == 0xf40e3585 && k[47] == 0x106aa070
  {}

  lemma Constants48()
    ensures var k := K();
      && k[48] == 0x19a4c116 && k[49] == 0x1e376c08 && k[50] == 0x2748774c && k[51] == 0x34b0bcb5
      && k[52] == 0x391c0cb3 && k[53] == 0x4ed8aa4a && k[54] == 0x5b9cca4f && k[55] == 0x682e6ff3
  {}

  lemma Constants56()
    ensures var k := K();
      && k[56] == 0x748f82ee && k[57] == 0x78a5636f && k[58] == 0x84c87814 && k[59] == 0x8cc70208
      && k[60] == 0x90befffa && k[61] == 0xa4506ceb && k[62] == 0xbef9a3f7 && k[63] == 0xc67178f2
  {}

  lemma Steps0(m: seq<Word>)
    requires IsAbc(m)
    ensures Rounds(RegsOf(H0()), m, 8)
         == Regs(0x85a07b5f, 0xe5030380, 0x2b4209f5, 0x04409a6a, 0x0c657a79, 0x9b27a401, 0x714260ad, 0x43ada245)
  {
    Words0(m);
    Constants0();
    assert Rounds(RegsOf(H0()), m, 0) == RegsOf(H0());
    hide Rounds, Schedule, K, IsAbc;
    var r0 := Regs(0x6a09e667, 0xbb67ae85, 0x3c6ef372, 0xa54ff53a, 0x510e527f, 0x9b05688c, 0x1f83d9ab, 0x5be0cd19);
    var r1 := Regs(0x5d6aebcd, 0x6a09e667, 0xbb67ae85, 0x3c6ef372, 0xfa2a4622, 0x510e527f, 0x9b05688c, 0x1f83d9ab);
    NextStep(m, 0, r0, 0x428a2f98, 0x61626380, r1);
    var r2 := Regs(0x5a6ad9ad, 0x5d6aebcd, 0x6a09e667, 0xbb67ae85, 0x78ce7989, 0xfa2a4622, 0x510e527f, 0x9b05688c);
    NextStep(m, 1, r1, 0x71374491, 0x00000000, r2);
    var r3 := Regs(0xc8c347a7, 0x5a6ad9ad, 0x5d6aebcd, 0x6a09e667, 0xf92939eb, 0x78ce7989, 0xfa2a4622, 0x510e527f);
    NextStep(m, 2, r2, 0xb5c0fbcf, 0x00000000, r3);
    var r4 := Regs(0xd550f666, 0xc8c347a7, 0x5a6ad9ad, 0x5d6aebcd, 0x24e00850, 0xf92939eb, 0x78ce7989, 0xfa2a4622);
    NextStep(m, 3, r3, 0xe9b5dba5, 0x00000000, r4);
    var r5 := Regs(0x04409a6a, 0xd550f666, 0xc8c347a7, 0x5a6ad9ad, 0x43ada245, 0x24e00850, 0xf92939eb, 0x78ce7989);
    NextStep(m, 4, r4, 0x3956c25b, 0x00000000, r5);
    var r6 := Regs(0x2b4209f5, 0x04409a6a, 0xd550f666, 0xc8c347a7, 0x714260ad, 0x43ada245, 0x24e00850, 0xf92939eb);
    NextStep(m, 5, r5, 0x59f111f1, 0x00000000, r6);
    var r7 := Regs(0xe5030380, 0x2b4209f5, 0x04409a6a, 0xd550f666, 0x9b27a401, 0x714260ad, 0x43ada245, 0x24e00850);
    NextStep(m, 6, r6, 0x923f82a4, 0x00000000, r7);
    var r8 := Regs(0x85a07b5f, 0xe5030380, 0x2b4209f5, 0x04409a6a, 0x0c657a79, 0x9b27a401, 0x714260ad, 0x43ada245);
    NextStep(m, 7, r7, 0xab1c5ed5, 0x00000000, r8);
  }

  lemma Steps8(m: seq<Word>)
    requires IsAbc(m)
    ensures Rounds(RegsOf(H0()), m, 16)
         == Regs(0xb0fa238e, 0xc0645fde, 0xd932eb16, 0x87912990, 0x07590dcd, 0x0b92f20c, 0x745a48de, 0x1e578218)
  {
    Words0(m);
    Constants8();
    Steps0(m);
    hide Rounds, Schedule, K, RegsOf, H0, IsAbc;
    var r8 := Regs(0x85a07b5f, 0xe5030380, 0x2b4209f5, 0x04409a6a, 0x0c657a79, 0x9b27a401, 0x714260ad, 0x43ada245);
    var r9 := Regs(0x8e04ecb9, 0x85a07b5f, 0xe5030380, 0x2b4209f5, 0x32ca2d8c, 0x0c657a79, 0x9b27a401, 0x714260ad);
    NextStep(m, 8, r8, 0xd807aa98, 0x00000000, r9);
    var r10 := Regs(0x8c87346b, 0x8e04ecb9, 0x85a07b5f, 0xe5030380, 0x1cc92596, 0x32ca2d8c, 0x0c657a79, 0x9b27a401);
    NextStep(m, 9, r9, 0x12835b01, 0x00000000, r10);
    var r11 := Regs(0x4798a3f4, 0x8c87346b, 0x8e04ecb9, 0x85a07b5f, 0x436b23e8, 0x1cc92596, 0x32ca2d8c, 0x0c657a79);
    NextStep(m, 10, r10, 0x243185be, 0x00000000, r11);
    var r12 := Regs(0xf71fc5a9, 0x4798a3f4, 0x8c87346b, 0x8e04ecb9, 0x816fd6e9, 0x436b23e8, 0x1cc92596, 0x32ca2d8c);
    NextStep(m, 11, r11, 0x550c7dc3, 0x00000000, r12);
    var r13 := Regs(0x87912990, 0xf71fc5a9, 0x4798a3f4, 0x8c87346b, 0x1e578218, 0x816fd6e9, 0x436b23e8, 0x1cc92596);
    NextStep(m, 12, r12, 0x72be5d74, 0x00000000, r13);
    var r14 := Regs(0xd932eb16, 0x87912990, 0xf71fc5a9, 0x4798a3f4, 0x745a48de, 0x1e578218, 0x816fd6e9, 0x436b23e8);
    NextStep(m, 13, r13, 0x80deb1fe, 0x00000000, r14);
    var r15 := Regs(0xc0645fde, 0xd932eb16, 0x87912990, 0xf71fc5a9, 0x0b92f20c, 0x745a48de, 0x1e578218, 0x816fd6e9);
    NextStep(m, 14, r14, 0x9bdc06a7, 0x00000000, r15);
    var r16 := Regs(0xb0fa238e, 0xc0645fde, 0xd932eb16, 0x87912990, 0x07590dcd, 0x0b92f20c, 0x745a48de, 0x1e578218);
    NextStep(m, 15, r15, 0xc19bf174, 0x00000018, r16);
  }

  lemma Steps16(m: seq<Word>)
    requires IsAbc(m)
    ensures Rounds(RegsOf(H0()), m, 24)
         == Regs(0xc5d53d8d, 0xa7a3623f, 0xc2606d6d, 0x9dc68b63, 0xaa47c347, 0x49f5114a, 0xe1257970, 0x8ada8930)
  {
    Words16(m);
    Constants16();
    Steps8(m);
    hide Rounds, Schedule, K, RegsOf, H0, IsAbc;
    var r16 := Regs(0xb0fa238e, 0xc0645fde, 0xd932eb16, 0x87912990, 0x07590dcd, 0x0b92f20c, 0x745a48de, 0x1e578218);
    var r17 := Regs(0x21da9a9b, 0xb0fa238e, 0xc0645fde, 0xd932eb16, 0x8034229c, 0x07590dcd, 0x0b92f20c, 0x745a48de);
    NextStep(m, 16, r16, 0xe49b69c1, 0x61626380, r17);
    var r18 := Regs(0xc2fbd9d1, 0x21da9a9b, 0xb0fa238e, 0xc0645fde, 0x846ee454, 0x8034229c, 0x07590dcd, 0x0b92f20c);
    NextStep(m, 17, r17, 0xefbe4786, 0x000f0000, r18);
    var r19 := Regs(0xfe777bbf, 0xc2fbd9d1, 0x21da9a9b, 0xb0fa238e, 0xcc899961, 0x846ee454, 0x8034229c, 0x07590dcd);
    NextStep(m, 18, r18, 0x0fc19dc6, 0x7da86405, r19);
    var r20 := Regs(0xe1f20c33, 0xfe777bbf, 0xc2fbd9d1, 0x21da9a9b, 0xb0638179, 0xcc899961, 0x846ee454, 0x8034229c);
    NextStep(m, 19, r19, 0x240ca1cc, 0x600003c6, r20);
    var r21 := Regs(0x9dc68b63, 0xe1f20c33, 0xfe777bbf, 0xc2fbd9d1, 0x8ada8930, 0xb0638179, 0xcc899961, 0x846ee454);
    NextStep(m, 20, r20, 0x2de92c6f, 0x3e9d7b78, r21);
    var r22 := Regs(0xc2606d6d, 0x9dc68b63, 0xe1f20c33, 0xfe777bbf, 0xe1257970, 0x8ada8930, 0xb0638179, 0xcc899961);
    NextStep(m, 21, r21, 0x4a7484aa, 0x0183fc00, r22);
    var r23 := Regs(0xa7a3623f, 0xc2606d6d, 0x9dc68b63, 0xe1f20c33, 0x49f5114a, 0xe1257970, 0x8ada8930, 0xb0638179);
    NextStep(m, 22, r22, 0x5cb0a9dc, 0x12dcbfdb, r23);
    var r24 := Regs(0xc5d53d8d, 0xa7a3623f, 0xc2606d6d, 0x9dc68b63, 0xaa47c347, 0x49f5114a, 0xe1257970, 0x8ada8930);
    NextStep(m, 23, r23, 0x76f988da, 0xe2e2c38e, r24);
  }

  lemma Steps24(m: seq<Word>)
    requires IsAbc(m)
    ensures Rounds(RegsOf(H0()), m, 32)
         == Regs(0x73b33bf5, 0xea992a22, 0xa0060b30, 0x363482c9, 0xba591112, 0x0109ab3a, 0xade79437, 0x6112a3b7)
  {
    Words16(m);
    Constants24();
    Steps16(m);
    hide Rounds, Schedule, K, RegsOf, H0, IsAbc;
    var r24 := Regs(0xc5d53d8d, 0xa7a3623f, 0xc2606d6d, 0x9dc68b63, 0xaa47c347, 0x49f5114a, 0xe1257970, 0x8ada8930);
    var r25 := Regs(0x1c2c2838, 0xc5d53d8d, 0xa7a3623f, 0xc2606d6d, 0x2823ef91, 0xaa47c347, 0x49f5114a, 0xe1257970);
    NextStep(m, 24, r24, 0x983e5152, 0xc8215c1a, r25);
    var r26 := Regs(0xcde8037d, 0x1c2c2838, 0xc5d53d8d, 0xa7a3623f, 0x14383d8e, 0x2823ef91, 0xaa47c347, 0x49f5114a);
    NextStep(m, 25, r25, 0xa831c66d, 0xb73679a2, r26);
    var r27 := Regs(0xb62ec4bc, 0xcde8037d, 0x1c2c2838, 0xc5d53d8d, 0xc74c6516, 0x14383d8e, 0x2823ef91, 0xaa47c347);
    NextStep(m, 26, r26, 0xb00327c8, 0xe5bc3909, r27);
    var r28 := Regs(0x77d37528, 0xb62ec4bc, 0xcde8037d, 0x1c2c2838, 0xedffbff8, 0xc74c6516, 0x14383d8e, 0x2823ef91);
    NextStep(m, 27, r27, 0xbf597fc7, 0x32663c5b, r28);
    var r29 := Regs(0x363482c9, 0x77d37528, 0xb62ec4bc, 0xcde8037d, 0x6112a3b7, 0xedffbff8, 0xc74c6516, 0x14383d8e);
    NextStep(m, 28, r28, 0xc6e00bf3, 0x9d209d67, r29);
    var r30 := Regs(0xa0060b30, 0x363482c9, 0x77d37528, 0xb62ec4bc, 0xade79437, 0x6112a3b7, 0xedffbff8, 0xc74c6516);
    NextStep(m, 29, r29, 0xd5a79147, 0xec8726cb, r30);
    var r31 := Regs(0xea992a22, 0xa0060b30, 0x363482c9, 0x77d37528, 0x0109ab3a, 0xade79437, 0x6112a3b7, 0xedffbff8);
    NextStep(m, 30, r30, 0x06ca6351, 0x702138a4, r31);
    var r32 := Regs(0x73b33bf5, 0xea992a22, 0xa0060b30, 0x363482c9, 0xba591112, 0x0109ab3a, 0xade79437, 0x6112a3b7);
    NextStep(m, 31, r31, 0x14292967, 0xd3b7973b, r32);
  }

  lemma Steps32(m: seq<Word>)
    requires IsAbc(m)
    ensures Rounds(RegsOf(H0()), m, 40)
         == Regs(0x79ea687a, 0x6dc57a8a, 0x34df1604, 0x41a65cb1, 0x1efbc0a0, 0xf0781bc8, 0xa507a53d, 0x0772a26b)
  {
    Words32(m);
    Constants32();
    Steps24(m);
    hide Rounds, Schedule, K, RegsOf, H0, IsAbc;
    var r32 := Regs(0x73b33bf5, 0xea992a22, 0xa0060b30, 0x363482c9, 0xba591112, 0x0109ab3a, 0xade79437, 0x6112a3b7);
    var r33 := Regs(0x98e12507, 0x73b33bf5, 0xea992a22, 0xa0060b30, 0x9cd9f5f6, 0xba591112, 0x0109ab3a, 0xade79437);
    NextStep(m, 32, r32, 0x27b70a85, 0x93f5997f, r33);
    var r34 := Regs(0xfe604df5, 0x98e12507, 0x73b33bf5, 0xea992a22, 0x59249dd3, 0x9cd9f5f6, 0xba591112, 0x0109ab3a);
    NextStep(m, 33, r33, 0x2e1b2138, 0x3b68ba73, r34);
    var r35 := Regs(0xa9a7738c, 0xfe604df5, 0x98e12507, 0x73b33bf5, 0x085f3833, 0x59249dd3, 0x9cd9f5f6, 0xba591112);
    NextStep(m, 34, r34, 0x4d2c6dfc, 0xaff4ffc1, r35);
    var r36 := Regs(0x65a0cfe4, 0xa9a7738c, 0xfe604df5, 0x98e12507, 0xf4b002d6, 0x085f3833, 0x59249dd3, 0x9cd9f5f6);
    NextStep(m, 35, r35, 0x53380d13, 0xf10a5c62, r36);
    var r37 := Regs(0x41a65cb1, 0x65a0cfe4, 0xa9a7738c, 0xfe604df5, 0x0772a26b, 0xf4b002d6, 0x085f3833, 0x59249dd3);
    NextStep(m, 36, r36, 0x650a7354, 0x0a8b3996, r37);
    var r38 := Regs(0x34df1604, 0x41a65cb1, 0x65a0cfe4, 0xa9a7738c, 0xa507a53d, 0x0772a26b, 0xf4b002d6, 0x085f3833);
    NextStep(m, 37, r37, 0x766a0abb, 0x72af830a, r38);
    var r39 := Regs(0x6dc57a8a, 0x34df1604, 0x41a65cb1, 0x65a0cfe4, 0xf0781bc8, 0xa507a53d, 0x0772a26b, 0xf4b002d6);
    NextStep(m, 38, r38, 0x81c2c92e, 0x9409e33e, r39);
    var r40 := Regs(0x79ea687a, 0x6dc57a8a, 0x34df1604, 0x41a65cb1, 0x1efbc0a0, 0xf0781bc8, 0xa507a53d, 0x0772a26b);
    NextStep(m, 39, r39, 0x92722c85, 0x24641522, r40);
  }

  lemma Steps40(m: seq<Word>)
    requires IsAbc(m)
    ensures Rounds(RegsOf(H0()), m, 48)
         == Regs(0x4172328d, 0xa14c14b0, 0x72ab4b91, 0x26628815, 0xfecf0bc6, 0xd57b94a9, 0xb7755da1, 0xa80f11f0)
  {
    Words32(m);
    Constants40();
    Steps32(m);
    hide Rounds, Schedule, K, RegsOf, H0, IsAbc;
    var r40 := Regs(0x79ea687a, 0x6dc57a8a, 0x34df1604, 0x41a65cb1, 0x1efbc0a0, 0xf0781bc8, 0xa507a53d, 0x0772a26b);
    var r41 := Regs(0xd6670766, 0x79ea687a, 0x6dc57a8a, 0x34df1604, 0x26352d63, 0x1efbc0a0, 0xf0781bc8, 0xa507a53d);
    NextStep(m, 40, r40, 0xa2bfe8a1, 0x9f47bf94, r41);
    var r42 := Regs(0xdf46652f, 0xd6670766, 0x79ea687a, 0x6dc57a8a, 0x838b2711, 0x26352d63, 0x1efbc0a0, 0xf0781bc8);
    NextStep(m, 41, r41, 0xa81a664b, 0xf0a64f5a, r42);
    var r43 := Regs(0x17aa0dfe, 0xdf46652f, 0xd6670766, 0x79ea687a, 0xdecd4715, 0x838b2711, 0x26352d63, 0x1efbc0a0);
    NextStep(m, 42, r42, 0xc24b8b70, 0x3e246a79, r43);
    var r44 := Regs(0x9d4baf93, 0x17aa0dfe, 0xdf46652f, 0xd6670766, 0xfda24c2e, 0xdecd4715, 0x838b2711, 0x26352d63);
    NextStep(m, 43, r43, 0xc76c51a3, 0x27333ba3, r44);
    var r45 := Regs(0x26628815, 0x9d4baf93, 0x17aa0dfe, 0xdf46652f, 0xa80f11f0, 0xfda24c2e, 0xdecd4715, 0x838b2711);
    NextStep(m, 44, r44, 0xd192e819, 0x0c4763f2, r45);
    var r46 := Regs(0x72ab4b91, 0x26628815, 0x9d4baf93, 0x17aa0dfe, 0xb7755da1, 0xa80f11f0, 0xfda24c2e, 0xdecd4715);
    NextStep(m, 45, r45, 0xd6990624, 0x840abf27, r46);
    var r47 := Regs(0xa14c14b0, 0x72ab4b91, 0x26628815, 0x9d4baf93, 0xd57b94a9, 0xb7755da1, 0xa80f11f0, 0xfda24c2e);
    NextStep(m, 46, r46, 0xf40e3585, 0x7a290d5d, r47);
    var r48 := Regs(0x4172328d, 0xa14c14b0, 0x72ab4b91, 0x26628815, 0xfecf0bc6, 0xd57b94a9, 0xb7755da1, 0xa80f11f0);
    NextStep(m, 47, r47, 0x106aa070, 0x065c43da, r48);
  }

  lemma Steps48(m: seq<Word>)
    requires IsAbc(m)
    ensures Rounds(RegsOf(H0()), m, 56)
         == Regs(0x38cc9913, 0x3ec45cdb, 0xf5702fdb, 0x101fd28f, 0x54cb266b, 0xe50e1b4f, 0x9f4787c3, 0x529e7d00)
  {
    Words48(m);
    Constants48();
    Steps40(m);
    hide Rounds, Schedule, K, RegsOf, H0, IsAbc;
    var r48 := Regs(0x4172328d, 0xa14c14b0, 0x72ab4b91, 0x26628815, 0xfecf0bc6, 0xd57b94a9, 0xb7755da1, 0xa80f11f0);
    var r49 := Regs(0x05757ceb, 0x4172328d, 0xa14c14b0, 0x72ab4b91, 0xbd714038, 0xfecf0bc6, 0xd57b94a9, 0xb7755da1);
    NextStep(m, 48, r48, 0x19a4c116, 0xfb3e89cb, r49);
    var r50 := Regs(0xf11bfaa8, 0x05757ceb, 0x4172328d, 0xa14c14b0, 0x6e5c390c, 0xbd714038, 0xfecf0bc6, 0xd57b94a9);
    NextStep(m, 49, r49, 0x1e376c08, 0xcc7617db, r50);
    var r51 := Regs(0x7a0508a1, 0xf11bfaa8, 0x05757ceb, 0x4172328d, 0x52f1ccf7, 0x6e5c390c, 0xbd714038, 0xfecf0bc6);
    NextStep(m, 50, r50, 0x2748774c, 0xb9e66c34, r51);
    var r52 := Regs(0x886e7a22, 0x7a0508a1, 0xf11bfaa8, 0x05757ceb, 0x49231c1e, 0x52f1ccf7, 0x6e5c390c, 0xbd714038);
    NextStep(m, 51, r51, 0x34b0bcb5, 0xa9993667, r52);
    var r53 := Regs(0x101fd28f, 0x886e7a22, 0x7a0508a1, 0xf11bfaa8, 0x529e7d00, 0x49231c1e, 0x52f1ccf7, 0x6e5c390c);
    NextStep(m, 52, r52, 0x391c0cb3, 0x84badedd, r53);
    var r54 := Regs(0xf5702fdb, 0x101fd28f, 0x886e7a22, 0x7a0508a1, 0x9f4787c3, 0x529e7d00, 0x49231c1e, 0x52f1ccf7);
    NextStep(m, 53, r53, 0x4ed8aa4a, 0xc21462bc, r54);
    var r55 := Regs(0x3ec45cdb, 0xf5702fdb, 0x101fd28f, 0x886e7a22, 0xe50e1b4f, 0x9f4787c3, 0x529e7d00, 0x49231c1e);
    NextStep(m, 54, r54, 0x5b9cca4f, 0x1487472c, r55);
    var r56 := Regs(0x38cc9913, 0x3ec45cdb, 0xf5702fdb, 0x101fd28f, 0x54cb266b, 0xe50e1b4f, 0x9f4787c3, 0x529e7d00);
    NextStep(m, 55, r55, 0x682e6ff3, 0xb20f7a99, r56);
  }

  lemma Steps56(m: seq<Word>)
    requires IsAbc(m)
    ensures Rounds(RegsOf(H0()), m, 64)
         == Regs(0x506e3058, 0xd39a2165, 0x04d24d6c, 0xb85e2ce9, 0x5ef50f24, 0xfb121210, 0x948d25b6, 0x961f4894)
  {
    Words48(m);
    Constants56();
    Steps48(m);
    hide Rounds, Schedule, K, RegsOf, H0, IsAbc;
    var r56 := Regs(0x38cc9913, 0x3ec45cdb, 0xf5702fdb, 0x101fd28f, 0x54cb266b, 0xe50e1b4f, 0x9f4787c3, 0x529e7d00);
    var r57 := Regs(0xfcd1887b, 0x38cc9913, 0x3ec45cdb, 0xf5702fdb, 0x9b5e906c, 0x54cb266b, 0xe50e1b4f, 0x9f4787c3);
    NextStep(m, 56, r56, 0x748f82ee, 0xef57b9cd, r57);
    var r58 := Regs(0xc062d46f, 0xfcd1887b, 0x38cc9913, 0x3ec45cdb, 0x7e44008e, 0x9b5e906c, 0x54cb266b, 0xe50e1b4f);
    NextStep(m, 57, r57, 0x78a5636f, 0xebe6b238, r58);
    var r59 := Regs(0xffb70472, 0xc062d46f, 0xfcd1887b, 0x38cc9913, 0x6d83bfc6, 0x7e44008e, 0x9b5e906c, 0x54cb266b);
    NextStep(m, 58, r58, 0x84c87814, 0x9fe3095e, r59);
    var r60 := Regs(0xb6ae8fff, 0xffb70472, 0xc062d46f, 0xfcd1887b, 0xb21bad3d, 0x6d83bfc6, 0x7e44008e, 0x9b5e906c);
    NextStep(m, 59, r59, 0x8cc70208, 0x78bc8d4b, r60);
    var r61 := Regs(0xb85e2ce9, 0xb6ae8fff, 0xffb70472, 0xc062d46f, 0x961f4894, 0xb21bad3d, 0x6d83bfc6, 0x7e44008e);
    NextStep(m, 60, r60, 0x90befffa, 0xa43fcf15, r61);
    var r62 := Regs(0x04d24d6c, 0xb85e2ce9, 0xb6ae8fff, 0xffb70472, 0x948d25b6, 0x961f4894, 0xb21bad3d, 0x6d83bfc6);
    NextStep(m, 61, r61, 0xa4506ceb, 0x668b2ff8, r62);
    var r63 := Regs(0xd39a2165, 0x04d24d6c, 0xb85e2ce9, 0xb6ae8fff, 0xfb121210, 0x948d25b6, 0x961f4894, 0xb21bad3d);
    NextStep(m, 62, r62, 0xbef9a3f7, 0xeeaba2cc, r63);
    var r64 := Regs(0x506e3058, 0xd39a2165, 0x04d24d6c, 0xb85e2ce9, 0x5ef50f24, 0xfb121210, 0x948d25b6, 0x961f4894);
    NextStep(m, 63, r63, 0xc67178f2, 0x12b1edeb, r64);
  }

  // ---------- the digest ----------

  lemma PaddedAbc()
    ensures var p := Padded(ABC);
      && |p| == BLOCK && p[..4] == [0x61, 0x62, 0x63, 0x80]
      && (forall i :: 4 <= i < 63 ==> p[i] == 0) && p[63] == 0x18
  {
    assert ZeroCount(3) == 52;
    assert Be64Enc(24) == [0, 0, 0, 0, 0, 0, 0, 24];
  }

  lemma FirstWord(p: seq<Byte>)
    requires |p| == BLOCK && p[..4] == [0x61, 0x62, 0x63, 0x80]
    ensures WordAt(p, 0) == 0x61626380
  {
    hide WordAt, Be32Dec;
    assert p[4 * 0..4 * 0 + 4] == p[..4];
    AbcDecoded(0x61626380);
    WordFrom(p, 0, 0x61626380);
  }

  lemma AbcDecoded(w: Word)
    requires w == 0x61626380
    ensures Be32Dec([0x61, 0x62, 0x63, 0x80]) == w as int
  {
    assert [0x61, 0x62, 0x63, 0x80][2..] == [0x63, 0x80];
  }

  lemma WordFrom(p: seq<Byte>, t: nat, w: Word)
    requires |p| == BLOCK && t < 16 && Be32Dec(p[4 * t..4 * t + 4]) == w as int
    ensures WordAt(p, t) == w
  {
    hide BigEndian, Be32Dec;
    FourBytes(p[4 * t..4 * t + 4]);
    assert (w as int) as Word == w;
  }

  lemma SmallWord(p: seq<Byte>, t: nat)
    requires |p| == BLOCK && t < 16 && p[4 * t] == 0 && p[4 * t + 1] == 0 && p[4 * t + 2] == 0
    ensures WordAt(p, t) == p[4 * t + 3] as Word
  {
    FourBytes(p[4 * t..4 * t + 4]);
  }

  lemma AbcIsParsed()
    ensures IsAbc(Parse(Padded(ABC)))
  {
    var p := Padded(ABC);
    PaddedAbc();
    hide Padded, WordAt;
    FirstWord(p);
    forall t | 1 <= t < 15 ensures WordAt(p, t) == 0 {
      SmallWord(p, t);
    }
    SmallWord(p, 15);
  }

  lemma AbcIsCompressed()
    ensures Compress(H0(), Padded(ABC)) == [0xba7816bf, 0x8f01cfea, 0x414140de, 0x5dae2223,
                                            0xb00361a3, 0x96177a9c, 0xb410ff61, 0xf20015ad]
  {
    var m := Parse(Padded(ABC));
    PaddedAbc();
    AbcIsParsed();
    Steps56(m);
    hide Rounds, Padded, Parse;
  }

  // The bytes of the digest, a word at a time.
  lemma BytesOf(s: seq<Word>, i: nat, w: Word, p: seq<Byte>, q: seq<Byte>)
    requires i < |s| && s[i] == w && WordBytes(s[..i]) == p && Be32Enc(w as int) == q
    ensures WordBytes(s[..i + 1]) == p + q
  {
    OneMoreWord(s, i);
  }

  lemma AbcIsOneBlock()
    ensures |Padded(ABC)| == BLOCK && Fold(Padded(ABC), 1) == Compress(H0(), Padded(ABC))
  {
    PaddedAbc();
    assert Padded(ABC)[BLOCK * 0..BLOCK * 1] == Padded(ABC);
    hide Compress, Padded;
    assert Fold(Padded(ABC), 0) == H0();
  }

  /** The digest of "abc" is the one published with the standard. */
  lemma DigestOfAbc()
    ensures Digest(ABC) == [0xba, 0x78, 0x16, 0xbf] + [0x8f, 0x01, 0xcf, 0xea] + [0x41, 0x41, 0x40, 0xde] + [0x5d, 0xae, 0x22, 0x23]
                         + [0xb0, 0x03, 0x61, 0xa3] + [0x96, 0x17, 0x7a, 0x9c] + [0xb4, 0x10, 0xff, 0x61] + [0xf2, 0x00, 0x15, 0xad]
  {
    AbcIsOneBlock();
    AbcIsCompressed();
    AbcBytes(Compress(H0(), Padded(ABC)));
  }

  lemma AbcBytes(s: seq<Word>)
    requires s == [0xba7816bf, 0x8f01cfea, 0x414140de, 0x5dae2223,
                   0xb00361a3, 0x96177a9c, 0xb410ff61, 0xf20015ad]
    ensures WordBytes(s) == [0xba, 0x78, 0x16, 0xbf] + [0x8f, 0x01, 0xcf, 0xea] + [0x41, 0x41, 0x40, 0xde] + [0x5d, 0xae, 0x22, 0x23]
                          + [0xb0, 0x03, 0x61, 0xa3] + [0x96, 0x17, 0x7a, 0x9c] + [0xb4, 0x10, 0xff, 0x61] + [0xf2, 0x00, 0x15, 0xad]
  {
    hide WordBytes, Be32Enc;
    NoWords(s[..0]);
    var p0: seq<Byte> := [0xba, 0x78, 0x16, 0xbf];
    Encoded0();
    BytesOf(s, 0, 0xba7816bf, [], p0);
    var p1: seq<Byte> := [0x8f, 0x01, 0xcf, 0xea];
    Encoded1();
    BytesOf(s, 1, 0x8f01cfea, p0, p1);
    var p2: seq<Byte> := [0x41, 0x41, 0x40, 0xde];
    Encoded2();
    BytesOf(s, 2, 0x414140de, p0 + p1, p2);
    var p3: seq<Byte> := [0x5d, 0xae, 0x22, 0x23];
    Encoded3();
    BytesOf(s, 3, 0x5dae2223, p0 + p1 + p2, p3);
    var p4: seq<Byte> := [0xb0, 0x03, 0x61, 0xa3];
    Encoded4();
    BytesOf(s, 4, 0xb00361a3, p0 + p1 + p2 + p3, p4);
    var p5: seq<Byte> := [0x96, 0x17, 0x7a, 0x9c];
    Encoded5();
    BytesOf(s, 5, 0x96177a9c, p0 + p1 + p2 + p3 + p4, p5);
    var p6: seq<Byte> := [0xb4, 0x10, 0xff, 0x61];
    Encoded6();
    BytesOf(s, 6, 0xb410ff61, p0 + p1 + p2 + p3 + p4 + p5, p6);
    var p7: seq<Byte> := [0xf2, 0x00, 0x15, 0xad];
    Encoded7();
    BytesOf(s, 7, 0xf20015ad, p0 + p1 + p2 + p3 + p4 + p5 + p6, p7);
    assert s[..8] == s && [] + p0 == p0;
  }

  lemma Encoded0()
    ensures Be32Enc(0xba7816bf as int) == [0xba, 0x78, 0x16, 0xbf]
  {}

  lemma Encoded1()
    ensures Be32Enc(0x8f01cfea as int) == [0x8f, 0x01, 0xcf, 0xea]
  {}

  lemma Encoded2()
    ensures Be32Enc(0x414140de as int) == [0x41, 0x41, 0x40, 0xde]
  {}

  lemma Encoded3()
    ensures Be32Enc(0x5dae2223 as int) == [0x5d, 0xae, 0x22, 0x23]
  {}

  lemma Encoded4()
    ensures Be32Enc(0xb00361a3 as int) == [0xb0, 0x03, 0x61, 0xa3]
  {}

  lemma Encoded5()
    ensures Be32Enc(0x96177a9c as int) == [0x96, 0x17, 0x7a, 0x9c]
  {}

  lemma Encoded6()
    ensures Be32Enc(0xb410ff61 as int) == [0xb4, 0x10, 0xff, 0x61]
  {}

  lemma Encoded7()
    ensures Be32Enc(0xf20015ad as int) == [0xf2, 0x00, 0x15, 0xad]
  {}
}
