/**
 The known answer of FIPS 180-4 for the three bytes "abc": the definitions of module Sha256, with their constants,
 rotations and byte order, are SHA-256.
 */
module Sha256Check {
  import opened Bytes
  import opened Sha256

  const ABC: seq<byte> := [0x61, 0x62, 0x63]

  // ----- what holds of every schedule -----

  /** A word of the schedule is a word of the block, or follows from four earlier ones. */
  predicate Follows(block: seq<byte>, w: seq<Word>, t: nat)
    requires |block| == 64 && t < |w|
  {
    if t < 16 then w[t] == WordOf(block[4 * t..4 * t + 4])
    else w[t] == Sum(SmallSigma1(w[t - 2]), w[t - 7], SmallSigma0(w[t - 15]), w[t - 16])
  }

  predicate Recurs(block: seq<byte>, w: seq<Word>)
    requires |block| == 64
  {
    forall t :: 0 <= t < |w| ==> Follows(block, w, t)
  }

  lemma {:induction false} ScheduleRecurs(block: seq<byte>, n: nat)
    requires |block| == 64 && n <= 64
    ensures Recurs(block, Schedule(block, n))
  {
    hide WordOf, Sum, SmallSigma0, SmallSigma1;
    if n > 0 {
      ScheduleRecurs(block, n - 1);
      var v, w := Schedule(block, n - 1), Schedule(block, n);
      forall t | 0 <= t < n ensures Follows(block, w, t) {
        assert t < n - 1 ==> Follows(block, v, t);
      }
    }
  }

  lemma WordFrom(block: seq<byte>, w: seq<Word>, t: nat, a: Word, b: Word, c: Word, d: Word, x: Word)
    requires |block| == 64 && Recurs(block, w) && 16 <= t < |w|
    requires w[t - 2] == a && w[t - 7] == b && w[t - 15] == c && w[t - 16] == d && Sum(SmallSigma1(a), b, SmallSigma0(c), d) == x
    ensures w[t] == x
  {
    hide WordOf, Sum, SmallSigma0, SmallSigma1;
    assert Follows(block, w, t);
  }

  lemma Turn(w: seq<Word>, t: nat, v: State, k: Word, x: Word, next: State)
    requires t < |w| == 64 && Rounds(INITIAL, w[..t]) == v && RoundConstant(t) == k && w[t] == x && Round(v, k, x) == next
    ensures Rounds(INITIAL, w[..t + 1]) == next
  {
    hide Round, RoundConstant;
    assert w[..t + 1][..t] == w[..t];
  }

  // ----- the block of "abc" -----

  function Block(): (b: seq<byte>)
    ensures |b| == 64
  {
    ABC + [0x80] + Zeros(59) + [0x18]
  }

  lemma PaddedAbc()
    ensures Padded(ABC) == Block()
  {
    assert ZeroCount(3) == 52 && BigEndian32(24) == [0, 0, 0, 0x18] && BigEndian32(0) == [0, 0, 0, 0];
    assert BitLength(ABC) == [0, 0, 0, 0, 0, 0, 0, 0x18];
  }

  lemma FirstWords(w: seq<Word>)
    requires |w| == 64 && Recurs(Block(), w)
    ensures w[0] == 0x61626380 && w[15] == 0x18 && forall t :: 1 <= t < 15 ==> w[t] == 0
  {
    hide WordOf;
    var b := Block();
    ThreeWords();
    assert b[4 * 0..4 * 0 + 4] == [0x61, 0x62, 0x63, 0x80] && b[4 * 15..4 * 15 + 4] == [0, 0, 0, 0x18];
    assert Follows(b, w, 0) && Follows(b, w, 15);
    forall t | 1 <= t < 15 ensures w[t] == 0 {
      assert b[4 * t..4 * t + 4] == [0, 0, 0, 0];
      assert Follows(b, w, t);
    }
  }

  lemma ThreeWords()
    ensures WordOf([0x61, 0x62, 0x63, 0x80]) == 0x61626380 && WordOf([0, 0, 0, 0]) == 0 && WordOf([0, 0, 0, 0x18]) == 0x18
  {
    hide Wide;
    WideBytes();
  }

  lemma WideBytes()
    ensures Wide(0) == 0 && Wide(0x18) == 0x18 && Wide(0x61) == 0x61 && Wide(0x62) == 0x62 && Wide(0x63) == 0x63 && Wide(0x80) == 0x80
  {
  }

  lemma Words16(w: seq<Word>)
    requires |w| == 64 && Recurs(Block(), w)
    requires w[0] == 0x61626380 && w[1] == 0x00000000 && w[2] == 0x00000000 && w[3] == 0x00000000
    requires w[4] == 0x00000000 && w[5] == 0x00000000 && w[6] == 0x00000000 && w[7] == 0x00000000
    requires w[8] == 0x00000000 && w[9] == 0x00000000 && w[10] == 0x00000000 && w[11] == 0x00000000
    requires w[12] == 0x00000000 && w[13] == 0x00000000 && w[14] == 0x00000000 && w[15] == 0x00000018
    ensures w[16] == 0x61626380 && w[17] == 0x000f0000 && w[18] == 0x7da86405 && w[19] == 0x600003c6
    ensures w[20] == 0x3e9d7b78 && w[21] == 0x0183fc00 && w[22] == 0x12dcbfdb && w[23] == 0xe2e2c38e
  {
    hide Recurs;
    WordFrom(Block(), w, 16, 0x00000000, 0x00000000, 0x00000000, 0x61626380, 0x61626380);
    WordFrom(Block(), w, 17, 0x00000018, 0x00000000, 0x00000000, 0x00000000, 0x000f0000);
    WordFrom(Block(), w, 18, 0x61626380, 0x00000000, 0x00000000, 0x00000000, 0x7da86405);
    WordFrom(Block(), w, 19, 0x000f0000, 0x00000000, 0x00000000, 0x00000000, 0x600003c6);
    WordFrom(Block(), w, 20, 0x7da86405, 0x00000000, 0x00000000, 0x00000000, 0x3e9d7b78);
    WordFrom(Block(), w, 21, 0x600003c6, 0x00000000, 0x00000000, 0x00000000, 0x0183fc00);
    WordFrom(Block(), w, 22, 0x3e9d7b78, 0x00000018, 0x00000000, 0x00000000, 0x12dcbfdb);
    WordFrom(Block(), w, 23, 0x0183fc00, 0x61626380, 0x00000000, 0x00000000, 0xe2e2c38e);
  }

  lemma Words24(w: seq<Word>)
    requires |w| == 64 && Recurs(Block(), w)
    requires w[8] == 0x00000000 && w[9] == 0x00000000 && w[10] == 0x00000000 && w[11] == 0x00000000
    requires w[12] == 0x00000000 && w[13] == 0x00000000 && w[14] == 0x00000000 && w[15] == 0x00000018
    requires w[16] == 0x61626380 && w[17] == 0x000f0000 && w[18] == 0x7da86405 && w[19] == 0x600003c6
    requires w[20] == 0x3e9d7b78 && w[21] == 0x0183fc00 && w[22] == 0x12dcbfdb && w[23] == 0xe2e2c38e
    ensures w[24] == 0xc8215c1a && w[25] == 0xb73679a2 && w[26] == 0xe5bc3909 && w[27] == 0x32663c5b
    ensures w[28] == 0x9d209d67 && w[29] == 0xec8726cb && w[30] == 0x702138a4 && w[31] == 0xd3b7973b
  {
    hide Recurs;
    WordFrom(Block(), w, 24, 0x12dcbfdb, 0x000f0000, 0x00000000, 0x00000000, 0xc8215c1a);
    WordFrom(Block(), w, 25, 0xe2e2c38e, 0x7da86405, 0x00000000, 0x00000000, 0xb73679a2);
    WordFrom(Block(), w, 26, 0xc8215c1a, 0x600003c6, 0x00000000, 0x00000000, 0xe5bc3909);
    WordFrom(Block(), w, 27, 0xb73679a2, 0x3e9d7b78, 0x00000000, 0x00000000, 0x32663c5b);
    WordFrom(Block(), w, 28, 0xe5bc3909, 0x0183fc00, 0x00000000, 0x00000000, 0x9d209d67);
    WordFrom(Block(), w, 29, 0x32663c5b, 0x12dcbfdb, 0x00000000, 0x00000000, 0xec8726cb);
    WordFrom(Block(), w, 30, 0x9d209d67, 0xe2e2c38e, 0x00000018, 0x00000000, 0x702138a4);
    WordFrom(Block(), w, 31, 0xec8726cb, 0xc8215c1a, 0x61626380, 0x00000018, 0xd3b7973b);
  }

  lemma Words32(w: seq<Word>)
    requires |w| == 64 && Recurs(Block(), w)
    requires w[16] == 0x61626380 && w[17] == 0x000f0000 && w[18] == 0x7da86405 && w[19] == 0x600003c6
    requires w[20] == 0x3e9d7b78 && w[21] == 0x0183fc00 && w[22] == 0x12dcbfdb && w[23] == 0xe2e2c38e
    requires w[24] == 0xc8215c1a && w[25] == 0xb73679a2 && w[26] == 0xe5bc3909 && w[27] == 0x32663c5b
    requires w[28] == 0x9d209d67 && w[29] == 0xec8726cb && w[30] == 0x702138a4 && w[31] == 0xd3b7973b
    ensures w[32] == 0x93f5997f && w[33] == 0x3b68ba73 && w[34] == 0xaff4ffc1 && w[35] == 0xf10a5c62
    ensures w[36] == 0x0a8b3996 && w[37] == 0x72af830a && w[38] == 0x9409e33e && w[39] == 0x24641522
  {
    hide Recurs;
    WordFrom(Block(), w, 32, 0x702138a4, 0xb73679a2, 0x000f0000, 0x61626380, 0x93f5997f);
    WordFrom(Block(), w, 33, 0xd3b7973b, 0xe5bc3909, 0x7da86405, 0x000f0000, 0x3b68ba73);
    WordFrom(Block(), w, 34, 0x93f5997f, 0x32663c5b, 0x600003c6, 0x7da86405, 0xaff4ffc1);
    WordFrom(Block(), w, 35, 0x3b68ba73, 0x9d209d67, 0x3e9d7b78, 0x600003c6, 0xf10a5c62);
    WordFrom(Block(), w, 36, 0xaff4ffc1, 0xec8726cb, 0x0183fc00, 0x3e9d7b78, 0x0a8b3996);
    WordFrom(Block(), w, 37, 0xf10a5c62, 0x702138a4, 0x12dcbfdb, 0x0183fc00, 0x72af830a);
    WordFrom(Block(), w, 38, 0x0a8b3996, 0xd3b7973b, 0xe2e2c38e, 0x12dcbfdb, 0x9409e33e);
    WordFrom(Block(), w, 39, 0x72af830a, 0x93f5997f, 0xc8215c1a, 0xe2e2c38e, 0x24641522);
  }

  lemma Words40(w: seq<Word>)
    requires |w| == 64 && Recurs(Block(), w)
    requires w[24] == 0xc8215c1a && w[25] == 0xb73679a2 && w[26] == 0xe5bc3909 && w[27] == 0x32663c5b
    requires w[28] == 0x9d209d67 && w[29] == 0xec8726cb && w[30] == 0x702138a4 && w[31] == 0xd3b7973b
    requires w[32] == 0x93f5997f && w[33] == 0x3b68ba73 && w[34] == 0xaff4ffc1 && w[35] == 0xf10a5c62
    requires w[36] == 0x0a8b3996 && w[37] == 0x72af830a && w[38] == 0x9409e33e && w[39] == 0x24641522
    ensures w[40] == 0x9f47bf94 && w[41] == 0xf0a64f5a && w[42] == 0x3e246a79 && w[43] == 0x27333ba3
    ensures w[44] == 0x0c4763f2 && w[45] == 0x840abf27 && w[46] == 0x7a290d5d && w[47] == 0x065c43da
  {
    hide Recurs;
    WordFrom(Block(), w, 40, 0x9409e33e, 0x3b68ba73, 0xb73679a2, 0xc8215c1a, 0x9f47bf94);
    WordFrom(Block(), w, 41, 0x24641522, 0xaff4ffc1, 0xe5bc3909, 0xb73679a2, 0xf0a64f5a);
    WordFrom(Block(), w, 42, 0x9f47bf94, 0xf10a5c62, 0x32663c5b, 0xe5bc3909, 0x3e246a79);
    WordFrom(Block(), w, 43, 0xf0a64f5a, 0x0a8b3996, 0x9d209d67, 0x32663c5b, 0x27333ba3);
    WordFrom(Block(), w, 44, 0x3e246a79, 0x72af830a, 0xec8726cb, 0x9d209d67, 0x0c4763f2);
    WordFrom(Block(), w, 45, 0x27333ba3, 0x9409e33e, 0x702138a4, 0xec8726cb, 0x840abf27);
    WordFrom(Block(), w, 46, 0x0c4763f2, 0x24641522, 0xd3b7973b, 0x702138a4, 0x7a290d5d);
    WordFrom(Block(), w, 47, 0x840abf27, 0x9f47bf94, 0x93f5997f, 0xd3b7973b, 0x065c43da);
  }

  lemma Words48(w: seq<Word>)
    requires |w| == 64 && Recurs(Block(), w)
    requires w[32] == 0x93f5997f && w[33] == 0x3b68ba73 && w[34] == 0xaff4ffc1 && w[35] == 0xf10a5c62
    requires w[36] == 0x0a8b3996 && w[37] == 0x72af830a && w[38] == 0x9409e33e && w[39] == 0x24641522
    requires w[40] == 0x9f47bf94 && w[41] == 0xf0a64f5a && w[42] == 0x3e246a79 && w[43] == 0x27333ba3
    requires w[44] == 0x0c4763f2 && w[45] == 0x840abf27 && w[46] == 0x7a290d5d && w[47] == 0x065c43da
    ensures w[48] == 0xfb3e89cb && w[49] == 0xcc7617db && w[50] == 0xb9e66c34 && w[51] == 0xa9993667
    ensures w[52] == 0x84badedd && w[53] == 0xc21462bc && w[54] == 0x1487472c && w[55] == 0xb20f7a99
  {
    hide Recurs;
    WordFrom(Block(), w, 48, 0x7a290d5d, 0xf0a64f5a, 0x3b68ba73, 0x93f5997f, 0xfb3e89cb);
    WordFrom(Block(), w, 49, 0x065c43da, 0x3e246a79, 0xaff4ffc1, 0x3b68ba73, 0xcc7617db);
    WordFrom(Block(), w, 50, 0xfb3e89cb, 0x27333ba3, 0xf10a5c62, 0xaff4ffc1, 0xb9e66c34);
    WordFrom(Block(), w, 51, 0xcc7617db, 0x0c4763f2, 0x0a8b3996, 0xf10a5c62, 0xa9993667);
    WordFrom(Block(), w, 52, 0xb9e66c34, 0x840abf27, 0x72af830a, 0x0a8b3996, 0x84badedd);
    WordFrom(Block(), w, 53, 0xa9993667, 0x7a290d5d, 0x9409e33e, 0x72af830a, 0xc21462bc);
    WordFrom(Block(), w, 54, 0x84badedd, 0x065c43da, 0x24641522, 0x9409e33e, 0x1487472c);
    WordFrom(Block(), w, 55, 0xc21462bc, 0xfb3e89cb, 0x9f47bf94, 0x24641522, 0xb20f7a99);
  }

  lemma Words56(w: seq<Word>)
    requires |w| == 64 && Recurs(Block(), w)
    requires w[40] == 0x9f47bf94 && w[41] == 0xf0a64f5a && w[42] == 0x3e246a79 && w[43] == 0x27333ba3
    requires w[44] == 0x0c4763f2 && w[45] == 0x840abf27 && w[46] == 0x7a290d5d && w[47] == 0x065c43da
    requires w[48] == 0xfb3e89cb && w[49] == 0xcc7617db && w[50] == 0xb9e66c34 && w[51] == 0xa9993667
    requires w[52] == 0x84badedd && w[53] == 0xc21462bc && w[54] == 0x1487472c && w[55] == 0xb20f7a99
    ensures w[56] == 0xef57b9cd && w[57] == 0xebe6b238 && w[58] == 0x9fe3095e && w[59] == 0x78bc8d4b
    ensures w[60] == 0xa43fcf15 && w[61] == 0x668b2ff8 && w[62] == 0xeeaba2cc && w[63] == 0x12b1edeb
  {
    hide Recurs;
    WordFrom(Block(), w, 56, 0x1487472c, 0xcc7617db, 0xf0a64f5a, 0x9f47bf94, 0xef57b9cd);
    WordFrom(Block(), w, 57, 0xb20f7a99, 0xb9e66c34, 0x3e246a79, 0xf0a64f5a, 0xebe6b238);
    WordFrom(Block(), w, 58, 0xef57b9cd, 0xa9993667, 0x27333ba3, 0x3e246a79, 0x9fe3095e);
    WordFrom(Block(), w, 59, 0xebe6b238, 0x84badedd, 0x0c4763f2, 0x27333ba3, 0x78bc8d4b);
    WordFrom(Block(), w, 60, 0x9fe3095e, 0xc21462bc, 0x840abf27, 0x0c4763f2, 0xa43fcf15);
    WordFrom(Block(), w, 61, 0x78bc8d4b, 0x1487472c, 0x7a290d5d, 0x840abf27, 0x668b2ff8);
    WordFrom(Block(), w, 62, 0xa43fcf15, 0xb20f7a99, 0x065c43da, 0x7a290d5d, 0xeeaba2cc);
    WordFrom(Block(), w, 63, 0x668b2ff8, 0xef57b9cd, 0xfb3e89cb, 0x065c43da, 0x12b1edeb);
  }

  lemma Turns0(w: seq<Word>)
    requires |w| == 64
    requires w[0] == 0x61626380 && w[1] == 0x00000000 && w[2] == 0x00000000 && w[3] == 0x00000000
    requires w[4] == 0x00000000 && w[5] == 0x00000000 && w[6] == 0x00000000 && w[7] == 0x00000000
    requires Rounds(INITIAL, w[..0]) == State(0x6a09e667, 0xbb67ae85, 0x3c6ef372, 0xa54ff53a, 0x510e527f, 0x9b05688c, 0x1f83d9ab, 0x5be0cd19)
    ensures Rounds(INITIAL, w[..8]) == State(0x85a07b5f, 0xe5030380, 0x2b4209f5, 0x04409a6a, 0x0c657a79, 0x9b27a401, 0x714260ad, 0x43ada245)
  {
    hide Rounds, RoundConstant;
    Constants0();
    var v0 := State(0x6a09e667, 0xbb67ae85, 0x3c6ef372, 0xa54ff53a, 0x510e527f, 0x9b05688c, 0x1f83d9ab, 0x5be0cd19);
    var v1 := State(0x5d6aebcd, v0.a, v0.b, v0.c, 0xfa2a4622, v0.e, v0.f, v0.g);
    Turn(w, 0, v0, 0x428a2f98, 0x61626380, v1);
    var v2 := State(0x5a6ad9ad, v1.a, v1.b, v1.c, 0x78ce7989, v1.e, v1.f, v1.g);
    Turn(w, 1, v1, 0x71374491, 0x00000000, v2);
    var v3 := State(0xc8c347a7, v2.a, v2.b, v2.c, 0xf92939eb, v2.e, v2.f, v2.g);
    Turn(w, 2, v2, 0xb5c0fbcf, 0x00000000, v3);
    var v4 := State(0xd550f666, v3.a, v3.b, v3.c, 0x24e00850, v3.e, v3.f, v3.g);
    Turn(w, 3, v3, 0xe9b5dba5, 0x00000000, v4);
    var v5 := State(0x04409a6a, v4.a, v4.b, v4.c, 0x43ada245, v4.e, v4.f, v4.g);
    Turn(w, 4, v4, 0x3956c25b, 0x00000000, v5);
    var v6 := State(0x2b4209f5, v5.a, v5.b, v5.c, 0x714260ad, v5.e, v5.f, v5.g);
    Turn(w, 5, v5, 0x59f111f1, 0x00000000, v6);
    var v7 := State(0xe5030380, v6.a, v6.b, v6.c, 0x9b27a401, v6.e, v6.f, v6.g);
    Turn(w, 6, v6, 0x923f82a4, 0x00000000, v7);
    var v8 := State(0x85a07b5f, v7.a, v7.b, v7.c, 0x0c657a79, v7.e, v7.f, v7.g);
    Turn(w, 7, v7, 0xab1c5ed5, 0x00000000, v8);
  }

  lemma Turns8(w: seq<Word>)
    requires |w| == 64
    requires w[8] == 0x00000000 && w[9] == 0x00000000 && w[10] == 0x00000000 && w[11] == 0x00000000
    requires w[12] == 0x00000000 && w[13] == 0x00000000 && w[14] == 0x00000000 && w[15] == 0x00000018
    requires Rounds(INITIAL, w[..8]) == State(0x85a07b5f, 0xe5030380, 0x2b4209f5, 0x04409a6a, 0x0c657a79, 0x9b27a401, 0x714260ad, 0x43ada245)
    ensures Rounds(INITIAL, w[..16]) == State(0xb0fa238e, 0xc0645fde, 0xd932eb16, 0x87912990, 0x07590dcd, 0x0b92f20c, 0x745a48de, 0x1e578218)
  {
    hide Rounds, RoundConstant;
    Constants8();
    var v8 := State(0x85a07b5f, 0xe5030380, 0x2b4209f5, 0x04409a6a, 0x0c657a79, 0x9b27a401, 0x714260ad, 0x43ada245);
    var v9 := State(0x8e04ecb9, v8.a, v8.b, v8.c, 0x32ca2d8c, v8.e, v8.f, v8.g);
    Turn(w, 8, v8, 0xd807aa98, 0x00000000, v9);
    var v10 := State(0x8c87346b, v9.a, v9.b, v9.c, 0x1cc92596, v9.e, v9.f, v9.g);
    Turn(w, 9, v9, 0x12835b01, 0x00000000, v10);
    var v11 := State(0x4798a3f4, v10.a, v10.b, v10.c, 0x436b23e8, v10.e, v10.f, v10.g);
    Turn(w, 10, v10, 0x243185be, 0x00000000, v11);
    var v12 := State(0xf71fc5a9, v11.a, v11.b, v11.c, 0x816fd6e9, v11.e, v11.f, v11.g);
    Turn(w, 11, v11, 0x550c7dc3, 0x00000000, v12);
    var v13 := State(0x87912990, v12.a, v12.b, v12.c, 0x1e578218, v12.e, v12.f, v12.g);
    Turn(w, 12, v12, 0x72be5d74, 0x00000000, v13);
    var v14 := State(0xd932eb16, v13.a, v13.b, v13.c, 0x745a48de, v13.e, v13.f, v13.g);
    Turn(w, 13, v13, 0x80deb1fe, 0x00000000, v14);
    var v15 := State(0xc0645fde, v14.a, v14.b, v14.c, 0x0b92f20c, v14.e, v14.f, v14.g);
    Turn(w, 14, v14, 0x9bdc06a7, 0x00000000, v15);
    var v16 := State(0xb0fa238e, v15.a, v15.b, v15.c, 0x07590dcd, v15.e, v15.f, v15.g);
    Turn(w, 15, v15, 0xc19bf174, 0x00000018, v16);
  }

  lemma Turns16(w: seq<Word>)
    requires |w| == 64
    requires w[16] == 0x61626380 && w[17] == 0x000f0000 && w[18] == 0x7da86405 && w[19] == 0x600003c6
    requires w[20] == 0x3e9d7b78 && w[21] == 0x0183fc00 && w[22] == 0x12dcbfdb && w[23] == 0xe2e2c38e
    requires Rounds(INITIAL, w[..16]) == State(0xb0fa238e, 0xc0645fde, 0xd932eb16, 0x87912990, 0x07590dcd, 0x0b92f20c, 0x745a48de, 0x1e578218)
    ensures Rounds(INITIAL, w[..24]) == State(0xc5d53d8d, 0xa7a3623f, 0xc2606d6d, 0x9dc68b63, 0xaa47c347, 0x49f5114a, 0xe1257970, 0x8ada8930)
  {
    hide Rounds, RoundConstant;
    Constants16();
    var v16 := State(0xb0fa238e, 0xc0645fde, 0xd932eb16, 0x87912990, 0x07590dcd, 0x0b92f20c, 0x745a48de, 0x1e578218);
    var v17 := State(0x21da9a9b, v16.a, v16.b, v16.c, 0x8034229c, v16.e, v16.f, v16.g);
    Turn(w, 16, v16, 0xe49b69c1, 0x61626380, v17);
    var v18 := State(0xc2fbd9d1, v17.a, v17.b, v17.c, 0x846ee454, v17.e, v17.f, v17.g);
    Turn(w, 17, v17, 0xefbe4786, 0x000f0000, v18);
    var v19 := State(0xfe777bbf, v18.a, v18.b, v18.c, 0xcc899961, v18.e, v18.f, v18.g);
    Turn(w, 18, v18, 0x0fc19dc6, 0x7da86405, v19);
    var v20 := State(0xe1f20c33, v19.a, v19.b, v19.c, 0xb0638179, v19.e, v19.f, v19.g);
    Turn(w, 19, v19, 0x240ca1cc, 0x600003c6, v20);
    var v21 := State(0x9dc68b63, v20.a, v20.b, v20.c, 0x8ada8930, v20.e, v20.f, v20.g);
    Turn(w, 20, v20, 0x2de92c6f, 0x3e9d7b78, v21);
    var v22 := State(0xc2606d6d, v21.a, v21.b, v21.c, 0xe1257970, v21.e, v21.f, v21.g);
    Turn(w, 21, v21, 0x4a7484aa, 0x0183fc00, v22);
    var v23 := State(0xa7a3623f, v22.a, v22.b, v22.c, 0x49f5114a, v22.e, v22.f, v22.g);
    Turn(w, 22, v22, 0x5cb0a9dc, 0x12dcbfdb, v23);
    var v24 := State(0xc5d53d8d, v23.a, v23.b, v23.c, 0xaa47c347, v23.e, v23.f, v23.g);
    Turn(w, 23, v23, 0x76f988da, 0xe2e2c38e, v24);
  }

  lemma Turns24(w: seq<Word>)
    requires |w| == 64
    requires w[24] == 0xc8215c1a && w[25] == 0xb73679a2 && w[26] == 0xe5bc3909 && w[27] == 0x32663c5b
    requires w[28] == 0x9d209d67 && w[29] == 0xec8726cb && w[30] == 0x702138a4 && w[31] == 0xd3b7973b
    requires Rounds(INITIAL, w[..24]) == State(0xc5d53d8d, 0xa7a3623f, 0xc2606d6d, 0x9dc68b63, 0xaa47c347, 0x49f5114a, 0xe1257970, 0x8ada8930)
    ensures Rounds(INITIAL, w[..32]) == State(0x73b33bf5, 0xea992a22, 0xa0060b30, 0x363482c9, 0xba591112, 0x0109ab3a, 0xade79437, 0x6112a3b7)
  {
    hide Rounds, RoundConstant;
    Constants24();
    var v24 := State(0xc5d53d8d, 0xa7a3623f, 0xc2606d6d, 0x9dc68b63, 0xaa47c347, 0x49f5114a, 0xe1257970, 0x8ada8930);
    var v25 := State(0x1c2c2838, v24.a, v24.b, v24.c, 0x2823ef91, v24.e, v24.f, v24.g);
    Turn(w, 24, v24, 0x983e5152, 0xc8215c1a, v25);
    var v26 := State(0xcde8037d, v25.a, v25.b, v25.c, 0x14383d8e, v25.e, v25.f, v25.g);
    Turn(w, 25, v25, 0xa831c66d, 0xb73679a2, v26);
    var v27 := State(0xb62ec4bc, v26.a, v26.b, v26.c, 0xc74c6516, v26.e, v26.f, v26.g);
    Turn(w, 26, v26, 0xb00327c8, 0xe5bc3909, v27);
    var v28 := State(0x77d37528, v27.a, v27.b, v27.c, 0xedffbff8, v27.e, v27.f, v27.g);
    Turn(w, 27, v27, 0xbf597fc7, 0x32663c5b, v28);
    var v29 := State(0x363482c9, v28.a, v28.b, v28.c, 0x6112a3b7, v28.e, v28.f, v28.g);
    Turn(w, 28, v28, 0xc6e00bf3, 0x9d209d67, v29);
    var v30 := State(0xa0060b30, v29.a, v29.b, v29.c, 0xade79437, v29.e, v29.f, v29.g);
    Turn(w, 29, v29, 0xd5a79147, 0xec8726cb, v30);
    var v31 := State(0xea992a22, v30.a, v30.b, v30.c, 0x0109ab3a, v30.e, v30.f, v30.g);
    Turn(w, 30, v30, 0x06ca6351, 0x702138a4, v31);
    var v32 := State(0x73b33bf5, v31.a, v31.b, v31.c, 0xba591112, v31.e, v31.f, v31.g);
    Turn(w, 31, v31, 0x14292967, 0xd3b7973b, v32);
  }

  lemma Turns32(w: seq<Word>)
    requires |w| == 64
    requires w[32] == 0x93f5997f && w[33] == 0x3b68ba73 && w[34] == 0xaff4ffc1 && w[35] == 0xf10a5c62
    requires w[36] == 0x0a8b3996 && w[37] == 0x72af830a && w[38] == 0x9409e33e && w[39] == 0x24641522
    requires Rounds(INITIAL, w[..32]) == State(0x73b33bf5, 0xea992a22, 0xa0060b30, 0x363482c9, 0xba591112, 0x0109ab3a, 0xade79437, 0x6112a3b7)
    ensures Rounds(INITIAL, w[..40]) == State(0x79ea687a, 0x6dc57a8a, 0x34df1604, 0x41a65cb1, 0x1efbc0a0, 0xf0781bc8, 0xa507a53d, 0x0772a26b)
  {
    hide Rounds, RoundConstant;
    Constants32();
    var v32 := State(0x73b33bf5, 0xea992a22, 0xa0060b30, 0x363482c9, 0xba591112, 0x0109ab3a, 0xade79437, 0x6112a3b7);
    var v33 := State(0x98e12507, v32.a, v32.b, v32.c, 0x9cd9f5f6, v32.e, v32.f, v32.g);
    Turn(w, 32, v32, 0x27b70a85, 0x93f5997f, v33);
    var v34 := State(0xfe604df5, v33.a, v33.b, v33.c, 0x59249dd3, v33.e, v33.f, v33.g);
    Turn(w, 33, v33, 0x2e1b2138, 0x3b68ba73, v34);
    var v35 := State(0xa9a7738c, v34.a, v34.b, v34.c, 0x085f3833, v34.e, v34.f, v34.g);
    Turn(w, 34, v34, 0x4d2c6dfc, 0xaff4ffc1, v35);
    var v36 := State(0x65a0cfe4, v35.a, v35.b, v35.c, 0xf4b002d6, v35.e, v35.f, v35.g);
    Turn(w, 35, v35, 0x53380d13, 0xf10a5c62, v36);
    var v37 := State(0x41a65cb1, v36.a, v36.b, v36.c, 0x0772a26b, v36.e, v36.f, v36.g);
    Turn(w, 36, v36, 0x650a7354, 0x0a8b3996, v37);
    var v38 := State(0x34df1604, v37.a, v37.b, v37.c, 0xa507a53d, v37.e, v37.f, v37.g);
    Turn(w, 37, v37, 0x766a0abb, 0x72af830a, v38);
    var v39 := State(0x6dc57a8a, v38.a, v38.b, v38.c, 0xf0781bc8, v38.e, v38.f, v38.g);
    Turn(w, 38, v38, 0x81c2c92e, 0x9409e33e, v39);
    var v40 := State(0x79ea687a, v39.a, v39.b, v39.c, 0x1efbc0a0, v39.e, v39.f, v39.g);
    Turn(w, 39, v39, 0x92722c85, 0x24641522, v40);
  }

  lemma Turns40(w: seq<Word>)
    requires |w| == 64
    requires w[40] == 0x9f47bf94 && w[41] == 0xf0a64f5a && w[42] == 0x3e246a79 && w[43] == 0x27333ba3
    requires w[44] == 0x0c4763f2 && w[45] == 0x840abf27 && w[46] == 0x7a290d5d && w[47] == 0x065c43da
    requires Rounds(INITIAL, w[..40]) == State(0x79ea687a, 0x6dc57a8a, 0x34df1604, 0x41a65cb1, 0x1efbc0a0, 0xf0781bc8, 0xa507a53d, 0x0772a26b)
    ensures Rounds(INITIAL, w[..48]) == State(0x4172328d, 0xa14c14b0, 0x72ab4b91, 0x26628815, 0xfecf0bc6, 0xd57b94a9, 0xb7755da1, 0xa80f11f0)
  {
    hide Rounds, RoundConstant;
    Constants40();
    var v40 := State(0x79ea687a, 0x6dc57a8a, 0x34df1604, 0x41a65cb1, 0x1efbc0a0, 0xf0781bc8, 0xa507a53d, 0x0772a26b);
    var v41 := State(0xd6670766, v40.a, v40.b, v40.c, 0x26352d63, v40.e, v40.f, v40.g);
    Turn(w, 40, v40, 0xa2bfe8a1, 0x9f47bf94, v41);
    var v42 := State(0xdf46652f, v41.a, v41.b, v41.c, 0x838b2711, v41.e, v41.f, v41.g);
    Turn(w, 41, v41, 0xa81a664b, 0xf0a64f5a, v42);
    var v43 := State(0x17aa0dfe, v42.a, v42.b, v42.c, 0xdecd4715, v42.e, v42.f, v42.g);
    Turn(w, 42, v42, 0xc24b8b70, 0x3e246a79, v43);
    var v44 := State(0x9d4baf93, v43.a, v43.b, v43.c, 0xfda24c2e, v43.e, v43.f, v43.g);
    Turn(w, 43, v43, 0xc76c51a3, 0x27333ba3, v44);
    var v45 := State(0x26628815, v44.a, v44.b, v44.c, 0xa80f11f0, v44.e, v44.f, v44.g);
    Turn(w, 44, v44, 0xd192e819, 0x0c4763f2, v45);
    var v46 := State(0x72ab4b91, v45.a, v45.b, v45.c, 0xb7755da1, v45.e, v45.f, v45.g);
    Turn(w, 45, v45, 0xd6990624, 0x840abf27, v46);
    var v47 := State(0xa14c14b0, v46.a, v46.b, v46.c, 0xd57b94a9, v46.e, v46.f, v46.g);
    Turn(w, 46, v46, 0xf40e3585, 0x7a290d5d, v47);
    var v48 := State(0x4172328d, v47.a, v47.b, v47.c, 0xfecf0bc6, v47.e, v47.f, v47.g);
    Turn(w, 47, v47, 0x106aa070, 0x065c43da, v48);
  }

  lemma Turns48(w: seq<Word>)
    requires |w| == 64
    requires w[48] == 0xfb3e89cb && w[49] == 0xcc7617db && w[50] == 0xb9e66c34 && w[51] == 0xa9993667
    requires w[52] == 0x84badedd && w[53] == 0xc21462bc && w[54] == 0x1487472c && w[55] == 0xb20f7a99
    requires Rounds(INITIAL, w[..48]) == State(0x4172328d, 0xa14c14b0, 0x72ab4b91, 0x26628815, 0xfecf0bc6, 0xd57b94a9, 0xb7755da1, 0xa80f11f0)
    ensures Rounds(INITIAL, w[..56]) == State(0x38cc9913, 0x3ec45cdb, 0xf5702fdb, 0x101fd28f, 0x54cb266b, 0xe50e1b4f, 0x9f4787c3, 0x529e7d00)
  {
    hide Rounds, RoundConstant;
    Constants48();
    var v48 := State(0x4172328d, 0xa14c14b0, 0x72ab4b91, 0x26628815, 0xfecf0bc6, 0xd57b94a9, 0xb7755da1, 0xa80f11f0);
    var v49 := State(0x05757ceb, v48.a, v48.b, v48.c, 0xbd714038, v48.e, v48.f, v48.g);
    Turn(w, 48, v48, 0x19a4c116, 0xfb3e89cb, v49);
    var v50 := State(0xf11bfaa8, v49.a, v49.b, v49.c, 0x6e5c390c, v49.e, v49.f, v49.g);
    Turn(w, 49, v49, 0x1e376c08, 0xcc7617db, v50);
    var v51 := State(0x7a0508a1, v50.a, v50.b, v50.c, 0x52f1ccf7, v50.e, v50.f, v50.g);
    Turn(w, 50, v50, 0x2748774c, 0xb9e66c34, v51);
    var v52 := State(0x886e7a22, v51.a, v51.b, v51.c, 0x49231c1e, v51.e, v51.f, v51.g);
    Turn(w, 51, v51, 0x34b0bcb5, 0xa9993667, v52);
    var v53 := State(0x101fd28f, v52.a, v52.b, v52.c, 0x529e7d00, v52.e, v52.f, v52.g);
    Turn(w, 52, v52, 0x391c0cb3, 0x84badedd, v53);
    var v54 := State(0xf5702fdb, v53.a, v53.b, v53.c, 0x9f4787c3, v53.e, v53.f, v53.g);
    Turn(w, 53, v53, 0x4ed8aa4a, 0xc21462bc, v54);
    var v55 := State(0x3ec45cdb, v54.a, v54.b, v54.c, 0xe50e1b4f, v54.e, v54.f, v54.g);
    Turn(w, 54, v54, 0x5b9cca4f, 0x1487472c, v55);
    var v56 := State(0x38cc9913, v55.a, v55.b, v55.c, 0x54cb266b, v55.e, v55.f, v55.g);
    Turn(w, 55, v55, 0x682e6ff3, 0xb20f7a99, v56);
  }

  lemma Turns56(w: seq<Word>)
    requires |w| == 64
    requires w[56] == 0xef57b9cd && w[57] == 0xebe6b238 && w[58] == 0x9fe3095e && w[59] == 0x78bc8d4b
    requires w[60] == 0xa43fcf15 && w[61] == 0x668b2ff8 && w[62] == 0xeeaba2cc && w[63] == 0x12b1edeb
    requires Rounds(INITIAL, w[..56]) == State(0x38cc9913, 0x3ec45cdb, 0xf5702fdb, 0x101fd28f, 0x54cb266b, 0xe50e1b4f, 0x9f4787c3, 0x529e7d00)
    ensures Rounds(INITIAL, w[..64]) == State(0x506e3058, 0xd39a2165, 0x04d24d6c, 0xb85e2ce9, 0x5ef50f24, 0xfb121210, 0x948d25b6, 0x961f4894)
  {
    hide Rounds, RoundConstant;
    Constants56();
    var v56 := State(0x38cc9913, 0x3ec45cdb, 0xf5702fdb, 0x101fd28f, 0x54cb266b, 0xe50e1b4f, 0x9f4787c3, 0x529e7d00);
    var v57 := State(0xfcd1887b, v56.a, v56.b, v56.c, 0x9b5e906c, v56.e, v56.f, v56.g);
    Turn(w, 56, v56, 0x748f82ee, 0xef57b9cd, v57);
    var v58 := State(0xc062d46f, v57.a, v57.b, v57.c, 0x7e44008e, v57.e, v57.f, v57.g);
    Turn(w, 57, v57, 0x78a5636f, 0xebe6b238, v58);
    var v59 := State(0xffb70472, v58.a, v58.b, v58.c, 0x6d83bfc6, v58.e, v58.f, v58.g);
    Turn(w, 58, v58, 0x84c87814, 0x9fe3095e, v59);
    var v60 := State(0xb6ae8fff, v59.a, v59.b, v59.c, 0xb21bad3d, v59.e, v59.f, v59.g);
    Turn(w, 59, v59, 0x8cc70208, 0x78bc8d4b, v60);
    var v61 := State(0xb85e2ce9, v60.a, v60.b, v60.c, 0x961f4894, v60.e, v60.f, v60.g);
    Turn(w, 60, v60, 0x90befffa, 0xa43fcf15, v61);
    var v62 := State(0x04d24d6c, v61.a, v61.b, v61.c, 0x948d25b6, v61.e, v61.f, v61.g);
    Turn(w, 61, v61, 0xa4506ceb, 0x668b2ff8, v62);
    var v63 := State(0xd39a2165, v62.a, v62.b, v62.c, 0xfb121210, v62.e, v62.f, v62.g);
    Turn(w, 62, v62, 0xbef9a3f7, 0xeeaba2cc, v63);
    var v64 := State(0x506e3058, v63.a, v63.b, v63.c, 0x5ef50f24, v63.e, v63.f, v63.g);
    Turn(w, 63, v63, 0xc67178f2, 0x12b1edeb, v64);
  }

  lemma Constants0()
    ensures RoundConstant(0) == 0x428a2f98 && RoundConstant(1) == 0x71374491 && RoundConstant(2) == 0xb5c0fbcf && RoundConstant(3) == 0xe9b5dba5
    ensures RoundConstant(4) == 0x3956c25b && RoundConstant(5) == 0x59f111f1 && RoundConstant(6) == 0x923f82a4 && RoundConstant(7) == 0xab1c5ed5
  {
  }

  lemma Constants8()
    ensures RoundConstant(8) == 0xd807aa98 && RoundConstant(9) == 0x12835b01 && RoundConstant(10) == 0x243185be && RoundConstant(11) == 0x550c7dc3
    ensures RoundConstant(12) == 0x72be5d74 && RoundConstant(13) == 0x80deb1fe && RoundConstant(14) == 0x9bdc06a7 && RoundConstant(15) == 0xc19bf174
  {
  }

  lemma Constants16()
    ensures RoundConstant(16) == 0xe49b69c1 && RoundConstant(17) == 0xefbe4786 && RoundConstant(18) == 0x0fc19dc6 && RoundConstant(19) == 0x240ca1cc
    ensures RoundConstant(20) == 0x2de92c6f && RoundConstant(21) == 0x4a7484aa && RoundConstant(22) == 0x5cb0a9dc && RoundConstant(23) == 0x76f988da
  {
  }

  lemma Constants24()
    ensures RoundConstant(24) == 0x983e5152 && RoundConstant(25) == 0xa831c66d && RoundConstant(26) == 0xb00327c8 && RoundConstant(27) == 0xbf597fc7
    ensures RoundConstant(28) == 0xc6e00bf3 && RoundConstant(29) == 0xd5a79147 && RoundConstant(30) == 0x06ca6351 && RoundConstant(31) == 0x14292967
  {
  }

  lemma Constants32()
    ensures RoundConstant(32) == 0x27b70a85 && RoundConstant(33) == 0x2e1b2138 && RoundConstant(34) == 0x4d2c6dfc && RoundConstant(35) == 0x53380d13
    ensures RoundConstant(36) == 0x650a7354 && RoundConstant(37) == 0x766a0abb && RoundConstant(38) == 0x81c2c92e && RoundConstant(39) == 0x92722c85
  {
  }

  lemma Constants40()
    ensures RoundConstant(40) == 0xa2bfe8a1 && RoundConstant(41) == 0xa81a664b && RoundConstant(42) == 0xc24b8b70 && RoundConstant(43) == 0xc76c51a3
    ensures RoundConstant(44) == 0xd192e819 && RoundConstant(45) == 0xd6990624 && RoundConstant(46) == 0xf40e3585 && RoundConstant(47) == 0x106aa070
  {
  }

  lemma Constants48()
    ensures RoundConstant(48) == 0x19a4c116 && RoundConstant(49) == 0x1e376c08 && RoundConstant(50) == 0x2748774c && RoundConstant(51) == 0x34b0bcb5
    ensures RoundConstant(52) == 0x391c0cb3 && RoundConstant(53) == 0x4ed8aa4a && RoundConstant(54) == 0x5b9cca4f && RoundConstant(55) == 0x682e6ff3
  {
  }

  lemma Constants56()
    ensures RoundConstant(56) == 0x748f82ee && RoundConstant(57) == 0x78a5636f && RoundConstant(58) == 0x84c87814 && RoundConstant(59) == 0x8cc70208
    ensures RoundConstant(60) == 0x90befffa && RoundConstant(61) == 0xa4506ceb && RoundConstant(62) == 0xbef9a3f7 && RoundConstant(63) == 0xc67178f2
  {
  }

  /** FIPS 180-4: the digest of "abc". */
  lemma KnownAnswer()
    ensures Digest(ABC) == [
              0xba, 0x78, 0x16, 0xbf, 0x8f, 0x01, 0xcf, 0xea, 0x41, 0x41, 0x40, 0xde, 0x5d, 0xae, 0x22, 0x23,
              0xb0, 0x03, 0x61, 0xa3, 0x96, 0x17, 0x7a, 0x9c, 0xb4, 0x10, 0xff, 0x61, 0xf2, 0x00, 0x15, 0xad]
  {
    hide Schedule, Rounds, Recurs, Padded;
    PaddedAbc();
    var b := Block();
    var w := Schedule(b, 64);
    ScheduleRecurs(b, 64);
    FirstWords(w);
    Words16(w);
    Words24(w);
    Words32(w);
    Words40(w);
    Words48(w);
    Words56(w);
    NoRounds();
    assert w[..0] == [] && w[..64] == w;
    Turns0(w);
    Turns8(w);
    Turns16(w);
    Turns24(w);
    Turns32(w);
    Turns40(w);
    Turns48(w);
    Turns56(w);
    OneBlock(b);
    Finish();
  }

  lemma NoRounds()
    ensures Rounds(INITIAL, []) == State(0x6a09e667, 0xbb67ae85, 0x3c6ef372, 0xa54ff53a, 0x510e527f, 0x9b05688c, 0x1f83d9ab, 0x5be0cd19)
  {
  }

  lemma OneBlock(b: seq<byte>)
    requires |b| == 64
    ensures Whole(b) && HashBlocks(INITIAL, b) == Add(INITIAL, Rounds(INITIAL, Schedule(b, 64)))
  {
    hide Schedule, Rounds, Add;
    assert b[..0] == [] && b[0..] == b;
    assert HashBlocks(INITIAL, []) == INITIAL;
  }

  lemma Finish()
    ensures StateBytes(Add(INITIAL, State(0x506e3058, 0xd39a2165, 0x04d24d6c, 0xb85e2ce9, 0x5ef50f24, 0xfb121210, 0x948d25b6, 0x961f4894))) == [
              0xba, 0x78, 0x16, 0xbf, 0x8f, 0x01, 0xcf, 0xea, 0x41, 0x41, 0x40, 0xde, 0x5d, 0xae, 0x22, 0x23,
              0xb0, 0x03, 0x61, 0xa3, 0x96, 0x17, 0x7a, 0x9c, 0xb4, 0x10, 0xff, 0x61, 0xf2, 0x00, 0x15, 0xad]
  {
  }
}
