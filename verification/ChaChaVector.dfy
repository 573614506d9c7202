/**
 The block test vector of section 2.3.2 of RFC 7539: key 00 .. 1f, nonce 000000090000004a00000000,
 block 1. S0 is the initial state, Mk the state after the column rounds of inner block k + 1, and
 Sk the state after k inner blocks.
 */
module ChaChaVector {
  import opened ByteStrings
  import opened Words
  import opened ChaCha

  const S0: State := [
      0x61707865, 0x3320646e, 0x79622d32, 0x6b206574, 0x03020100, 0x07060504, 0x0b0a0908, 0x0f0e0d0c,
      0x13121110, 0x17161514, 0x1b1a1918, 0x1f1e1d1c, 0x00000001, 0x09000000, 0x4a000000, 0x00000000]
  const M0: State := [
      0xabbaa25c, 0x1efa51ea, 0x7354fbdf, 0x83d2dc69, 0x3a465196, 0x1c7e64f6, 0xb12fb628, 0xf05b6976,
      0x6b3ca454, 0x08eb14b1, 0xbf8a9ac9, 0xe444df3b, 0xdec62ed2, 0x8862cc77, 0x6e35b345, 0x52a647f1]
  const S1: State := [
      0xcd52e917, 0x85ab03b4, 0xb3457395, 0xf96de7dd, 0xc4b7cd22, 0x5c2e187a, 0xc95eb461, 0x316c801a,
      0x7bf7d740, 0x7eddd644, 0xf1a1bdf5, 0x761246ca, 0x6b0d58a3, 0x6798471a, 0xd737f167, 0xf173888d]
  const M1: State := [
      0xe3e1111b, 0xa6291491, 0x5a82b80c, 0x4500fd45, 0xd65b5b5b, 0xf56af099, 0x4ccc8103, 0xc94d29e2,
      0xe67aec54, 0xf7a52d82, 0xdb470914, 0xdfb40f1d, 0x7be81c0d, 0x1d92d0fd, 0x13139f8c, 0x7a26ecaa]
  const S2: State := [
      0xcf1a7584, 0x048927ec, 0x54051fda, 0xc244ff28, 0x901d2f40, 0x7974b81c, 0x378dcfb4, 0xcd47fd0e,
      0x2dafb216, 0x27c89cd6, 0xcd3c9aa0, 0x79fc89c7, 0x10aef18d, 0x16218765, 0x68f76705, 0x04d6ee22]
  const M2: State := [
      0xa22695f2, 0xa908cf6c, 0xe6ae05b2, 0xfe0ff04b, 0x1ece4458, 0xe82b726f, 0x5a21ab90, 0x87698c64,
      0xf2d36da6, 0xf4dab980, 0x7baf5573, 0xa78c270d, 0x6fda6bf7, 0x65a4b0ce, 0x25e6d76e, 0x1b7b11ec]
  const S3: State := [
      0x03a14032, 0x66b15927, 0x9d6b6b42, 0xb84c4109, 0xa7143ae0, 0xa09b33dd, 0xa5daaf88, 0x2fd91a73,
      0xc90c6b18, 0x5a202413, 0xc20e01b6, 0x72cd6b74, 0xba35d777, 0xb360f1bf, 0x8178315b, 0x2cd11b1a]
  const M3: State := [
      0xfecd0838, 0x160ab468, 0x9a0ddf4e, 0xbac7154a, 0xcedf6624, 0xb11de6c4, 0xbd7810ef, 0xd22b5643,
      0x1d8a33ea, 0x87dc1ca9, 0x89bd34a5, 0x5505ef62, 0xa818b852, 0xb100446a, 0x9c1d70b1, 0xa1d1befa]
  const S4: State := [
      0x9a2d3589, 0x0b23fc4e, 0x40af3b6b, 0xceea8144, 0x0a1bffc6, 0x5e5993f7, 0x9904c2e7, 0x0d334718,
      0xe46c6354, 0xc9503229, 0x04fef5aa, 0xf8933f72, 0x2687d476, 0x54e65231, 0x3594ffc5, 0x2b3bb2ca]
  const M4: State := [
      0x85e7824a, 0x4940cd9e, 0xfbe7684b, 0x7335d03d, 0x1c133ea1, 0xbba40b0f, 0x9413992a, 0xa4ab2040,
      0xa3a66a86, 0xc0b4754f, 0x771b4ecb, 0x165151a1, 0xde008464, 0x34f0058b, 0x70846cfa, 0xa3271b09]
  const S5: State := [
      0xc53318c5, 0xca325d96, 0x7e7d11cb, 0x3404e2ca, 0x26d7cf73, 0x6088d379, 0xc0f0e9bd, 0xe310cdb9,
      0xae2ca8db, 0x42f67c72, 0x71669aca, 0x975c171d, 0x9e5ec228, 0x7d85a9f3, 0x201d0756, 0x63fa6953]
  const M5: State := [
      0x9950b826, 0xcac7ccc6, 0x84a67673, 0xdb3109a6, 0x2121065a, 0xc12bdadb, 0xcae3acd1, 0x594616cb,
      0x19078de2, 0x178ecc02, 0xe6adbdb2, 0x52a9d50e, 0x40ca72b3, 0x3b9bf852, 0x78690378, 0xe17d4902]
  const S6: State := [
      0x04a3131a, 0x66176309, 0x0415bab1, 0x61b880a2, 0x36cc86c7, 0xbf8a4465, 0xf77dd720, 0xfc0bdc90,
      0x07d13aca, 0xeb0be9af, 0x61599491, 0x918512dc, 0x33b6686d, 0x795cc671, 0xc0049972, 0xa0a81bde]
  const M6: State := [
      0x57c5e6da, 0x35ce46a8, 0x0c041bb9, 0xfa91df79, 0x8e85d82f, 0xb4819d06, 0xb63be200, 0xacd221e4,
      0x434b4749, 0x1d459c00, 0x111cfe2c, 0x55942604, 0x49ee03a6, 0xd11a5554, 0xa7202e04, 0x7d2215bc]
  const S7: State := [
      0x9b70f51f, 0x7ea8ac11, 0x21e54da9, 0xca393b2f, 0x93b08686, 0x6a4c50ae, 0x19212a5a, 0x9b032958,
      0xd839165e, 0x4c06e28a, 0xd3fde99e, 0x26acc13d, 0xa609f555, 0x2c246549, 0x95151853, 0x2c847a0d]
  const M7: State := [
      0xc0b18aee, 0x087445ba, 0x36e52ad9, 0xa777426a, 0xdeb54e9c, 0x802c883b, 0x06e86889, 0x3c002680,
      0xa82d65d4, 0x687f11eb, 0xe9d36207, 0x4242ddae, 0x4103c64e, 0x82816a91, 0xb584ca56, 0xfd0bd2b9]
  const S8: State := [
      0xca5c85dd, 0x93a4f90e, 0xd9f0df58, 0x26dd82dd, 0x982563f8, 0x712aa9ff, 0x279a61e8, 0x970f72bd,
      0x1c25931a, 0x5180bb10, 0x779c27e7, 0x54077e08, 0xa9b751fb, 0x382f3ce2, 0x8db1757d, 0xcc38080b]
  const M8: State := [
      0x765c6e9c, 0x5ab09b11, 0x3ee7da04, 0x37c31203, 0x9046ecaa, 0x7b88d882, 0xb9b577dd, 0x156de7ed,
      0x46fa091e, 0x5117e9b5, 0x862ff22b, 0xa3fcc7a6, 0x72a5aace, 0x5fa7f1c5, 0xda563e0a, 0x5263d7ca]
  const S9: State := [
      0xb6b87de6, 0x9a016148, 0x93859815, 0x4915e6cc, 0xdc33c122, 0x98e18fa3, 0x5ffbe8fc, 0xf7154b8b,
      0x28c1fcb3, 0xc4b38f9d, 0x83e2f5d7, 0x7d24b98b, 0x21078b22, 0xb193e7a3, 0xb2f49389, 0x6cde6026]
  const M9: State := [
      0x8a07ff15, 0x0cadc51c, 0x017c8da9, 0x4afbe5df, 0x913768fe, 0x442a0c0c, 0x598fe3bb, 0x47d18828,
      0x0a39aedc, 0xc1428029, 0x7b48135f, 0x5a5f1098, 0x2d4cfe3e, 0xe5466d1b, 0xe4ccdc13, 0x8ac92a18]
  const S10: State := [
      0x837778ab, 0xe238d763, 0xa67ae21e, 0x5950bb2f, 0xc4f2d0c7, 0xfc62bb2f, 0x8fa018fc, 0x3f5ec7b7,
      0x335271c2, 0xf29489f3, 0xeabda8fc, 0x82e46ebd, 0xd19c12b4, 0xb04e16de, 0x9e83d0cb, 0x4e3c50a2]

  /** s with the words i, j, k and l taken from t. */
  function Taken(s: State, t: State, i: nat, j: nat, k: nat, l: nat): State
    requires Distinct(i, j, k, l)
  {
    s[i := t[i]][j := t[j]][k := t[k]][l := t[l]]
  }

  /** A quarter round whose result is known replaces its four words. */
  lemma QuarterTakes(s: State, m: State, t: State, i: nat, j: nat, k: nat, l: nat)
    requires Distinct(i, j, k, l) && s[i] == m[i] && s[j] == m[j] && s[k] == m[k] && s[l] == m[l]
    requires QuarterRound(Pick(m, i, j, k, l)) == Pick(t, i, j, k, l)
    ensures QuarterAt(s, i, j, k, l) == Taken(s, t, i, j, k, l)
  {
    hide QuarterRound;
  }

  lemma TakenColumns(s: State, m: State)
    ensures var s1 := Taken(s, m, 0, 4, 8, 12);
            var s2 := Taken(s1, m, 1, 5, 9, 13);
            var s3 := Taken(s2, m, 2, 6, 10, 14);
            && s1[1] == s[1] && s1[5] == s[5] && s1[9] == s[9] && s1[13] == s[13]
            && s2[2] == s[2] && s2[6] == s[6] && s2[10] == s[10] && s2[14] == s[14]
            && s3[3] == s[3] && s3[7] == s[7] && s3[11] == s[11] && s3[15] == s[15]
            && Taken(s3, m, 3, 7, 11, 15) == m
  {
  }

  lemma TakenDiagonals(m: State, t: State)
    ensures var m1 := Taken(m, t, 0, 5, 10, 15);
            var m2 := Taken(m1, t, 1, 6, 11, 12);
            var m3 := Taken(m2, t, 2, 7, 8, 13);
            && m1[1] == m[1] && m1[6] == m[6] && m1[11] == m[11] && m1[12] == m[12]
            && m2[2] == m[2] && m2[7] == m[7] && m2[8] == m[8] && m2[13] == m[13]
            && m3[3] == m[3] && m3[4] == m[4] && m3[9] == m[9] && m3[14] == m[14]
            && Taken(m3, t, 3, 4, 9, 14) == t
  {
  }

  /** The four column rounds take s to m. */
  lemma Columns(s: State, m: State)
    requires QuarterRound(Pick(s, 0, 4, 8, 12)) == Pick(m, 0, 4, 8, 12)
    requires QuarterRound(Pick(s, 1, 5, 9, 13)) == Pick(m, 1, 5, 9, 13)
    requires QuarterRound(Pick(s, 2, 6, 10, 14)) == Pick(m, 2, 6, 10, 14)
    requires QuarterRound(Pick(s, 3, 7, 11, 15)) == Pick(m, 3, 7, 11, 15)
    ensures ColumnRounds(s) == m
  {
    hide QuarterRound, QuarterAt, Pick, Taken;
    var s1 := Taken(s, m, 0, 4, 8, 12);
    var s2 := Taken(s1, m, 1, 5, 9, 13);
    var s3 := Taken(s2, m, 2, 6, 10, 14);
    TakenColumns(s, m);
    QuarterTakes(s, s, m, 0, 4, 8, 12);
    QuarterTakes(s1, s, m, 1, 5, 9, 13);
    QuarterTakes(s2, s, m, 2, 6, 10, 14);
    QuarterTakes(s3, s, m, 3, 7, 11, 15);
  }

  /** The four diagonal rounds take m to t. */
  lemma Diagonals(m: State, t: State)
    requires QuarterRound(Pick(m, 0, 5, 10, 15)) == Pick(t, 0, 5, 10, 15)
    requires QuarterRound(Pick(m, 1, 6, 11, 12)) == Pick(t, 1, 6, 11, 12)
    requires QuarterRound(Pick(m, 2, 7, 8, 13)) == Pick(t, 2, 7, 8, 13)
    requires QuarterRound(Pick(m, 3, 4, 9, 14)) == Pick(t, 3, 4, 9, 14)
    ensures DiagonalRounds(m) == t
  {
    hide QuarterRound, QuarterAt, Pick, Taken;
    var m1 := Taken(m, t, 0, 5, 10, 15);
    var m2 := Taken(m1, t, 1, 6, 11, 12);
    var m3 := Taken(m2, t, 2, 7, 8, 13);
    TakenDiagonals(m, t);
    QuarterTakes(m, m, t, 0, 5, 10, 15);
    QuarterTakes(m1, m, t, 1, 6, 11, 12);
    QuarterTakes(m2, m, t, 2, 7, 8, 13);
    QuarterTakes(m3, m, t, 3, 4, 9, 14);
  }

  lemma ColumnsOf0()
    ensures ColumnRounds(S0) == M0
  {
    hide ColumnRounds;
    Columns(S0, M0);
  }

  lemma DiagonalsOf0()
    ensures DiagonalRounds(M0) == S1
  {
    hide DiagonalRounds;
    Diagonals(M0, S1);
  }

  lemma ColumnsOf1()
    ensures ColumnRounds(S1) == M1
  {
    hide ColumnRounds;
    Columns(S1, M1);
  }

  lemma DiagonalsOf1()
    ensures DiagonalRounds(M1) == S2
  {
    hide DiagonalRounds;
    Diagonals(M1, S2);
  }

  lemma ColumnsOf2()
    ensures ColumnRounds(S2) == M2
  {
    hide ColumnRounds;
    Columns(S2, M2);
  }

  lemma DiagonalsOf2()
    ensures DiagonalRounds(M2) == S3
  {
    hide DiagonalRounds;
    Diagonals(M2, S3);
  }

  lemma ColumnsOf3()
    ensures ColumnRounds(S3) == M3
  {
    hide ColumnRounds;
    Columns(S3, M3);
  }

  lemma DiagonalsOf3()
    ensures DiagonalRounds(M3) == S4
  {
    hide DiagonalRounds;
    Diagonals(M3, S4);
  }

  lemma ColumnsOf4()
    ensures ColumnRounds(S4) == M4
  {
    hide ColumnRounds;
    Columns(S4, M4);
  }

  lemma DiagonalsOf4()
    ensures DiagonalRounds(M4) == S5
  {
    hide DiagonalRounds;
    Diagonals(M4, S5);
  }

  lemma ColumnsOf5()
    ensures ColumnRounds(S5) == M5
  {
    hide ColumnRounds;
    Columns(S5, M5);
  }

  lemma DiagonalsOf5()
    ensures DiagonalRounds(M5) == S6
  {
    hide DiagonalRounds;
    Diagonals(M5, S6);
  }

  lemma ColumnsOf6()
    ensures ColumnRounds(S6) == M6
  {
    hide ColumnRounds;
    Columns(S6, M6);
  }

  lemma DiagonalsOf6()
    ensures DiagonalRounds(M6) == S7
  {
    hide DiagonalRounds;
    Diagonals(M6, S7);
  }

  lemma ColumnsOf7()
    ensures ColumnRounds(S7) == M7
  {
    hide ColumnRounds;
    Columns(S7, M7);
  }

  lemma DiagonalsOf7()
    ensures DiagonalRounds(M7) == S8
  {
    hide DiagonalRounds;
    Diagonals(M7, S8);
  }

  lemma ColumnsOf8()
    ensures ColumnRounds(S8) == M8
  {
    hide ColumnRounds;
    Columns(S8, M8);
  }

  lemma DiagonalsOf8()
    ensures DiagonalRounds(M8) == S9
  {
    hide DiagonalRounds;
    Diagonals(M8, S9);
  }

  lemma ColumnsOf9()
    ensures ColumnRounds(S9) == M9
  {
    hide ColumnRounds;
    Columns(S9, M9);
  }

  lemma DiagonalsOf9()
    ensures DiagonalRounds(M9) == S10
  {
    hide DiagonalRounds;
    Diagonals(M9, S10);
  }

  lemma RoundsNext(s: State, t: nat, now: State, middle: State, next: State)
    requires Rounds(s, t) == now && ColumnRounds(now) == middle && DiagonalRounds(middle) == next
    ensures Rounds(s, t + 1) == next
  {
    hide ColumnRounds, DiagonalRounds;
  }

  /** The 20 rounds of the vector. */
  lemma TwentyRounds()
    ensures Rounds(S0, 10) == S10
  {
    hide ColumnRounds, DiagonalRounds, Rounds, S0, S1, S2, S3, S4, S5, S6, S7, S8, S9, S10;
    hide M0, M1, M2, M3, M4, M5, M6, M7, M8, M9;
    RoundsStart(S0);
    ColumnsOf0();
    DiagonalsOf0();
    RoundsNext(S0, 0, S0, M0, S1);
    ColumnsOf1();
    DiagonalsOf1();
    RoundsNext(S0, 1, S1, M1, S2);
    ColumnsOf2();
    DiagonalsOf2();
    RoundsNext(S0, 2, S2, M2, S3);
    ColumnsOf3();
    DiagonalsOf3();
    RoundsNext(S0, 3, S3, M3, S4);
    ColumnsOf4();
    DiagonalsOf4();
    RoundsNext(S0, 4, S4, M4, S5);
    ColumnsOf5();
    DiagonalsOf5();
    RoundsNext(S0, 5, S5, M5, S6);
    ColumnsOf6();
    DiagonalsOf6();
    RoundsNext(S0, 6, S6, M6, S7);
    ColumnsOf7();
    DiagonalsOf7();
    RoundsNext(S0, 7, S7, M7, S8);
    ColumnsOf8();
    DiagonalsOf8();
    RoundsNext(S0, 8, S8, M8, S9);
    ColumnsOf9();
    DiagonalsOf9();
    RoundsNext(S0, 9, S9, M9, S10);
  }

  lemma RoundsStart(s: State)
    ensures Rounds(s, 0) == s
  {
  }

  const KEY_LOW: Bytes := [
    0x00, 0x01, 0x02, 0x03, 0x04, 0x05, 0x06, 0x07, 0x08, 0x09, 0x0a, 0x0b, 0x0c, 0x0d, 0x0e, 0x0f]
  const KEY_HIGH: Bytes := [
    0x10, 0x11, 0x12, 0x13, 0x14, 0x15, 0x16, 0x17, 0x18, 0x19, 0x1a, 0x1b, 0x1c, 0x1d, 0x1e, 0x1f]
  const KEY: Key := KEY_LOW + KEY_HIGH
  const NONCE: Nonce := [0x00, 0x00, 0x00, 0x09, 0x00, 0x00, 0x00, 0x4a, 0x00, 0x00, 0x00, 0x00]
  const SUM: State := [
      0xe4e7f110, 0x15593bd1, 0x1fdd0f50, 0xc47120a3, 0xc7f4d1c7, 0x0368c033, 0x9aaa2204, 0x4e6cd4c3,
      0x466482d2, 0x09aa9f07, 0x05d7c214, 0xa2028bd9, 0xd19c12b5, 0xb94e16de, 0xe883d0cb, 0x4e3c50a2]

  lemma InitialIsS0()
    ensures InitialState(KEY, NONCE, 1) == S0
  {
    hide ReadWords, LowWord;
    CounterOne();
    KeyWords();
    NonceWords();
    ConstantWords();
    assert S0 == S0[..4] + S0[4..12] + [S0[12]] + S0[13..];
  }

  lemma KeyWords()
    ensures ReadWords(KEY) == S0[4..12]
  {
    hide ReadWords;
    LowKeyWords();
    HighKeyWords();
    ReadJoins(KEY_LOW, KEY_HIGH);
  }

  lemma LowKeyWords()
    ensures |KEY_LOW| == 16 && ReadWords(KEY_LOW) == S0[4..8]
  {
  }

  lemma HighKeyWords()
    ensures |KEY_HIGH| == 16 && ReadWords(KEY_HIGH) == S0[8..12]
  {
  }

  lemma ConstantWords()
    ensures CONSTANTS == S0[..4] && S0[12] == 1
  {
    assert |CONSTANTS| == 4 && CONSTANTS[0] == S0[0] && CONSTANTS[1] == S0[1];
    assert CONSTANTS[2] == S0[2] && CONSTANTS[3] == S0[3];
  }

  lemma NonceWords()
    ensures ReadWords(NONCE) == S0[13..]
  {
  }

  lemma CounterOne()
    ensures LowWord(1) == 1
  {
    hide LowWord;
    LowWordBytes(1);
    ByteFromValue(1, 1);
    ByteFromValue(0, 0);
    assert WordOf(1, 0, 0, 0) == 1;
  }

  lemma FeedForward()
    ensures AddStates(S10, S0) == SUM
  {
    hide S0, S10, SUM;
    FirstSums();
    SecondSums();
    ThirdSums();
    LastSums();
    forall p | 0 <= p < 16
      ensures AddStates(S10, S0)[p] == SUM[p]
    {
    }
  }

  lemma FirstSums()
    ensures forall p :: 0 <= p < 4 ==> Add(S10[p], S0[p]) == SUM[p]
  {
  }

  lemma SecondSums()
    ensures forall p :: 4 <= p < 8 ==> Add(S10[p], S0[p]) == SUM[p]
  {
  }

  lemma ThirdSums()
    ensures forall p :: 8 <= p < 12 ==> Add(S10[p], S0[p]) == SUM[p]
  {
  }

  lemma LastSums()
    ensures forall p :: 12 <= p < 16 ==> Add(S10[p], S0[p]) == SUM[p]
  {
  }

  const ROW0: Bytes := [0x10, 0xf1, 0xe7, 0xe4, 0xd1, 0x3b, 0x59, 0x15, 0x50, 0x0f, 0xdd, 0x1f, 0xa3, 0x20, 0x71, 0xc4]
  const ROW1: Bytes := [0xc7, 0xd1, 0xf4, 0xc7, 0x33, 0xc0, 0x68, 0x03, 0x04, 0x22, 0xaa, 0x9a, 0xc3, 0xd4, 0x6c, 0x4e]
  const ROW2: Bytes := [0xd2, 0x82, 0x64, 0x46, 0x07, 0x9f, 0xaa, 0x09, 0x14, 0xc2, 0xd7, 0x05, 0xd9, 0x8b, 0x02, 0xa2]
  const ROW3: Bytes := [0xb5, 0x12, 0x9c, 0xd1, 0xde, 0x16, 0x4e, 0xb9, 0xcb, 0xd0, 0x83, 0xe8, 0xa2, 0x50, 0x3c, 0x4e]

  lemma RowsRead()
    ensures ReadWords(ROW0) == SUM[..4] && ReadWords(ROW1) == SUM[4..8]
    ensures ReadWords(ROW2) == SUM[8..12] && ReadWords(ROW3) == SUM[12..]
  {
    FirstRows();
    LastRows();
  }

  lemma FirstRows()
    ensures ReadWords(ROW0) == SUM[..4] && ReadWords(ROW1) == SUM[4..8]
  {
  }

  lemma LastRows()
    ensures ReadWords(ROW2) == SUM[8..12] && ReadWords(ROW3) == SUM[12..]
  {
  }

  /** The serialised block of the vector, all 64 bytes. */
  lemma BlockVector()
    ensures Block(KEY, NONCE, 1) == ROW0 + ROW1 + ROW2 + ROW3
  {
    hide AddStates, Rounds, InitialState, ReadWords, WriteWords, S0, S10, SUM, KEY, NONCE;
    InitialIsS0();
    TwentyRounds();
    FeedForward();
    RowsRead();
    RowLengths();
    ReadJoins(ROW0, ROW1);
    ReadJoins(ROW0 + ROW1, ROW2);
    ReadJoins(ROW0 + ROW1 + ROW2, ROW3);
    assert SUM == SUM[..4] + SUM[4..8] + SUM[8..12] + SUM[12..];
    WriteReadWords(ROW0 + ROW1 + ROW2 + ROW3);
  }

  lemma RowLengths()
    ensures |ROW0| == |ROW1| == |ROW2| == |ROW3| == 16
  {
  }
}
