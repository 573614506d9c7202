/**
 One literal block of the permutation in cipher/gimli.go: key 00 .. 1f, nonce
 000000090000004a00000000, block 1. Sk is the state after k rounds. Every step is proved.
 */
module GimliVector {
  import opened Modular
  import opened ByteStrings
  import opened Words
  import opened Gimli
  import ChaChaVector

  const S0: State := [
      0x03020100, 0x07060504, 0x0b0a0908, 0x0f0e0d0c, 0x13121110, 0x17161514,
      0x1b1a1918, 0x1f1e1d1c, 0x09000000, 0x4a000000, 0x00000000, 0x00000001]
  const S1: State := [
      0x8b357800, 0x0b0a0908, 0x0f0e0d0e, 0x9b060504, 0x06141210, 0x8e1c1a18,
      0x06040200, 0x0e0c0a0a, 0x02021910, 0x65263d34, 0x434a5158, 0x676e757d]
  const S2: State := [
      0x87310a60, 0x819aafbe, 0x4deaefde, 0xd1561320, 0x9b4f9830, 0x5b4a6968,
      0x9796b5b2, 0x6bd6e5f4, 0x14b68b00, 0xbb7a676c, 0x756e5358, 0x39427f77]
  const S3: State := [
      0xee463c60, 0xf32e0d2e, 0x06db781e, 0x9a47e4c6, 0x33118490, 0xad25192a,
      0x21a1a5d0, 0x482c083a, 0x97f15230, 0xe8614744, 0xceedca7a, 0x58249383]
  const S4: State := [
      0x8de09840, 0x9986edaa, 0x0a9ec3c8, 0x836887a6, 0x22b94410, 0xa8d58ad8,
      0xba852932, 0x66a40372, 0xb4e0f6a0, 0x4c64173e, 0xeb456f2a, 0x50289ba9]
  const S5: State := [
      0xf8971c04, 0x7400b914, 0x23b9bc74, 0x205ecbb6, 0xd4982190, 0x8a9e980e,
      0x67a4352e, 0x431dbb8a, 0x9359b2b0, 0xa095d9a6, 0x05e04e18, 0x278c81cb]
  const S6: State := [
      0x9e44fb24, 0x3ef93064, 0x6375ce08, 0x37796a40, 0xdbb040fc, 0x17b5d276,
      0x0bee75a2, 0x2cfee7c2, 0xc3419320, 0x2a0f8188, 0x7f45da16, 0x64756651]
  const S7: State := [
      0x14c7dde4, 0xb0ef3a2c, 0x6e423fe2, 0x62f03374, 0xfb7f4d90, 0x54b381ca,
      0x96700796, 0xf57d5120, 0xc8f3d2fc, 0x8832d0de, 0x6f898fb4, 0x6b489393]
  const S8: State := [
      0xa4ed7a5c, 0xa9513eda, 0x31415052, 0xa04098b8, 0x56572f8c, 0x95a34e1a,
      0x27a54798, 0x407c05ba, 0xb1b6f36c, 0x59995154, 0xcbf9b432, 0x9db54bb3]
  const S9: State := [
      0x19ef69bc, 0xa8362876, 0x9bfa0916, 0x5c669c32, 0x9945a328, 0xcf408f7c,
      0xe117ff2e, 0x9bd72a74, 0xc5c88c80, 0xc4326f9e, 0xe456f32a, 0xdfc94bc9]
  const S10: State := [
      0x977c70bc, 0xd30c23ea, 0x8cf022a0, 0x3052cb3a, 0x3b7511ec, 0xbf1a78f6,
      0x85100044, 0x786e09b0, 0x96a426e8, 0x4b72a342, 0x0dd14434, 0x862e203d]
  const S11: State := [
      0xf2a43ecc, 0x8312aad8, 0x3cb68b80, 0x69a1e466, 0x83f18ca8, 0xdaeb1cc8,
      0x1202ef8c, 0x24c114f4, 0x3671b264, 0x6c29dca4, 0xa8414470, 0x7c50600d]
  const S12: State := [
      0x97815a84, 0x6c351360, 0x0001246c, 0x7be56190, 0x9cbecfbc, 0x878e4be8,
      0x575bfbec, 0xb683384c, 0xa0805a8c, 0xa6d2862c, 0x3a57f7fc, 0x5c9957d9]
  const S13: State := [
      0x4ab7bca0, 0x3de10424, 0x90d38f02, 0x3b981798, 0x643d2020, 0x36547650,
      0x23f53078, 0x329cb66e, 0x983cc110, 0x017cd6c4, 0x6d050f70, 0x7e136f95]
  const S14: State := [
      0x7a3e3e80, 0xcecd9022, 0x0ffe50a2, 0x3e49f0ac, 0x9bf567e0, 0x704edfbc,
      0x4889a19e, 0xf6325ecc, 0xfda8e030, 0x95288094, 0x48783f08, 0xd84f69bb]
  const S15: State := [
      0xe7ee7e60, 0xbf2eaa92, 0xcede01fa, 0xa4be935a, 0x1eb6a400, 0x01586ef2,
      0xd88b0e68, 0x34e45d1e, 0xb7fcb3d0, 0xe702de28, 0x44b19a86, 0x9e7fb317]
  const S16: State := [
      0xd2c599c0, 0x45b91cf6, 0xc9d1b12c, 0x752a2e42, 0x16a52580, 0x402b3914,
      0x8baa386e, 0xeda5a8fa, 0x9c7b37d0, 0xee1be44a, 0xd86a97ae, 0x8fbb66d9]
  const S17: State := [
      0x24801970, 0x59acdec8, 0x5cd86090, 0x99a25462, 0x799fc3e0, 0xdae5dc1e,
      0xf18ce61e, 0x67f95b0e, 0x1ef61e50, 0xaf781dfe, 0x1fc12ea0, 0x4b1f8c33]
  const S18: State := [
      0x7b342cd0, 0x255aa5d0, 0x03f96c0c, 0x2edc954c, 0x20f3e470, 0x7cb0bd2a,
      0x12e65bee, 0x4924b78a, 0x6369d6b0, 0xb0bb21a0, 0x6a0ec83e, 0x21e4572d]
  const S19: State := [
      0x3c609170, 0xdffddcc8, 0x69846736, 0x86ec6210, 0xad3c3540, 0x321d531a,
      0xc6e0ef9e, 0x38018c1c, 0x421b1040, 0xec8eb48a, 0x6fead3b0, 0x28e448e7]
  const S20: State := [
      0xb836f0f0, 0xadd2ce16, 0x7724d3ce, 0x86d0f5f4, 0x6dab86d0, 0x121f7646,
      0x70b967c4, 0xe3353be2, 0x8e27af00, 0x4e7967d0, 0xad09049e, 0x10e5c47b]
  const S21: State := [
      0x0ac0cfe4, 0xad12c8e2, 0xa78f7c8a, 0x394598b6, 0xa9f289c0, 0x603a67fc,
      0xf9c61bb6, 0x480e25e8, 0xa2982f50, 0x5cf421a6, 0x5cb27d7a, 0xe3517099]
  const S22: State := [
      0xcdb0b444, 0x7ce3e2b6, 0xffe7fba4, 0x143a0d3e, 0xf68399cc, 0x36c57cd2,
      0xa1379cc8, 0x87e04c20, 0x4d6ee890, 0x3c5c415a, 0xa944a2dc, 0xeb7f5071]
  const S23: State := [
      0x47674764, 0x297cbd3c, 0xcf45ad5c, 0xd54a614a, 0xa0ced420, 0xb3d95998,
      0xa11f9094, 0x6d24fbe0, 0x9fe9f37c, 0xac923918, 0x014ffa14, 0x4d9f7d51]
  const S24: State := [
      0x7b97e11c, 0xc9e41924, 0x7a657ee8, 0xf218ab6c, 0x58767dbc, 0xc1589edc,
      0xf0c5c370, 0x03d0601c, 0x3d15065c, 0x158ba840, 0xa87c6a20, 0x08b88cb1]

  /** The state before the lane rotation and the constant, which left x in word 0. */
  function Unturned(t: State, x: Word): State {
    [x, t[3], t[1], t[2], t[4], t[5], t[6], t[7], t[8], t[9], t[10], t[11]]
  }

  /** A round: the SP-box on four columns, the lane rotation, the constant. */
  lemma RoundIs(s: State, t: State, round: nat, x: Word)
    requires var m := Unturned(t, x); Column(s, m, 0) && Column(s, m, 1) && Column(s, m, 2) && Column(s, m, 3)
    requires t[0] == if round % 4 == 0 then Xored(x, RoundConstant(round)) else x
    ensures Round(s, round) == t
  {
    hide Xored, RoundConstant, SpLayer, AddConstant, Rotated, Column;
    SpIs(s, Unturned(t, x));
    TurnIs(Unturned(t, x), t, round);
  }

  predicate Column(s: State, m: State, i: nat)
    requires i < 4
  {
    && m[i] == SpX(s[i], s[i + 4], s[i + 8])
    && m[i + 4] == SpY(s[i], s[i + 4], s[i + 8])
    && m[i + 8] == SpZ(s[i], s[i + 4], s[i + 8])
  }

  lemma SpIs(s: State, m: State)
    requires Column(s, m, 0) && Column(s, m, 1) && Column(s, m, 2) && Column(s, m, 3)
    ensures SpLayer(s) == m
  {
    hide SpLayer, Column;
    var r := SpLayer(s);
    ColumnEntries(s, m, 0);
    ColumnEntries(s, m, 1);
    ColumnEntries(s, m, 2);
    ColumnEntries(s, m, 3);
    Words12(r, m);
  }

  lemma Words12(r: State, m: State)
    requires r[0] == m[0] && r[1] == m[1] && r[2] == m[2] && r[3] == m[3]
    requires r[4] == m[4] && r[5] == m[5] && r[6] == m[6] && r[7] == m[7]
    requires r[8] == m[8] && r[9] == m[9] && r[10] == m[10] && r[11] == m[11]
    ensures r == m
  {
  }

  lemma ColumnEntries(s: State, m: State, i: nat)
    requires i < 4 && Column(s, m, i)
    ensures SpLayer(s)[i] == m[i] && SpLayer(s)[i + 4] == m[i + 4] && SpLayer(s)[i + 8] == m[i + 8]
  {
    hide SpX, SpY, SpZ;
  }

  lemma TurnIs(m: State, t: State, round: nat)
    requires t[0] == if round % 4 == 0 then Xored(m[0], RoundConstant(round)) else m[0]
    requires t[1] == m[2] && t[2] == m[3] && t[3] == m[1]
    requires forall i :: 4 <= i < 12 ==> t[i] == m[i]
    ensures AddConstant(Rotated(m), round) == t
  {
    hide Xored, RoundConstant;
    var r := AddConstant(Rotated(m), round);
    forall i | 0 <= i < 12
      ensures r[i] == t[i]
    {
    }
  }

  lemma ConstantIs(round: nat, w: Word, c: Word)
    requires LowWord(round) == w && c == 0x9e377900 | w
    ensures RoundConstant(round) == c
  {
    hide LowWord;
  }

  lemma LowWordIs(round: nat, b: bv8, w: Word)
    requires round < 256 && b as int == round && w == WordOf(b, 0, 0, 0)
    ensures LowWord(round) == w
  {
    hide LowWord, WordOf;
    SmallMod(round, WORD_RANGE);
    LowWordBytes(round);
    ByteFromValue(round, b);
    ByteFromValue(0, 0);
    assert ByteOf(round) == b && ByteOf(0) == 0;
  }

  lemma Round0()
    ensures Round(S0, 0) == S1
  {
    hide Round, RoundConstant, LowWord;
    LowWordIs(0, 0, 0);
    ConstantIs(0, 0, 0x9e377900);
    RoundIs(S0, S1, 0, 0x15020100);
  }

  lemma Round1()
    ensures Round(S1, 1) == S2
  {
    hide Round, RoundConstant, LowWord;
    RoundIs(S1, S2, 1, 0x87310a60);
  }

  lemma Round2()
    ensures Round(S2, 2) == S3
  {
    hide Round, RoundConstant, LowWord;
    RoundIs(S2, S3, 2, 0xee463c60);
  }

  lemma Round3()
    ensures Round(S3, 3) == S4
  {
    hide Round, RoundConstant, LowWord;
    RoundIs(S3, S4, 3, 0x8de09840);
  }

  lemma Round4()
    ensures Round(S4, 4) == S5
  {
    hide Round, RoundConstant, LowWord;
    LowWordIs(4, 4, 4);
    ConstantIs(4, 4, 0x9e377904);
    RoundIs(S4, S5, 4, 0x66a06500);
  }

  lemma Round5()
    ensures Round(S5, 5) == S6
  {
    hide Round, RoundConstant, LowWord;
    RoundIs(S5, S6, 5, 0x9e44fb24);
  }

  lemma Round6()
    ensures Round(S6, 6) == S7
  {
    hide Round, RoundConstant, LowWord;
    RoundIs(S6, S7, 6, 0x14c7dde4);
  }

  lemma Round7()
    ensures Round(S7, 7) == S8
  {
    hide Round, RoundConstant, LowWord;
    RoundIs(S7, S8, 7, 0xa4ed7a5c);
  }

  lemma Round8()
    ensures Round(S8, 8) == S9
  {
    hide Round, RoundConstant, LowWord;
    LowWordIs(8, 8, 8);
    ConstantIs(8, 8, 0x9e377908);
    RoundIs(S8, S9, 8, 0x87d810b4);
  }

  lemma Round9()
    ensures Round(S9, 9) == S10
  {
    hide Round, RoundConstant, LowWord;
    RoundIs(S9, S10, 9, 0x977c70bc);
  }

  lemma Round10()
    ensures Round(S10, 10) == S11
  {
    hide Round, RoundConstant, LowWord;
    RoundIs(S10, S11, 10, 0xf2a43ecc);
  }

  lemma Round11()
    ensures Round(S11, 11) == S12
  {
    hide Round, RoundConstant, LowWord;
    RoundIs(S11, S12, 11, 0x97815a84);
  }

  lemma Round12()
    ensures Round(S12, 12) == S13
  {
    hide Round, RoundConstant, LowWord;
    LowWordIs(12, 12, 12);
    ConstantIs(12, 12, 0x9e37790c);
    RoundIs(S12, S13, 12, 0xd480c5ac);
  }

  lemma Round13()
    ensures Round(S13, 13) == S14
  {
    hide Round, RoundConstant, LowWord;
    RoundIs(S13, S14, 13, 0x7a3e3e80);
  }

  lemma Round14()
    ensures Round(S14, 14) == S15
  {
    hide Round, RoundConstant, LowWord;
    RoundIs(S14, S15, 14, 0xe7ee7e60);
  }

  lemma Round15()
    ensures Round(S15, 15) == S16
  {
    hide Round, RoundConstant, LowWord;
    RoundIs(S15, S16, 15, 0xd2c599c0);
  }

  lemma Round16()
    ensures Round(S16, 16) == S17
  {
    hide Round, RoundConstant, LowWord;
    LowWordIs(16, 16, 16);
    ConstantIs(16, 16, 0x9e377910);
    RoundIs(S16, S17, 16, 0xbab76060);
  }

  lemma Round17()
    ensures Round(S17, 17) == S18
  {
    hide Round, RoundConstant, LowWord;
    RoundIs(S17, S18, 17, 0x7b342cd0);
  }

  lemma Round18()
    ensures Round(S18, 18) == S19
  {
    hide Round, RoundConstant, LowWord;
    RoundIs(S18, S19, 18, 0x3c609170);
  }

  lemma Round19()
    ensures Round(S19, 19) == S20
  {
    hide Round, RoundConstant, LowWord;
    RoundIs(S19, S20, 19, 0xb836f0f0);
  }

  lemma Round20()
    ensures Round(S20, 20) == S21
  {
    hide Round, RoundConstant, LowWord;
    LowWordIs(20, 20, 20);
    ConstantIs(20, 20, 0x9e377914);
    RoundIs(S20, S21, 20, 0x94f7b6f0);
  }

  lemma Round21()
    ensures Round(S21, 21) == S22
  {
    hide Round, RoundConstant, LowWord;
    RoundIs(S21, S22, 21, 0xcdb0b444);
  }

  lemma Round22()
    ensures Round(S22, 22) == S23
  {
    hide Round, RoundConstant, LowWord;
    RoundIs(S22, S23, 22, 0x47674764);
  }

  lemma Round23()
    ensures Round(S23, 23) == S24
  {
    hide Round, RoundConstant, LowWord;
    RoundIs(S23, S24, 23, 0x7b97e11c);
  }

  lemma RoundsNext(s: State, t: nat, now: State, next: State)
    requires Rounds(s, t) == now && Round(now, t) == next
    ensures Rounds(s, t + 1) == next
  {
    hide Round;
  }

  lemma RoundsStart(s: State)
    ensures Rounds(s, 0) == s
  {
  }

  lemma TwentyFourRounds()
    ensures Rounds(S0, 24) == S24
  {
    hide Round, Rounds, S0, S1, S2, S3, S4, S5, S6, S7, S8, S9, S10, S11, S12;
    hide S13, S14, S15, S16, S17, S18, S19, S20, S21, S22, S23, S24;
    RoundsStart(S0);
    Round0();
    RoundsNext(S0, 0, S0, S1);
    Round1();
    RoundsNext(S0, 1, S1, S2);
    Round2();
    RoundsNext(S0, 2, S2, S3);
    Round3();
    RoundsNext(S0, 3, S3, S4);
    Round4();
    RoundsNext(S0, 4, S4, S5);
    Round5();
    RoundsNext(S0, 5, S5, S6);
    Round6();
    RoundsNext(S0, 6, S6, S7);
    Round7();
    RoundsNext(S0, 7, S7, S8);
    Round8();
    RoundsNext(S0, 8, S8, S9);
    Round9();
    RoundsNext(S0, 9, S9, S10);
    Round10();
    RoundsNext(S0, 10, S10, S11);
    Round11();
    RoundsNext(S0, 11, S11, S12);
    Round12();
    RoundsNext(S0, 12, S12, S13);
    Round13();
    RoundsNext(S0, 13, S13, S14);
    Round14();
    RoundsNext(S0, 14, S14, S15);
    Round15();
    RoundsNext(S0, 15, S15, S16);
    Round16();
    RoundsNext(S0, 16, S16, S17);
    Round17();
    RoundsNext(S0, 17, S17, S18);
    Round18();
    RoundsNext(S0, 18, S18, S19);
    Round19();
    RoundsNext(S0, 19, S19, S20);
    Round20();
    RoundsNext(S0, 20, S20, S21);
    Round21();
    RoundsNext(S0, 21, S21, S22);
    Round22();
    RoundsNext(S0, 22, S22, S23);
    Round23();
    RoundsNext(S0, 23, S23, S24);
  }

  lemma InitialIsS0()
    ensures InitialState(ChaChaVector.KEY, ChaChaVector.NONCE, 1) == S0
  {
    hide ReadWords, LowWord, ChaChaVector.S0;
    ChaChaVector.CounterOne();
    ChaChaVector.KeyWords();
    ChaChaVector.NonceWords();
    SameWords();
    assert S0 == S0[..8] + S0[8..11] + [S0[11]];
  }

  lemma SameWords()
    ensures S0[..8] == ChaChaVector.S0[4..12] && S0[8..11] == ChaChaVector.S0[13..] && S0[11] == 1
  {
  }

  const ROW0: Bytes := [0x1c, 0xe1, 0x97, 0x7b, 0x24, 0x19, 0xe4, 0xc9, 0xe8, 0x7e, 0x65, 0x7a, 0x6c, 0xab, 0x18, 0xf2]
  const ROW1: Bytes := [0xbc, 0x7d, 0x76, 0x58, 0xdc, 0x9e, 0x58, 0xc1, 0x70, 0xc3, 0xc5, 0xf0, 0x1c, 0x60, 0xd0, 0x03]
  const ROW2: Bytes := [0x5c, 0x06, 0x15, 0x3d, 0x40, 0xa8, 0x8b, 0x15, 0x20, 0x6a, 0x7c, 0xa8, 0xb1, 0x8c, 0xb8, 0x08]

  lemma RowsRead()
    ensures |ROW0| == |ROW1| == |ROW2| == 16
    ensures ReadWords(ROW0) == S24[..4] && ReadWords(ROW1) == S24[4..8] && ReadWords(ROW2) == S24[8..]
  {
    hide ReadWords, S24, ROW0, ROW1, ROW2;
    FirstRow();
    SecondRow();
    ThirdRow();
  }

  lemma FirstRow()
    ensures |ROW0| == 16 && ReadWords(ROW0) == S24[..4]
  {
  }

  lemma SecondRow()
    ensures |ROW1| == 16 && ReadWords(ROW1) == S24[4..8]
  {
  }

  lemma ThirdRow()
    ensures |ROW2| == 16 && ReadWords(ROW2) == S24[8..]
  {
  }

  /** All 48 bytes of the block. */
  lemma BlockVector()
    ensures Block(ChaChaVector.KEY, ChaChaVector.NONCE, 1) == ROW0 + ROW1 + ROW2
  {
    hide Rounds, InitialState, ReadWords, WriteWords, S0, S24, ChaChaVector.KEY, ChaChaVector.NONCE;
    InitialIsS0();
    TwentyFourRounds();
    RowsRead();
    ReadJoins(ROW0, ROW1);
    ReadJoins(ROW0 + ROW1, ROW2);
    assert S24 == S24[..4] + S24[4..8] + S24[8..];
    WriteReadWords(ROW0 + ROW1 + ROW2);
  }
}
