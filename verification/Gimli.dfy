/**
 The 12-word block map of cipher/gimli.go and the proof that it is injective: distinct keys,
 nonces or block numbers (modulo 2^32) give distinct 48-byte blocks. The rounds are those of
 the source, which omit the rotations of the published Gimli permutation.
 */
module Gimli {
  import opened ByteStrings
  import opened Words

  /** The state: rows x = w[0..4], y = w[4..8], z = w[8..12]. */
  type State = s: seq<Word> | |s| == 12 witness seq(12, i => 0)

  // ------------------------------------------------------------ the SP-box

  /** The four cross terms, each shifted left. */
  function ShiftedZ(z: Word): Word {
    z << 1
  }

  function CrossYZ(y: Word, z: Word): Word {
    (y & z) << 2
  }

  function CrossXZ(x: Word, z: Word): Word {
    (x | z) << 1
  }

  function CrossXY(x: Word, y: Word): Word {
    (x & y) << 3
  }

  function SpX(x: Word, y: Word, z: Word): Word {
    x ^ ShiftedZ(z) ^ CrossYZ(y, z)
  }

  function SpY(x: Word, y: Word, z: Word): Word {
    y ^ x ^ CrossXZ(x, z)
  }

  function SpZ(x: Word, y: Word, z: Word): Word {
    z ^ y ^ CrossXY(x, y)
  }

  /** a and a' have the same bits under the mask m. */
  predicate Agree(a: Word, a': Word, m: Word) {
    (a ^ a') & m == 0
  }

  /** A mask of low bits, and the mask of one bit more. */
  predicate LowBits(m: Word) {
    m & (m + 1) == 0
  }

  function Wider(m: Word): Word {
    (m << 1) | 1
  }

  lemma AgreeNowhere(a: Word, a': Word)
    ensures Agree(a, a', 0)
  {
  }

  lemma AgreeEverywhere(a: Word, a': Word)
    requires Agree(a, a', 0xffff_ffff)
    ensures a == a'
  {
  }

  /** Cross terms of columns that agree on the low bits m agree on one bit more. */
  lemma ShiftedAgree(z: Word, z': Word, m: Word)
    requires Agree(z, z', m)
    ensures Agree(ShiftedZ(z), ShiftedZ(z'), Wider(m))
  {
  }

  lemma CrossYZAgree(y: Word, z: Word, y': Word, z': Word, m: Word)
    requires LowBits(m) && Agree(y, y', m) && Agree(z, z', m)
    ensures Agree(CrossYZ(y, z), CrossYZ(y', z'), Wider(m))
  {
    AndAgree(y, z, y', z', m);
    ShiftTwoAgree(y & z, y' & z', m);
  }

  lemma CrossXZAgree(x: Word, z: Word, x': Word, z': Word, m: Word)
    requires Agree(x, x', m) && Agree(z, z', m)
    ensures Agree(CrossXZ(x, z), CrossXZ(x', z'), Wider(m))
  {
    ShiftedAgree(x | z, x' | z', m);
  }

  lemma CrossXYAgree(x: Word, y: Word, x': Word, y': Word, m: Word)
    requires LowBits(m) && Agree(x, x', m) && Agree(y, y', m)
    ensures Agree(CrossXY(x, y), CrossXY(x', y'), Wider(m))
  {
    AndAgree(x, y, x', y', m);
    ShiftThreeAgree(x & y, x' & y', m);
  }

  lemma AndAgree(a: Word, b: Word, a': Word, b': Word, m: Word)
    requires Agree(a, a', m) && Agree(b, b', m)
    ensures Agree(a & b, a' & b', m)
  {
  }

  lemma ShiftTwoAgree(a: Word, a': Word, m: Word)
    requires LowBits(m) && Agree(a, a', m)
    ensures Agree(a << 2, a' << 2, Wider(m))
  {
  }

  lemma ShiftThreeAgree(a: Word, a': Word, m: Word)
    requires LowBits(m) && Agree(a, a', m)
    ensures Agree(a << 3, a' << 3, Wider(m))
  {
  }

  lemma WiderLowBits(m: Word)
    requires LowBits(m)
    ensures LowBits(Wider(m))
  {
  }

  /** Each output determines its own input where the cross terms agree. */
  lemma SolveX(x: Word, y: Word, z: Word, x': Word, y': Word, z': Word, m: Word)
    requires SpX(x, y, z) == SpX(x', y', z')
    requires Agree(ShiftedZ(z), ShiftedZ(z'), m) && Agree(CrossYZ(y, z), CrossYZ(y', z'), m)
    ensures Agree(x, x', m)
  {
    hide ShiftedZ, CrossYZ;
  }

  lemma SolveY(x: Word, y: Word, z: Word, x': Word, y': Word, z': Word, m: Word)
    requires SpY(x, y, z) == SpY(x', y', z')
    requires Agree(x, x', m) && Agree(CrossXZ(x, z), CrossXZ(x', z'), m)
    ensures Agree(y, y', m)
  {
    hide CrossXZ;
  }

  lemma SolveZ(x: Word, y: Word, z: Word, x': Word, y': Word, z': Word, m: Word)
    requires SpZ(x, y, z) == SpZ(x', y', z')
    requires Agree(y, y', m) && Agree(CrossXY(x, y), CrossXY(x', y'), m)
    ensures Agree(z, z', m)
  {
    hide CrossXY;
  }

  /** Two columns agree on the bits of mask m. */
  predicate ColumnsAgree(x: Word, y: Word, z: Word, x': Word, y': Word, z': Word, m: Word) {
    Agree(x, x', m) && Agree(y, y', m) && Agree(z, z', m)
  }

  predicate SameImage(x: Word, y: Word, z: Word, x': Word, y': Word, z': Word) {
    SpX(x, y, z) == SpX(x', y', z') && SpY(x, y, z) == SpY(x', y', z') && SpZ(x, y, z) == SpZ(x', y', z')
  }

  /**
   The inductive step over bit positions: because every cross term is shifted left, inputs
   with the same image that agree on the low bits m agree on one bit more.
   */
  lemma SpNextBit(x: Word, y: Word, z: Word, x': Word, y': Word, z': Word, m: Word)
    requires LowBits(m)
    requires SameImage(x, y, z, x', y', z') && ColumnsAgree(x, y, z, x', y', z', m)
    ensures ColumnsAgree(x, y, z, x', y', z', Wider(m))
  {
    hide Agree, LowBits, Wider, SpX, SpY, SpZ, ShiftedZ, CrossYZ, CrossXZ, CrossXY;
    ShiftedAgree(z, z', m);
    CrossYZAgree(y, z, y', z', m);
    SolveX(x, y, z, x', y', z', Wider(m));
    CrossXZAgree(x, z, x', z', m);
    SolveY(x, y, z, x', y', z', Wider(m));
    CrossXYAgree(x, y, x', y', m);
    SolveZ(x, y, z, x', y', z', Wider(m));
  }

  /** The mask of the t low bits. */
  function LowMask(t: nat): (m: Word) {
    if t == 0 then 0 else Wider(LowMask(t - 1))
  }

  lemma {:induction false} LowMaskShape(t: nat)
    ensures LowBits(LowMask(t))
  {
    if t > 0 {
      LowMaskShape(t - 1);
      WiderLowBits(LowMask(t - 1));
    }
  }

  lemma FullMask()
    ensures LowMask(32) == 0xffff_ffff
  {
    assert LowMask(8) == 0xff;
    assert LowMask(16) == 0xffff;
    assert LowMask(24) == 0xff_ffff;
  }

  lemma {:induction false} SpLowBits(x: Word, y: Word, z: Word, x': Word, y': Word, z': Word, t: nat)
    requires SameImage(x, y, z, x', y', z')
    ensures ColumnsAgree(x, y, z, x', y', z', LowMask(t))
  {
    hide Agree, LowBits, Wider, SameImage;
    if t == 0 {
      AgreeNowhere(x, x');
      AgreeNowhere(y, y');
      AgreeNowhere(z, z');
    } else {
      SpLowBits(x, y, z, x', y', z', t - 1);
      LowMaskShape(t - 1);
      SpNextBit(x, y, z, x', y', z', LowMask(t - 1));
    }
  }

  /** The SP-box is injective. */
  lemma SpInjective(x: Word, y: Word, z: Word, x': Word, y': Word, z': Word)
    requires SameImage(x, y, z, x', y', z')
    ensures x == x' && y == y' && z == z'
  {
    hide Agree, LowMask, SameImage;
    SpLowBits(x, y, z, x', y', z', 32);
    FullMask();
    AgreeEverywhere(x, x');
    AgreeEverywhere(y, y');
    AgreeEverywhere(z, z');
  }

  // ------------------------------------------------------------ the rounds

  /** The SP-box on all four columns. */
  function SpLayer(s: State): State {
    seq(12, i requires 0 <= i < 12 =>
      if i < 4 then SpX(s[i], s[i + 4], s[i + 8])
      else if i < 8 then SpY(s[i - 4], s[i], s[i + 4])
      else SpZ(s[i - 8], s[i - 4], s[i]))
  }

  /** Lanes 1, 2, 3 of the first row rotate by one place. */
  function Rotated(s: State): State {
    s[1 := s[2]][2 := s[3]][3 := s[1]]
  }

  function RoundConstant(round: nat): Word {
    0x9e377900 | LowWord(round)
  }

  function Xored(a: Word, c: Word): Word {
    a ^ c
  }

  function AddConstant(s: State, round: nat): State {
    if round % 4 == 0 then s[0 := Xored(s[0], RoundConstant(round))] else s
  }

  function Round(s: State, round: nat): State {
    AddConstant(Rotated(SpLayer(s)), round)
  }

  /** The first t rounds. */
  function Rounds(s: State, t: nat): State {
    if t == 0 then s else Round(Rounds(s, t - 1), t - 1)
  }

  lemma ColumnInjective(s: State, s': State, i: nat)
    requires i < 4 && SpLayer(s) == SpLayer(s')
    ensures s[i] == s'[i] && s[i + 4] == s'[i + 4] && s[i + 8] == s'[i + 8]
  {
    hide SpX, SpY, SpZ;
    var r, r' := SpLayer(s), SpLayer(s');
    assert r[i] == r'[i] && r[i + 4] == r'[i + 4] && r[i + 8] == r'[i + 8];
    SpInjective(s[i], s[i + 4], s[i + 8], s'[i], s'[i + 4], s'[i + 8]);
  }

  lemma SpLayerInjective(s: State, s': State)
    requires SpLayer(s) == SpLayer(s')
    ensures s == s'
  {
    ColumnInjective(s, s', 0);
    ColumnInjective(s, s', 1);
    ColumnInjective(s, s', 2);
    ColumnInjective(s, s', 3);
  }

  lemma RotatedInjective(s: State, s': State)
    requires Rotated(s) == Rotated(s')
    ensures s == s'
  {
    var r, r' := Rotated(s), Rotated(s');
    assert s == r[1 := r[3]][2 := r[1]][3 := r[2]];
    assert s' == r'[1 := r'[3]][2 := r'[1]][3 := r'[2]];
  }

  lemma XorInjective(a: Word, a': Word, c: Word)
    requires Xored(a, c) == Xored(a', c)
    ensures a == a'
  {
  }

  lemma AddConstantInjective(s: State, s': State, round: nat)
    requires AddConstant(s, round) == AddConstant(s', round)
    ensures s == s'
  {
    hide RoundConstant, Xored;
    if round % 4 == 0 {
      var r, r' := AddConstant(s, round), AddConstant(s', round);
      assert r[0] == r'[0];
      XorInjective(s[0], s'[0], RoundConstant(round));
      assert forall p :: 0 < p < 12 ==> s[p] == r[p] && s'[p] == r'[p];
    }
  }

  /** Every number of rounds is a bijection of the state. */
  lemma {:induction false} RoundsInjective(s: State, s': State, t: nat)
    requires Rounds(s, t) == Rounds(s', t)
    ensures s == s'
  {
    hide SpLayer, Rotated, AddConstant;
    if t > 0 {
      var p, p' := Rounds(s, t - 1), Rounds(s', t - 1);
      AddConstantInjective(Rotated(SpLayer(p)), Rotated(SpLayer(p')), t - 1);
      RotatedInjective(SpLayer(p), SpLayer(p'));
      SpLayerInjective(p, p');
      RoundsInjective(s, s', t - 1);
    }
  }

  // ------------------------------------------------------------ the block map

  /** Eight key words, three nonce words, the block number. */
  function InitialState(key: Key, nonce: Nonce, blockIndex: int): State {
    ReadWords(key) + ReadWords(nonce) + [LowWord(blockIndex)]
  }

  function Block(key: Key, nonce: Nonce, blockIndex: int): (b: Bytes)
    ensures |b| == 48
  {
    WriteWords(Rounds(InitialState(key, nonce, blockIndex), 24))
  }

  /** Equal blocks come from equal keys, nonces and block numbers modulo 2^32, and conversely. */
  lemma BlockInjective(key: Key, nonce: Nonce, i: int, key': Key, nonce': Nonce, i': int)
    ensures Block(key, nonce, i) == Block(key', nonce', i')
       <==> key == key' && nonce == nonce' && i % WORD_RANGE == i' % WORD_RANGE
  {
    hide Rounds, LowWord, ReadWords, WriteWords;
    LowWordInjective(i, i');
    if Block(key, nonce, i) == Block(key', nonce', i') {
      var s, s' := InitialState(key, nonce, i), InitialState(key', nonce', i');
      ReadWriteWords(Rounds(s, 24));
      ReadWriteWords(Rounds(s', 24));
      RoundsInjective(s, s', 24);
      InitialStateInjective(key, nonce, i, key', nonce', i');
    }
  }

  lemma InitialStateInjective(key: Key, nonce: Nonce, i: int, key': Key, nonce': Nonce, i': int)
    requires InitialState(key, nonce, i) == InitialState(key', nonce', i')
    ensures key == key' && nonce == nonce' && LowWord(i) == LowWord(i')
  {
    hide LowWord, ReadWords, WriteWords;
    var s, s' := InitialState(key, nonce, i), InitialState(key', nonce', i');
    assert s[..8] == ReadWords(key) && s'[..8] == ReadWords(key');
    assert s[8..11] == ReadWords(nonce) && s'[8..11] == ReadWords(nonce');
    assert s[11] == LowWord(i) && s'[11] == LowWord(i');
    WriteReadWords(key);
    WriteReadWords(key');
    WriteReadWords(nonce);
    WriteReadWords(nonce');
  }

  // ------------------------------------------------------------ the source's loops

  /** One turn of the column loop. */
  method SpColumn(w: array<Word>, i: nat)
    requires w.Length == 12 && i < 4
    modifies w
    ensures w[..] == old(w[..])[i := SpX(old(w[i]), old(w[i + 4]), old(w[i + 8]))]
                               [i + 4 := SpY(old(w[i]), old(w[i + 4]), old(w[i + 8]))]
                               [i + 8 := SpZ(old(w[i]), old(w[i + 4]), old(w[i + 8]))]
  {
    hide SpX, SpY, SpZ;
    var x, y, z := w[i], w[i + 4], w[i + 8];
    w[i] := SpX(x, y, z);
    w[i + 4] := SpY(x, y, z);
    w[i + 8] := SpZ(x, y, z);
  }

  /** The state with its first t columns substituted. */
  function SpColumns(s: State, t: nat): State {
    seq(12, p requires 0 <= p < 12 => if p % 4 < t then SpLayer(s)[p] else s[p])
  }

  lemma SpColumnStep(s: State, i: nat)
    requires i < 4
    ensures var c := SpColumns(s, i);
            SpColumns(s, i + 1) == c[i := SpX(c[i], c[i + 4], c[i + 8])]
                                    [i + 4 := SpY(c[i], c[i + 4], c[i + 8])]
                                    [i + 8 := SpZ(c[i], c[i + 4], c[i + 8])]
  {
    hide SpX, SpY, SpZ;
    var c := SpColumns(s, i);
    var r := c[i := SpX(c[i], c[i + 4], c[i + 8])][i + 4 := SpY(c[i], c[i + 4], c[i + 8])]
              [i + 8 := SpZ(c[i], c[i + 4], c[i + 8])];
    forall p | 0 <= p < 12
      ensures SpColumns(s, i + 1)[p] == r[p]
    {
      InColumn(p, i);
    }
  }

  lemma InColumn(p: nat, i: nat)
    requires p < 12 && i < 4
    ensures p % 4 == i <==> p == i || p == i + 4 || p == i + 8
    ensures p % 4 < i + 1 <==> p % 4 < i || p == i || p == i + 4 || p == i + 8
  {
  }

  /** The SP-box loop over the four columns, in place. */
  method SpLoop(w: array<Word>)
    requires w.Length == 12
    modifies w
    ensures w[..] == SpLayer(old(w[..]))
  {
    hide SpX, SpY, SpZ, SpLayer;
    ghost var s: State := w[..];
    assert w[..] == SpColumns(s, 0);
    var i := 0;
    while i < 4
      invariant 0 <= i <= 4
      invariant w[..] == SpColumns(s, i)
    {
      SpColumnStep(s, i);
      SpColumn(w, i);
      i := i + 1;
    }
    assert SpColumns(s, 4) == SpLayer(s);
  }

  /** Filling the state: eight key words, three nonce words, the block number. */
  method FillState(key: Key, nonce: Nonce, blockIndex: int) returns (state: array<Word>)
    ensures fresh(state) && state.Length == 12 && state[..] == InitialState(key, nonce, blockIndex)
  {
    hide LowWord;
    state := new Word[12];
    LoadWords(state, 0, key);
    state[8] := ReadWord(nonce, 0);
    state[9] := ReadWord(nonce, 4);
    state[10] := ReadWord(nonce, 8);
    state[11] := LowWord(blockIndex);
    FirstWords(state, key);
    assert state[8..11] == ReadWords(nonce);
    assert state[..] == state[..8] + state[8..11] + [state[11]];
  }

  lemma FirstWords(state: array<Word>, key: Key)
    requires state.Length == 12 && forall p :: 0 <= p < 8 ==> state[0 + p] == ReadWords(key)[p]
    ensures state[..8] == ReadWords(key)
  {
    hide ReadWords;
  }

  /** generateBlock. */
  method GenerateBlock(key: Key, nonce: Nonce, blockIndex: int) returns (out: array<bv8>)
    ensures fresh(out) && out[..] == Block(key, nonce, blockIndex)
  {
    hide Xored, SpLayer, RoundConstant, LowWord;
    var stateWords := FillState(key, nonce, blockIndex);
    var state: State := stateWords[..];
    var w := new Word[12](i requires 0 <= i < 12 => state[i]);
    assert w[..] == state;
    var round := 0;
    while round < 24
      invariant 0 <= round <= 24
      invariant fresh(w) && w.Length == 12
      invariant w[..] == Rounds(state, round)
    {
      SpLoop(w);
      ghost var s := w[..];
      var t := w[1];
      w[1] := w[2];
      w[2] := w[3];
      w[3] := t;
      assert w[..] == Rotated(s);
      if round % 4 == 0 {
        w[0] := Xored(w[0], RoundConstant(round));
      }
      assert w[..] == AddConstant(Rotated(s), round);
      round := round + 1;
    }
    out := WriteAll(w[..]);
  }
}
