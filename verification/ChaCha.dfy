/**
 The block function of cipher/chacha.go, stated as section 2.3 of RFC 7539 does, with the
 32-bit block counter of section 2.3 equal to the block index modulo 2^32. The 20-round
 permutation under the final addition is a bijection, with an explicit inverse.
 */
module ChaCha {
  import opened Modular
  import opened ByteStrings
  import opened Words

  type State = s: seq<Word> | |s| == 16 witness seq(16, i => 0)

  // ------------------------------------------------------------ section 2.1: the quarter round

  function Add(x: Word, y: Word): Word {
    x + y
  }

  /** Undoes an addition: the only word that gives x when y is added. */
  function Sub(x: Word, y: Word): (r: Word)
    ensures Add(r, y) == x
  {
    SubtractAndAdd(x, y);
    x - y
  }

  lemma SubtractAndAdd(x: Word, y: Word)
    ensures Add(x - y, y) == x
  {
    assert (x - y) + y == x;
  }

  function Xor(x: Word, y: Word): Word {
    x ^ y
  }

  /** The four rotation distances of the quarter round. */
  predicate Distance(n: nat) {
    n == 16 || n == 12 || n == 8 || n == 7
  }

  /** `x <<< n`. */
  function RotL(x: Word, n: nat): Word
    requires Distance(n)
  {
    if n == 16 then (x << 16) | (x >> 16)
    else if n == 12 then (x << 12) | (x >> 20)
    else if n == 8 then (x << 8) | (x >> 24)
    else (x << 7) | (x >> 25)
  }

  function RotR(x: Word, n: nat): Word
    requires Distance(n)
  {
    if n == 16 then (x >> 16) | (x << 16)
    else if n == 12 then (x >> 12) | (x << 20)
    else if n == 8 then (x >> 8) | (x << 24)
    else (x >> 7) | (x << 25)
  }

  /** `p += q; r ^= p; r <<<= n`, one of the four lines of the quarter round. */
  function Line(p: Word, q: Word, r: Word, n: nat): (Word, Word)
    requires Distance(n)
  {
    (Add(p, q), RotL(Xor(r, Add(p, q)), n))
  }

  function UnLine(p: Word, q: Word, r: Word, n: nat): (Word, Word)
    requires Distance(n)
  {
    (Sub(p, q), Xor(RotR(r, n), p))
  }

  lemma RotLThenR(x: Word, n: nat)
    requires Distance(n)
    ensures RotR(RotL(x, n), n) == x
  {
    if n == 16 {
      assert RotR(RotL(x, 16), 16) == x;
    } else if n == 12 {
      assert RotR(RotL(x, 12), 12) == x;
    } else if n == 8 {
      assert RotR(RotL(x, 8), 8) == x;
    }
  }

  lemma RotRThenL(x: Word, n: nat)
    requires Distance(n)
    ensures RotL(RotR(x, n), n) == x
  {
    if n == 16 {
      assert RotL(RotR(x, 16), 16) == x;
    } else if n == 12 {
      assert RotL(RotR(x, 12), 12) == x;
    } else if n == 8 {
      assert RotL(RotR(x, 8), 8) == x;
    }
  }

  lemma AddCancels(s: Word, x: Word, y: Word)
    requires Add(s, y) == Add(x, y)
    ensures s == x
  {
    AddCancelsRaw(s, x, y);
  }

  lemma AddCancelsRaw(s: Word, x: Word, y: Word)
    requires s + y == x + y
    ensures s == x
  {
  }

  lemma AddThenSub(x: Word, y: Word)
    ensures Sub(Add(x, y), y) == x
  {
    hide Add, Sub;
    AddCancels(Sub(Add(x, y), y), x, y);
  }

  lemma XorInverse(x: Word, y: Word)
    ensures Xor(Xor(x, y), y) == x
  {
  }

  lemma LineInverse(p: Word, q: Word, r: Word, n: nat)
    requires Distance(n)
    ensures var l := Line(p, q, r, n); UnLine(l.0, q, l.1, n) == (p, r)
    ensures var u := UnLine(p, q, r, n); Line(u.0, q, u.1, n) == (p, r)
  {
    hide Add, Sub, Xor, RotL, RotR;
    AddThenSub(p, q);
    XorInverse(r, Add(p, q));
    RotLThenR(Xor(r, Add(p, q)), n);
    RotRThenL(r, n);
    XorInverse(RotR(r, n), p);
  }

  datatype Quarter = Quarter(a: Word, b: Word, c: Word, d: Word)

  function QuarterRound(x: Quarter): Quarter {
    var (a1, d1) := Line(x.a, x.b, x.d, 16);
    var (c1, b1) := Line(x.c, d1, x.b, 12);
    var (a2, d2) := Line(a1, b1, d1, 8);
    var (c2, b2) := Line(c1, d2, b1, 7);
    Quarter(a2, b2, c2, d2)
  }

  function UnQuarterRound(x: Quarter): Quarter {
    var (c1, b1) := UnLine(x.c, x.d, x.b, 7);
    var (a1, d1) := UnLine(x.a, b1, x.d, 8);
    var (c0, b0) := UnLine(c1, d1, b1, 12);
    var (a0, d0) := UnLine(a1, b0, d1, 16);
    Quarter(a0, b0, c0, d0)
  }

  lemma QuarterInverse(x: Quarter)
    ensures UnQuarterRound(QuarterRound(x)) == x
    ensures QuarterRound(UnQuarterRound(x)) == x
  {
    hide Line, UnLine;
    var l1 := Line(x.a, x.b, x.d, 16);
    var l2 := Line(x.c, l1.1, x.b, 12);
    var l3 := Line(l1.0, l2.1, l1.1, 8);
    LineInverse(x.a, x.b, x.d, 16);
    LineInverse(x.c, l1.1, x.b, 12);
    LineInverse(l1.0, l2.1, l1.1, 8);
    LineInverse(l2.0, l3.1, l2.1, 7);
    var u1 := UnLine(x.c, x.d, x.b, 7);
    var u2 := UnLine(x.a, u1.1, x.d, 8);
    var u3 := UnLine(u1.0, u2.1, u1.1, 12);
    LineInverse(x.c, x.d, x.b, 7);
    LineInverse(x.a, u1.1, x.d, 8);
    LineInverse(u1.0, u2.1, u1.1, 12);
    LineInverse(u2.0, u3.1, u2.1, 16);
  }

  /** The test vector of section 2.1.1. */
  lemma QuarterRoundVector()
    ensures QuarterRound(Quarter(0x11111111, 0x01020304, 0x9b8d6f43, 0x01234567))
         == Quarter(0xea2a92f4, 0xcb1cf8ce, 0x4581472e, 0x5881c4bb)
  {
  }

  // ------------------------------------------------------------ section 2.2: on the state

  predicate Distinct(i: nat, j: nat, k: nat, l: nat) {
    && i < 16 && j < 16 && k < 16 && l < 16
    && i != j && i != k && i != l && j != k && j != l && k != l
  }

  function Pick(s: State, i: nat, j: nat, k: nat, l: nat): Quarter
    requires Distinct(i, j, k, l)
  {
    Quarter(s[i], s[j], s[k], s[l])
  }

  function Put(s: State, i: nat, j: nat, k: nat, l: nat, x: Quarter): State
    requires Distinct(i, j, k, l)
  {
    s[i := x.a][j := x.b][k := x.c][l := x.d]
  }

  function QuarterAt(s: State, i: nat, j: nat, k: nat, l: nat): State
    requires Distinct(i, j, k, l)
  {
    Put(s, i, j, k, l, QuarterRound(Pick(s, i, j, k, l)))
  }

  function UnQuarterAt(s: State, i: nat, j: nat, k: nat, l: nat): State
    requires Distinct(i, j, k, l)
  {
    Put(s, i, j, k, l, UnQuarterRound(Pick(s, i, j, k, l)))
  }

  lemma QuarterAtInverse(s: State, i: nat, j: nat, k: nat, l: nat)
    requires Distinct(i, j, k, l)
    ensures UnQuarterAt(QuarterAt(s, i, j, k, l), i, j, k, l) == s
    ensures QuarterAt(UnQuarterAt(s, i, j, k, l), i, j, k, l) == s
  {
    hide QuarterRound, UnQuarterRound;
    QuarterInverse(Pick(s, i, j, k, l));
  }

  // ------------------------------------------------------------ section 2.3: the block function

  function ColumnRounds(s: State): State {
    QuarterAt(QuarterAt(QuarterAt(QuarterAt(s, 0, 4, 8, 12), 1, 5, 9, 13), 2, 6, 10, 14), 3, 7, 11, 15)
  }

  function DiagonalRounds(s: State): State {
    QuarterAt(QuarterAt(QuarterAt(QuarterAt(s, 0, 5, 10, 15), 1, 6, 11, 12), 2, 7, 8, 13), 3, 4, 9, 14)
  }

  /** inner_block: a column round and a diagonal round. */
  function InnerBlock(s: State): State {
    DiagonalRounds(ColumnRounds(s))
  }

  function UnColumnRounds(s: State): State {
    UnQuarterAt(UnQuarterAt(UnQuarterAt(UnQuarterAt(s, 3, 7, 11, 15), 2, 6, 10, 14), 1, 5, 9, 13), 0, 4, 8, 12)
  }

  function UnDiagonalRounds(s: State): State {
    UnQuarterAt(UnQuarterAt(UnQuarterAt(UnQuarterAt(s, 3, 4, 9, 14), 2, 7, 8, 13), 1, 6, 11, 12), 0, 5, 10, 15)
  }

  lemma ColumnInverse(s: State)
    ensures UnColumnRounds(ColumnRounds(s)) == s
    ensures ColumnRounds(UnColumnRounds(s)) == s
  {
    hide QuarterAt, UnQuarterAt;
    var s1 := QuarterAt(s, 0, 4, 8, 12);
    var s2 := QuarterAt(s1, 1, 5, 9, 13);
    var s3 := QuarterAt(s2, 2, 6, 10, 14);
    QuarterAtInverse(s, 0, 4, 8, 12);
    QuarterAtInverse(s1, 1, 5, 9, 13);
    QuarterAtInverse(s2, 2, 6, 10, 14);
    QuarterAtInverse(s3, 3, 7, 11, 15);
    var u1 := UnQuarterAt(s, 3, 7, 11, 15);
    var u2 := UnQuarterAt(u1, 2, 6, 10, 14);
    var u3 := UnQuarterAt(u2, 1, 5, 9, 13);
    QuarterAtInverse(s, 3, 7, 11, 15);
    QuarterAtInverse(u1, 2, 6, 10, 14);
    QuarterAtInverse(u2, 1, 5, 9, 13);
    QuarterAtInverse(u3, 0, 4, 8, 12);
  }

  lemma DiagonalInverse(s: State)
    ensures UnDiagonalRounds(DiagonalRounds(s)) == s
    ensures DiagonalRounds(UnDiagonalRounds(s)) == s
  {
    hide QuarterAt, UnQuarterAt;
    var s1 := QuarterAt(s, 0, 5, 10, 15);
    var s2 := QuarterAt(s1, 1, 6, 11, 12);
    var s3 := QuarterAt(s2, 2, 7, 8, 13);
    QuarterAtInverse(s, 0, 5, 10, 15);
    QuarterAtInverse(s1, 1, 6, 11, 12);
    QuarterAtInverse(s2, 2, 7, 8, 13);
    QuarterAtInverse(s3, 3, 4, 9, 14);
    var u1 := UnQuarterAt(s, 3, 4, 9, 14);
    var u2 := UnQuarterAt(u1, 2, 7, 8, 13);
    var u3 := UnQuarterAt(u2, 1, 6, 11, 12);
    QuarterAtInverse(s, 3, 4, 9, 14);
    QuarterAtInverse(u1, 2, 7, 8, 13);
    QuarterAtInverse(u2, 1, 6, 11, 12);
    QuarterAtInverse(u3, 0, 5, 10, 15);
  }

  /** t inner blocks, and t inverse ones. */
  function Rounds(s: State, t: nat): State {
    if t == 0 then s else InnerBlock(Rounds(s, t - 1))
  }

  function UnRounds(s: State, t: nat): State
    decreases t
  {
    if t == 0 then s else UnRounds(UnColumnRounds(UnDiagonalRounds(s)), t - 1)
  }

  /** The permutation under the block function is a bijection of the 16-word states. */
  lemma {:induction false} RoundsBijective(s: State, t: nat)
    ensures UnRounds(Rounds(s, t), t) == s
    ensures Rounds(UnRounds(s, t), t) == s
    decreases t
  {
    hide ColumnRounds, DiagonalRounds, UnColumnRounds, UnDiagonalRounds;
    if t > 0 {
      var p := Rounds(s, t - 1);
      ColumnInverse(p);
      DiagonalInverse(ColumnRounds(p));
      var u := UnDiagonalRounds(s);
      DiagonalInverse(s);
      ColumnInverse(u);
      RoundsBijective(s, t - 1);
      RoundsBijective(UnColumnRounds(u), t - 1);
    }
  }

  const CONSTANTS: seq<Word> := [0x61707865, 0x3320646e, 0x79622d32, 0x6b206574]

  /** Constants, key, counter, nonce. */
  function InitialState(key: Key, nonce: Nonce, blockIndex: int): State {
    CONSTANTS + ReadWords(key) + [LowWord(blockIndex)] + ReadWords(nonce)
  }

  function AddStates(s: State, t: State): State {
    seq(16, i requires 0 <= i < 16 => Add(s[i], t[i]))
  }

  function Block(key: Key, nonce: Nonce, blockIndex: int): (b: Bytes)
    ensures |b| == 64
  {
    var state := InitialState(key, nonce, blockIndex);
    WriteWords(AddStates(Rounds(state, 10), state))
  }

  /** The counter is 32 bits wide: blocks repeat every 2^32 indices. */
  lemma BlockPeriod(key: Key, nonce: Nonce, blockIndex: int)
    ensures Block(key, nonce, blockIndex + WORD_RANGE) == Block(key, nonce, blockIndex)
  {
    CongFromMultiple(blockIndex + WORD_RANGE, blockIndex, 1, WORD_RANGE);
    LowWordInjective(blockIndex + WORD_RANGE, blockIndex);
  }

  // ------------------------------------------------------------ the source's loops

  /** One line of the qr closure on words p, q and r of a state. */
  function LineAt(s: State, p: nat, q: nat, r: nat, n: nat): State
    requires p < 16 && q < 16 && r < 16 && Distance(n)
  {
    var l := Line(s[p], s[q], s[r], n);
    s[p := l.0][r := l.1]
  }

  method LineInPlace(s: array<Word>, p: nat, q: nat, r: nat, n: nat)
    requires s.Length == 16 && p < 16 && q < 16 && r < 16 && p != r && p != q && Distance(n)
    modifies s
    ensures s[..] == LineAt(old(s[..]), p, q, r, n)
  {
    hide Add, Xor, RotL;
    s[p] := Add(s[p], s[q]);
    s[r] := Xor(s[r], s[p]);
    s[r] := RotL(s[r], n);
  }

  /** The four lines on a state are the quarter round on its four words. */
  lemma QuarterIsFourLines(s: State, a: nat, b: nat, c: nat, d: nat)
    requires Distinct(a, b, c, d)
    ensures LineAt(LineAt(LineAt(LineAt(s, a, b, d, 16), c, d, b, 12), a, b, d, 8), c, d, b, 7)
         == QuarterAt(s, a, b, c, d)
  {
    hide Line;
    var s1 := LineAt(s, a, b, d, 16);
    var s2 := LineAt(s1, c, d, b, 12);
    var s3 := LineAt(s2, a, b, d, 8);
    var s4 := LineAt(s3, c, d, b, 7);
    var q := QuarterRound(Pick(s, a, b, c, d));
    assert q == Quarter(s4[a], s4[b], s4[c], s4[d]);
    FourLinesKeep(s, a, b, c, d);
    forall p | 0 <= p < 16
      ensures s4[p] == Put(s, a, b, c, d, q)[p]
    {
    }
  }

  /** They touch no other word. */
  lemma FourLinesKeep(s: State, a: nat, b: nat, c: nat, d: nat)
    requires Distinct(a, b, c, d)
    ensures var r := LineAt(LineAt(LineAt(LineAt(s, a, b, d, 16), c, d, b, 12), a, b, d, 8), c, d, b, 7);
            forall p :: 0 <= p < 16 && p != a && p != b && p != c && p != d ==> r[p] == s[p]
  {
    hide Line;
  }

  /** The qr closure, in place. */
  method QuarterRoundInPlace(s: array<Word>, a: nat, b: nat, c: nat, d: nat)
    requires s.Length == 16 && Distinct(a, b, c, d)
    modifies s
    ensures s[..] == QuarterAt(old(s[..]), a, b, c, d)
  {
    hide LineAt, QuarterAt;
    QuarterIsFourLines(s[..], a, b, c, d);
    LineInPlace(s, a, b, d, 16);
    LineInPlace(s, c, d, b, 12);
    LineInPlace(s, a, b, d, 8);
    LineInPlace(s, c, d, b, 7);
  }

  /** The eight calls of one loop iteration. */
  method InnerBlockInPlace(s: array<Word>)
    requires s.Length == 16
    modifies s
    ensures s[..] == InnerBlock(old(s[..]))
  {
    hide QuarterAt;
    QuarterRoundInPlace(s, 0, 4, 8, 12);
    QuarterRoundInPlace(s, 1, 5, 9, 13);
    QuarterRoundInPlace(s, 2, 6, 10, 14);
    QuarterRoundInPlace(s, 3, 7, 11, 15);
    QuarterRoundInPlace(s, 0, 5, 10, 15);
    QuarterRoundInPlace(s, 1, 6, 11, 12);
    QuarterRoundInPlace(s, 2, 7, 8, 13);
    QuarterRoundInPlace(s, 3, 4, 9, 14);
  }

  /** Filling the state: constants, eight key words, three nonce words, the counter. */
  method FillState(key: Key, nonce: Nonce, blockIndex: int) returns (state: array<Word>)
    ensures fresh(state) && state.Length == 16 && state[..] == InitialState(key, nonce, blockIndex)
  {
    hide LowWord, ReadWords;
    state := new Word[16];
    state[0] := 0x61707865;
    state[1] := 0x3320646e;
    state[2] := 0x79622d32;
    state[3] := 0x6b206574;
    LoadWords(state, 4, key);
    LoadWords(state, 13, nonce);
    state[12] := LowWord(blockIndex);
    assert state[4..12] == ReadWords(key) && state[13..16] == ReadWords(nonce);
    assert state[..4] == CONSTANTS;
    assert state[..] == state[..4] + state[4..12] + [state[12]] + state[13..16];
  }

  /** generateBlock. */
  method GenerateBlock(key: Key, nonce: Nonce, blockIndex: int) returns (out: array<bv8>)
    ensures fresh(out) && out[..] == Block(key, nonce, blockIndex)
  {
    hide InnerBlock, LowWord, Add;
    var stateWords := FillState(key, nonce, blockIndex);
    var state: State := stateWords[..];
    var working := new Word[16](i requires 0 <= i < 16 => state[i]);
    assert working[..] == state;
    var r := 0;
    while r < 10
      invariant 0 <= r <= 10
      invariant fresh(working) && working.Length == 16
      invariant working[..] == Rounds(state, r)
    {
      InnerBlockInPlace(working);
      r := r + 1;
    }
    ghost var permuted: State := working[..];
    var i := 0;
    while i < 16
      invariant 0 <= i <= 16
      invariant forall p :: 0 <= p < 16 ==> working[p] == if p < i then Add(permuted[p], state[p]) else permuted[p]
    {
      working[i] := Add(working[i], state[i]);
      i := i + 1;
    }
    assert working[..] == AddStates(permuted, state);
    out := WriteAll(working[..]);
  }
}
