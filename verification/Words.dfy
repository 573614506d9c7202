/**
 32-bit words and their little-endian bytes, as core.ReadUint32LE and core.WriteUint32LE
 convert them.
 */
module Words {
  import opened Modular
  import opened ByteStrings

  type Word = bv32
  type Key = k: Bytes | |k| == 32 witness seq(32, i => 0)
  type Nonce = n: Bytes | |n| == 12 witness seq(12, i => 0)

  function WordOf(b0: bv8, b1: bv8, b2: bv8, b3: bv8): Word {
    (b0 as bv32) | ((b1 as bv32) << 8) | ((b2 as bv32) << 16) | ((b3 as bv32) << 24)
  }

  /** ReadUint32LE. */
  function ReadWord(b: Bytes, off: nat): Word
    requires off + 4 <= |b|
  {
    WordOf(b[off], b[off + 1], b[off + 2], b[off + 3])
  }

  /** One of the four bytes of a word. */
  function WordByte(w: Word, i: nat): bv8
    requires i < 4
  {
    if i == 0 then (w & 0xff) as bv8
    else if i == 1 then ((w >> 8) & 0xff) as bv8
    else if i == 2 then ((w >> 16) & 0xff) as bv8
    else ((w >> 24) & 0xff) as bv8
  }

  lemma WordByteRoundTrip(w: Word)
    ensures WordOf(WordByte(w, 0), WordByte(w, 1), WordByte(w, 2), WordByte(w, 3)) == w
  {
  }

  lemma WordOfBytes(b0: bv8, b1: bv8, b2: bv8, b3: bv8)
    ensures WordByte(WordOf(b0, b1, b2, b3), 0) == b0
    ensures WordByte(WordOf(b0, b1, b2, b3), 1) == b1
    ensures WordByte(WordOf(b0, b1, b2, b3), 2) == b2
    ensures WordByte(WordOf(b0, b1, b2, b3), 3) == b3
  {
  }

  /** The words of a byte string whose length is a multiple of four. */
  function ReadWords(b: Bytes): (ws: seq<Word>)
    requires |b| % 4 == 0
    ensures |ws| == |b| / 4
  {
    seq(|b| / 4, i requires 0 <= i < |b| / 4 => ReadWord(b, 4 * i))
  }

  lemma ReadJoins(a: Bytes, b: Bytes)
    requires |a| % 4 == 0 && |b| % 4 == 0
    ensures ReadWords(a + b) == ReadWords(a) + ReadWords(b)
  {
    hide WordOf;
    var n := |a| / 4;
    forall i | 0 <= i < |a + b| / 4
      ensures ReadWords(a + b)[i] == (ReadWords(a) + ReadWords(b))[i]
    {
      assert i >= n ==> 4 * i - |a| == 4 * (i - n);
    }
  }

  /** The bytes of a word sequence, each word little-endian. */
  function WriteWords(ws: seq<Word>): (b: Bytes)
    ensures |b| == 4 * |ws|
  {
    seq(4 * |ws|, i requires 0 <= i < 4 * |ws| => WordByte(ws[i / 4], i % 4))
  }

  lemma WriteWordsAt(ws: seq<Word>, i: nat)
    requires i < |ws|
    ensures WriteWords(ws)[4 * i] == WordByte(ws[i], 0)
    ensures WriteWords(ws)[4 * i + 1] == WordByte(ws[i], 1)
    ensures WriteWords(ws)[4 * i + 2] == WordByte(ws[i], 2)
    ensures WriteWords(ws)[4 * i + 3] == WordByte(ws[i], 3)
  {
    hide WordByte;
    DivIs(4 * i, 4, i, 0);
    DivIs(4 * i + 1, 4, i, 1);
    DivIs(4 * i + 2, 4, i, 2);
    DivIs(4 * i + 3, 4, i, 3);
  }

  /** Reading back what was written. */
  lemma ReadWriteWords(ws: seq<Word>)
    ensures ReadWords(WriteWords(ws)) == ws
  {
    forall i | 0 <= i < |ws|
      ensures ReadWords(WriteWords(ws))[i] == ws[i]
    {
      WriteWordsAt(ws, i);
      WordByteRoundTrip(ws[i]);
    }
  }

  /** Writing back what was read. */
  lemma WriteReadWords(b: Bytes)
    requires |b| % 4 == 0
    ensures WriteWords(ReadWords(b)) == b
  {
    hide WordByte, WordOf;
    var ws := ReadWords(b);
    forall i | 0 <= i < |b|
      ensures WriteWords(ws)[i] == b[i]
    {
      var u := i / 4;
      WriteWordsAt(ws, u);
      WordOfBytes(b[4 * u], b[4 * u + 1], b[4 * u + 2], b[4 * u + 3]);
    }
  }

  /** `uint32(n)`: the low 32 bits of an integer (two's complement for a negative one). */
  function LowWord(n: int): Word {
    ReadWord(ToLE(n % WORD_RANGE, 4), 0)
  }

  /** The bytes of the low word are the integer's own low bytes. */
  lemma LowWordBytes(n: int)
    ensures LowWord(n) == WordOf(ByteOf(n % WORD_RANGE), ByteOf(n % WORD_RANGE / 0x100),
                                 ByteOf(n % WORD_RANGE / 0x100 / 0x100), ByteOf(n % WORD_RANGE / 0x100 / 0x100 / 0x100))
  {
    hide ByteOf, WordOf;
    var c := n % WORD_RANGE;
    assert ToLE(c / 0x100 / 0x100 / 0x100, 1) == [ByteOf(c / 0x100 / 0x100 / 0x100)];
    assert ToLE(c / 0x100 / 0x100, 2) == [ByteOf(c / 0x100 / 0x100), ByteOf(c / 0x100 / 0x100 / 0x100)];
    assert ToLE(c, 4) == [ByteOf(c)] + ([ByteOf(c / 0x100)] + ToLE(c / 0x100 / 0x100, 2));
  }

  /** Two integers have the same low word exactly when they are congruent modulo 2^32. */
  lemma LowWordInjective(m: int, n: int)
    ensures LowWord(m) == LowWord(n) <==> m % WORD_RANGE == n % WORD_RANGE
  {
    var a, b := ToLE(m % WORD_RANGE, 4), ToLE(n % WORD_RANGE, 4);
    if LowWord(m) == LowWord(n) {
      WordOfBytes(a[0], a[1], a[2], a[3]);
      WordOfBytes(b[0], b[1], b[2], b[3]);
      assert a == b;
      WordRange();
      ToLEInjective(m % WORD_RANGE, n % WORD_RANGE, 4);
    }
  }

  /** The loop `state[at+i] = ReadUint32LE(b, i*4)`. */
  method LoadWords(state: array<Word>, at: nat, b: seq<bv8>)
    requires |b| % 4 == 0 && at + |b| / 4 <= state.Length
    modifies state
    ensures forall p :: 0 <= p < |b| / 4 ==> state[at + p] == ReadWords(b)[p]
    ensures forall p :: 0 <= p < state.Length && !(at <= p < at + |b| / 4) ==> state[p] == old(state[p])
  {
    hide ReadWord;
    var i := 0;
    while i < |b| / 4
      invariant 0 <= i <= |b| / 4
      invariant forall p :: 0 <= p < i ==> state[at + p] == ReadWord(b, 4 * p)
      invariant forall p :: 0 <= p < state.Length && !(at <= p < at + i) ==> state[p] == old(state[p])
    {
      state[at + i] := ReadWord(b, i * 4);
      i := i + 1;
    }
  }

  /** The loop of WriteUint32LE calls. */
  method WriteAll(ws: seq<Word>) returns (out: array<bv8>)
    ensures fresh(out) && out[..] == WriteWords(ws)
  {
    hide WordByte;
    out := new bv8[4 * |ws|];
    var i := 0;
    while i < |ws|
      invariant 0 <= i <= |ws|
      invariant forall p :: 0 <= p < 4 * i ==> out[p] == WriteWords(ws)[p]
    {
      WriteWordsAt(ws, i);
      out[4 * i] := WordByte(ws[i], 0);
      out[4 * i + 1] := WordByte(ws[i], 1);
      out[4 * i + 2] := WordByte(ws[i], 2);
      out[4 * i + 3] := WordByte(ws[i], 3);
      i := i + 1;
    }
  }
}
