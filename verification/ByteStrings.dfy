/**
 Bytes, bits inside byte strings, and little-endian numbers.
 */
module ByteStrings {
  import opened Modular

  type Bytes = seq<bv8>

  /** `byte(n)`: the low eight bits of a non-negative integer. */
  function ByteOf(n: nat): bv8 {
    (n % 256) as bv8
  }

  lemma ByteOfValue(n: nat)
    ensures ByteOf(n) as int == n % 256
  {
    ByteRoundTrip(n % 256);
  }

  /** The byte reached by counting up from zero: a witness that every value below 256 is a byte. */
  function CountedByte(m: nat): bv8 {
    if m == 0 then 0 else CountedByte(m - 1) + 1
  }

  lemma {:induction false} CountedByteValue(m: nat)
    requires m < 256
    ensures CountedByte(m) as int == m
  {
    if m > 0 {
      CountedByteValue(m - 1);
    }
  }

  lemma ByteFromValue(m: nat, b: bv8)
    requires m < 256 && b as int == m
    ensures m as bv8 == b
  {
  }

  lemma ByteRoundTrip(m: nat)
    requires m < 256
    ensures (m as bv8) as int == m
  {
    CountedByteValue(m);
    ByteFromValue(m, CountedByte(m));
  }

  // ------------------------------------------------------------ bits

  /** `1 << t` on a byte. */
  function Mask(t: nat): bv8
    requires t < 8
  {
    if t == 0 then 1 else if t == 1 then 2 else if t == 2 then 4 else if t == 3 then 8
    else if t == 4 then 16 else if t == 5 then 32 else if t == 6 then 64 else 128
  }

  /** Bit i of a byte string, `(b[i>>3] >> (i&7)) & 1`. */
  predicate BitAt(b: Bytes, i: nat)
    requires i < 8 * |b|
  {
    b[i / 8] & Mask(i % 8) != 0
  }

  /** The mask test is the shift and mask of the source. */
  lemma BitIsShift(b: Bytes, i: nat)
    requires i < 8 * |b|
    ensures BitAt(b, i) <==> (b[i / 8] >> (i % 8)) & 1 == 1
  {
    ShiftIsMask(b[i / 8], i % 8);
  }

  lemma ShiftIsMask(x: bv8, t: nat)
    requires t < 8
    ensures x & Mask(t) != 0 <==> (x >> t) & 1 == 1
  {
  }

  /** Setting one bit of a byte leaves its other bits alone. */
  lemma MaskSet(x: bv8, t: nat, u: nat)
    requires t < 8 && u < 8
    ensures (x | Mask(t)) & Mask(u) != 0 <==> t == u || x & Mask(u) != 0
  {
    if u == 0 { MaskSetLit(x, t, 0, 1); }
    else if u == 1 { MaskSetLit(x, t, 1, 2); }
    else if u == 2 { MaskSetLit(x, t, 2, 4); }
    else if u == 3 { MaskSetLit(x, t, 3, 8); }
    else if u == 4 { MaskSetLit(x, t, 4, 16); }
    else if u == 5 { MaskSetLit(x, t, 5, 32); }
    else if u == 6 { MaskSetLit(x, t, 6, 64); }
    else { MaskSetLit(x, t, 7, 128); }
  }

  lemma MaskSetLit(x: bv8, t: nat, u: nat, m: bv8)
    requires t < 8 && u < 8 && m == Mask(u)
    ensures (x | Mask(t)) & m != 0 <==> t == u || x & m != 0
  {
  }

  /** b with bit i set, `b[i>>3] |= 1 << (i&7)`. */
  function SetBit(b: Bytes, i: nat): (r: Bytes)
    requires i < 8 * |b|
    ensures |r| == |b|
  {
    b[i / 8 := b[i / 8] | Mask(i % 8)]
  }

  lemma SetBitAt(b: Bytes, i: nat, j: nat)
    requires i < 8 * |b| && j < 8 * |b|
    ensures BitAt(SetBit(b, i), j) <==> i == j || BitAt(b, j)
  {
    if i / 8 == j / 8 {
      MaskSet(b[i / 8], i % 8, j % 8);
    }
  }

  /** The first t bits of f, packed low bit first into len bytes. */
  function Packed(f: int -> bool, t: nat, len: nat): (r: Bytes)
    requires t <= 8 * len
    ensures |r| == len
  {
    if t == 0 then seq(len, u => 0)
    else if f(t - 1) then SetBit(Packed(f, t - 1, len), t - 1)
    else Packed(f, t - 1, len)
  }

  lemma {:induction false} PackedAt(f: int -> bool, t: nat, len: nat, i: nat)
    requires t <= 8 * len && i < 8 * len
    ensures BitAt(Packed(f, t, len), i) <==> i < t && f(i)
  {
    if t > 0 {
      PackedAt(f, t - 1, len, i);
      if f(t - 1) {
        SetBitAt(Packed(f, t - 1, len), t - 1, i);
      }
    }
  }

  /** Packing depends on the first t bits only. */
  lemma {:induction false} PackedExt(f: int -> bool, g: int -> bool, t: nat, len: nat)
    requires t <= 8 * len
    requires forall i :: 0 <= i < t ==> f(i) == g(i)
    ensures Packed(f, t, len) == Packed(g, t, len)
  {
    if t > 0 {
      PackedExt(f, g, t - 1, len);
    }
  }

  // ------------------------------------------------------------ numbers

  function Pow256(len: nat): (p: nat)
    ensures p >= 1
  {
    if len == 0 then 1 else 256 * Pow256(len - 1)
  }

  /** How many values a 32-bit word and a 64-bit word have. */
  const WORD_RANGE := 0x1_0000_0000
  const CLOCK_RANGE := 0x1_0000_0000_0000_0000

  lemma WordRange()
    ensures Pow256(4) == WORD_RANGE
  {
    assert Pow256(2) == 0x1_0000;
    assert Pow256(4) == 256 * (256 * Pow256(2));
  }

  lemma ClockRange()
    ensures Pow256(8) == CLOCK_RANGE
  {
    WordRange();
    assert Pow256(6) == 0x1_0000 * Pow256(4);
    assert Pow256(8) == 0x1_0000 * Pow256(6);
  }

  /** The len low bytes of n, least significant first. */
  function ToLE(n: nat, len: nat): (r: Bytes)
    ensures |r| == len
  {
    if len == 0 then [] else [ByteOf(n)] + ToLE(n / 256, len - 1)
  }

  function FromLE(b: Bytes): nat {
    if b == [] then 0 else b[0] as int + 256 * FromLE(b[1..])
  }

  lemma {:induction false} FromToLE(n: nat, len: nat)
    ensures FromLE(ToLE(n, len)) == n % Pow256(len)
  {
    if len > 0 {
      FromToLE(n / 256, len - 1);
      ByteOfValue(n);
      LowDigit(n, Pow256(len - 1));
    }
  }

  lemma LowDigit(n: nat, p: nat)
    requires p > 0
    ensures n % 256 + 256 * (n / 256 % p) == n % (256 * p)
  {
    var k, r := n / 256 / p, n / 256 % p;
    assert n / 256 == k * p + r;
    assert 256 * (k * p) == k * (256 * p);
    ModIs(n, 256 * p, k, 256 * r + n % 256);
  }

  lemma FromToLESmall(n: nat, len: nat)
    requires n < Pow256(len)
    ensures FromLE(ToLE(n, len)) == n
  {
    FromToLE(n, len);
    SmallMod(n, Pow256(len));
  }

  lemma {:induction false} FromLEBound(b: Bytes)
    ensures FromLE(b) < Pow256(|b|)
  {
    if b != [] {
      FromLEBound(b[1..]);
    }
  }

  /** Different numbers below 256^len have different encodings. */
  lemma ToLEInjective(m: nat, n: nat, len: nat)
    requires m < Pow256(len) && n < Pow256(len)
    requires ToLE(m, len) == ToLE(n, len)
    ensures m == n
  {
    FromToLESmall(m, len);
    FromToLESmall(n, len);
  }

  /** Least significant byte first. */
  lemma FromFourBytes(b: Bytes)
    requires |b| == 4
    ensures FromLE(b) == b[0] as int + 0x100 * (b[1] as int) + 0x1_0000 * (b[2] as int) + 0x100_0000 * (b[3] as int)
  {
    assert FromLE(b[3..]) == b[3] as int + 256 * FromLE([]);
    assert b[2..][1..] == b[3..] && b[1..][1..] == b[2..];
    assert FromLE(b[2..]) == b[2] as int + 256 * FromLE(b[3..]);
    assert FromLE(b[1..]) == b[1] as int + 256 * FromLE(b[2..]);
  }
}
