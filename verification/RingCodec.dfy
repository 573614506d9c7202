/**
 The coefficient loops of ringlwe.go: validation, normalisation, serialisation, bit packing,
 and the samplers that turn random bytes into polynomials. Each is proved against the
 function of module Kem, or of this module, that names its result.
 */
module RingCodec {
  import opened Wrappers
  import opened Modular
  import opened Polynomial
  import opened ByteStrings
  import opened Reconciliation
  import opened Kem

  /** validatePoly: the length first, then every coefficient in [-q, q) when validation is on. */
  function ValidatePoly(poly: Poly, n: nat, q: int, validate: bool): (r: Result<(), Error>)
    ensures r.Ok? <==> |poly| == n && (validate ==> forall i :: 0 <= i < n ==> -q <= poly[i] < q)
    ensures r == Err(InvalidPoly) <==> |poly| != n
  {
    if |poly| != n then Err(InvalidPoly)
    else if validate && exists i :: 0 <= i < |poly| && !(-q <= poly[i] < q) then Err(CoeffOutOfRange)
    else Ok(())
  }

  method CheckPoly(poly: seq<int>, n: nat, q: int, validate: bool) returns (r: Result<(), Error>)
    ensures r == ValidatePoly(poly, n, q, validate)
  {
    if |poly| != n {
      return Err(InvalidPoly);
    }
    if validate {
      var i := 0;
      while i < |poly|
        invariant 0 <= i <= |poly|
        invariant forall p :: 0 <= p < i ==> -q <= poly[p] < q
      {
        if poly[i] < -q || poly[i] >= q {
          return Err(CoeffOutOfRange);
        }
        i := i + 1;
      }
    }
    return Ok(());
  }

  method NormalizePoly(poly: seq<int>, q: int) returns (out: array<int>)
    requires q > 0
    ensures fresh(out) && out[..] == Reduce(poly, q)
  {
    out := new int[|poly|];
    var i := 0;
    while i < |poly|
      invariant 0 <= i <= |poly|
      invariant forall p :: 0 <= p < i ==> out[p] == poly[p] % q
    {
      NormalizeIsMod(poly[i], q);
      out[i] := Rem(Rem(poly[i], q) + q, q);
      i := i + 1;
    }
  }

  method SerializePoly(poly: seq<int>, q: int) returns (out: array<bv8>)
    requires q > 0
    ensures fresh(out) && out[..] == Serialize(poly, q)
  {
    out := new bv8[2 * |poly|];
    var i := 0;
    while i < |poly|
      invariant 0 <= i <= |poly|
      invariant forall p :: 0 <= p < 2 * i ==> out[p] == Serialize(poly, q)[p]
    {
      NormalizeIsMod(poly[i], q);
      var norm := Rem(Rem(poly[i], q) + q, q);
      assert 2 * i / 2 == i && (2 * i + 1) / 2 == i;
      out[2 * i] := ByteOf(norm);
      out[2 * i + 1] := ByteOf(norm / 256);
      i := i + 1;
    }
  }

  method DeserializePoly(data: seq<bv8>, n: nat, q: int, validate: bool) returns (poly: array<int>)
    requires q > 0 && |data| >= 2 * n
    ensures fresh(poly) && poly[..] == Deserialize(data, n, q, validate)
  {
    poly := new int[n];
    var i := 0;
    while i < n
      invariant 0 <= i <= n
      invariant forall p :: 0 <= p < i ==> poly[p] == Coefficient(data[2 * p], data[2 * p + 1], q, validate)
    {
      var val := data[2 * i] as int + 256 * (data[2 * i + 1] as int);
      if val >= q && validate {
        val := val % q;
      }
      poly[i] := val;
      i := i + 1;
    }
  }

  // ------------------------------------------------------------ packing

  /** `if bit { out[i>>3] |= 1 << (i&7) }`: one more bit of f is packed. */
  method PackBit(out: array<bv8>, i: nat, bit: bool, ghost f: int -> bool)
    requires i < 8 * out.Length
    requires out[..] == Packed(f, i, out.Length) && bit == f(i)
    modifies out
    ensures out[..] == Packed(f, i + 1, out.Length)
  {
    if bit {
      out[i / 8] := out[i / 8] | Mask(i % 8);
    }
  }

  lemma NothingPacked(out: Bytes, f: int -> bool)
    requires |out| == 32 && forall i :: 0 <= i < 32 ==> out[i] == 0
    ensures out == Packed(f, 0, 32)
  {
  }

  method RoundToBits(poly: seq<int>, q: int) returns (out: array<bv8>)
    requires |poly| <= 256
    ensures fresh(out) && out[..] == HighBits(poly, q)
  {
    hide Packed;
    ghost var f := i => 0 <= i < |poly| && HighBit(poly[i], q);
    out := new bv8[32](_ => 0);
    NothingPacked(out[..], f);
    var i := 0;
    while i < |poly|
      invariant 0 <= i <= |poly|
      invariant out[..] == Packed(f, i, 32)
    {
      PackBit(out, i, 2 * poly[i] > q, f);
      i := i + 1;
    }
  }

  method RoundToBitsWithHint(poly: seq<int>, q: int) returns (bits: array<bv8>, hint: array<bv8>)
    requires |poly| <= 256
    ensures fresh(bits) && bits[..] == HighBits(poly, q)
    ensures fresh(hint) && hint[..] == HintBits(poly, q)
  {
    hide Packed, HelpRec;
    ghost var f := i => 0 <= i < |poly| && HighBit(poly[i], q);
    ghost var g := i => 0 <= i < |poly| && HelpRec(poly[i], q) == 1;
    bits := new bv8[32](_ => 0);
    hint := new bv8[32](_ => 0);
    NothingPacked(bits[..], f);
    NothingPacked(hint[..], g);
    var i := 0;
    while i < |poly|
      invariant 0 <= i <= |poly|
      invariant bits[..] == Packed(f, i, 32)
      invariant hint[..] == Packed(g, i, 32)
    {
      PackBit(bits, i, 2 * poly[i] > q, f);
      PackBit(hint, i, HelpRec(poly[i], q) == 1, g);
      i := i + 1;
    }
  }

  method RecToBits(poly: seq<int>, hint: seq<bv8>, q: int) returns (out: array<bv8>)
    requires |poly| <= 256 && |hint| == 32
    ensures fresh(out) && out[..] == RecBits(poly, hint, q)
  {
    hide Packed, Rec, HintAt;
    ghost var f := i => 0 <= i < |poly| && Rec(poly[i], HintAt(hint, i), q) == 1;
    out := new bv8[32](_ => 0);
    NothingPacked(out[..], f);
    var i := 0;
    while i < |poly|
      invariant 0 <= i <= |poly|
      invariant out[..] == Packed(f, i, 32)
    {
      PackBit(out, i, Rec(poly[i], HintAt(hint, i), q) == 1, f);
      i := i + 1;
    }
  }

  // ------------------------------------------------------------ samplers

  /** uniformPoly: two random bytes per coefficient, reduced. */
  function UniformOf(rnd: Bytes, n: nat, q: int): (r: Poly)
    requires q > 0 && |rnd| == 2 * n
    ensures |r| == n && Reduced(r, q)
  {
    seq(n, i requires 0 <= i < n => (rnd[2 * i] as int + 256 * (rnd[2 * i + 1] as int)) % q)
  }

  method UniformPoly(rnd: seq<bv8>, n: nat, q: int) returns (poly: array<int>)
    requires q > 0 && |rnd| == 2 * n
    ensures fresh(poly) && poly[..] == UniformOf(rnd, n, q)
  {
    poly := new int[n];
    var i := 0;
    while i < n
      invariant 0 <= i <= n
      invariant forall p :: 0 <= p < i ==> poly[p] == (rnd[2 * p] as int + 256 * (rnd[2 * p + 1] as int)) % q
    {
      poly[i] := (rnd[2 * i] as int + 256 * (rnd[2 * i + 1] as int)) % q;
      i := i + 1;
    }
  }

  /** Two random bits to -1 (00), 0 (01) or 1 (10 and 11). */
  function TernaryDigit(low: bool, high: bool): (r: int)
    ensures -1 <= r <= 1
  {
    if !low && !high then -1 else if low && !high then 0 else 1
  }

  function TernaryOf(rb: Bytes, n: nat): (r: Poly)
    requires |rb| == (2 * n + 7) / 8
    ensures |r| == n && Ternary(r)
  {
    seq(n, i requires 0 <= i < n => TernaryDigit(BitAt(rb, 2 * i), BitAt(rb, 2 * i + 1)))
  }

  method SmallPoly(rb: seq<bv8>, n: nat) returns (poly: array<int>)
    requires |rb| == (2 * n + 7) / 8
    ensures fresh(poly) && poly[..] == TernaryOf(rb, n)
  {
    poly := new int[n];
    var i := 0;
    while i < n
      invariant 0 <= i <= n
      invariant forall p :: 0 <= p < i ==> poly[p] == TernaryDigit(BitAt(rb, 2 * p), BitAt(rb, 2 * p + 1))
    {
      var low, high := BitAt(rb, 2 * i), BitAt(rb, 2 * i + 1);
      if !low && !high {
        poly[i] := -1;
      } else if low && !high {
        poly[i] := 0;
      } else {
        poly[i] := 1;
      }
      i := i + 1;
    }
  }

  function ByteSum(rb: Bytes): nat {
    if rb == [] then 0 else ByteSum(rb[..|rb| - 1]) + rb[|rb| - 1] as int
  }

  lemma {:induction false} ByteSumBound(rb: Bytes)
    ensures ByteSum(rb) <= 255 * |rb|
  {
    if rb != [] {
      ByteSumBound(rb[..|rb| - 1]);
    }
  }

  /** floor((sum/255 - 6) * 3.19), clamped to [-q, q); exact in the reals. */
  function ErrorOf(sum: nat, q: int): int
    requires q > 0
  {
    var v := ((sum as real / 255.0 - 6.0) * 3.19).Floor;
    if v < -q then -q else if v >= q then q - 1 else v
  }

  /** errorPoly draws from [-20, 19]. */
  lemma ErrorRange(rb: Bytes, q: int)
    requires |rb| == 12 && q >= 20
    ensures -20 <= ErrorOf(ByteSum(rb), q) <= 19
  {
    ByteSumBound(rb);
    var x := ByteSum(rb) as real / 255.0;
    assert 0.0 <= x <= 12.0;
  }

  /** Both ends are drawn: from twelve zero bytes and from twelve bytes 255. */
  lemma ErrorRangeAttained(q: int)
    requires q >= 20
    ensures ErrorOf(ByteSum(seq(12, _ => 0)), q) == -20 && ErrorOf(ByteSum(seq(12, _ => 255)), q) == 19
  {
    ByteSumConstant(12, 0);
    ByteSumConstant(12, 255);
  }

  lemma {:induction false} ByteSumConstant(n: nat, b: bv8)
    ensures ByteSum(seq(n, _ => b)) == n * (b as int)
  {
    if n > 0 {
      ByteSumConstant(n - 1, b);
      assert seq(n, _ => b)[..n - 1] == seq(n - 1, _ => b);
      assert n * (b as int) == (n - 1) * (b as int) + b as int;
    }
  }

  /**
   Rounding does not matter: an evaluation x of the same expression that is off by less than
   1/25500, and exact where the value is zero, has the same floor. For no other sum is the
   value so close to an integer.
   */
  lemma ErrorOfRounded(sum: nat, x: real)
    requires sum <= 12 * 255
    requires var v := (sum as real / 255.0 - 6.0) * 3.19;
             -1.0 < (x - v) * 25500.0 < 1.0 && (v == 0.0 ==> x == 0.0)
    ensures x.Floor == ((sum as real / 255.0 - 6.0) * 3.19).Floor
  {
    var v, d := (sum as real / 255.0 - 6.0) * 3.19, sum - 1530;
    var f, rest := 319 * d / 25500, 319 * d % 25500;
    ErrorInUnits(sum, v);
    if rest == 0 {
      OnlyZeroDivides(d, f);
    } else {
      FloorBetween(v * 25500.0, v, f, rest);
      FloorNear(v, x, f, rest);
    }
  }

  /** The value is a whole number of units of 1/25500. */
  lemma ErrorInUnits(sum: nat, v: real)
    requires v == (sum as real / 255.0 - 6.0) * 3.19
    ensures v * 25500.0 == (319 * (sum - 1530)) as real
  {
    assert sum as real / 255.0 * 255.0 == sum as real;
    assert (319 * (sum - 1530)) as real == 319.0 * (sum as real - 1530.0);
  }

  lemma FloorBetween(y: real, v: real, f: int, rest: int)
    requires y == v * 25500.0 && y == (25500 * f + rest) as real && 0 < rest < 25500
    ensures v.Floor == f
  {
    assert y == 25500.0 * f as real + rest as real;
  }

  lemma FloorNear(v: real, x: real, f: int, rest: int)
    requires v * 25500.0 == (25500 * f + rest) as real && 0 < rest < 25500
    requires -1.0 < (x - v) * 25500.0 < 1.0
    ensures x.Floor == f
  {
    assert (25500 * f + rest) as real == 25500.0 * f as real + rest as real;
    assert 1.0 <= rest as real <= 25499.0;
  }

  lemma OnlyZeroDivides(d: int, f: int)
    requires -1530 <= d <= 1530 && 319 * d == 25500 * f
    ensures d == 0
  {
    assert -20 < f < 20;
  }

  function ErrorsOf(rbs: seq<Bytes>, q: int): (r: Poly)
    requires q > 0
    ensures |r| == |rbs|
  {
    seq(|rbs|, i requires 0 <= i < |rbs| => ErrorOf(ByteSum(rbs[i]), q))
  }

  method ErrorPoly(rbs: seq<seq<bv8>>, q: int) returns (poly: array<int>)
    requires q > 0 && forall i :: 0 <= i < |rbs| ==> |rbs[i]| == 12
    ensures fresh(poly) && poly[..] == ErrorsOf(rbs, q)
  {
    poly := new int[|rbs|];
    var i := 0;
    while i < |rbs|
      invariant 0 <= i <= |rbs|
      invariant forall p :: 0 <= p < i ==> poly[p] == ErrorOf(ByteSum(rbs[p]), q)
    {
      var rb, sum, j := rbs[i], 0, 0;
      while j < 12
        invariant 0 <= j <= 12
        invariant sum == ByteSum(rb[..j])
      {
        assert rb[..j + 1][..j] == rb[..j];
        sum := sum + rb[j] as int;
        j := j + 1;
      }
      assert rb[..12] == rb;
      var errVal := ((sum as real / 255.0 - 6.0) * 3.19).Floor;
      if errVal < -q {
        errVal := -q;
      }
      if errVal >= q {
        errVal := q - 1;
      }
      poly[i] := errVal;
      i := i + 1;
    }
  }

  // ------------------------------------------------------------ the samplers, byte by byte

  /** The two random bits of coefficient i, read as a number: 0 gives -1, 1 gives 0, 2 and 3 give 1. */
  lemma TernaryFromBits(rb: Bytes, n: nat, i: nat)
    requires |rb| == (2 * n + 7) / 8 && i < n
    ensures var d := (rb[i / 4] >> (2 * (i % 4))) & 3;
            TernaryOf(rb, n)[i] == if d == 0 then -1 else if d == 1 then 0 else 1
  {
    hide BitAt;
    BitIsShift(rb, 2 * i);
    BitIsShift(rb, 2 * i + 1);
    assert 2 * i / 8 == i / 4 && 2 * i % 8 == 2 * (i % 4);
    assert (2 * i + 1) / 8 == i / 4 && (2 * i + 1) % 8 == 2 * (i % 4) + 1;
    TwoBits(rb[i / 4], i % 4);
  }

  lemma TwoBits(x: bv8, t: nat)
    requires t < 4
    ensures var d := (x >> (2 * t)) & 3;
            && (d == 0 <==> (x >> (2 * t)) & 1 != 1 && (x >> (2 * t + 1)) & 1 != 1)
            && (d == 1 <==> (x >> (2 * t)) & 1 == 1 && (x >> (2 * t + 1)) & 1 != 1)
  {
  }

  /** A uniform coefficient is the residue of a little-endian 16-bit number. */
  lemma UniformFromBytes(rnd: Bytes, n: nat, q: int, i: nat)
    requires q > 0 && |rnd| == 2 * n && i < n
    ensures UniformOf(rnd, n, q)[i] == FromLE(rnd[2 * i..2 * i + 2]) % q
  {
    var b := rnd[2 * i..2 * i + 2];
    assert FromLE(b[1..]) == b[1] as int + 256 * FromLE([]);
  }

  /** An error coefficient is the floor of 319 (sum - 1530) / 25500, in whole numbers. */
  lemma ErrorFromBytes(rb: Bytes, q: int)
    requires |rb| == 12 && q >= 20
    ensures var d := ByteSum(rb) - 1530;
            25500 * ErrorOf(ByteSum(rb), q) <= 319 * d < 25500 * (ErrorOf(ByteSum(rb), q) + 1)
  {
    var v, d := (ByteSum(rb) as real / 255.0 - 6.0) * 3.19, ByteSum(rb) - 1530;
    ErrorInUnits(ByteSum(rb), v);
    FloorInUnits(v, 319 * d);
    ByteSumBound(rb);
    assert ErrorOf(ByteSum(rb), q) == v.Floor;
  }

  lemma FloorInUnits(v: real, k: int)
    requires v * 25500.0 == k as real
    ensures 25500 * v.Floor <= k < 25500 * (v.Floor + 1)
  {
    var f := v.Floor;
    assert f as real * 25500.0 == (25500 * f) as real;
    assert (f as real + 1.0) * 25500.0 == (25500 * (f + 1)) as real;
  }

  /** The sum runs over all twelve bytes. */
  lemma TwelveBytes(rb: Bytes)
    requires |rb| == 12
    ensures ByteSum(rb) == rb[0] as int + rb[1] as int + rb[2] as int + rb[3] as int + rb[4] as int + rb[5] as int
                         + rb[6] as int + rb[7] as int + rb[8] as int + rb[9] as int + rb[10] as int + rb[11] as int
  {
    assert ByteSum(rb) == ByteSum(rb[..8]) + rb[8] as int + rb[9] as int + rb[10] as int + rb[11] as int by {
      FourMore(rb, 8);
    }
    assert rb[..8][..4] == rb[..4] && rb[..4][..0] == [];
    FourMore(rb[..8], 4);
    FourMore(rb[..4], 0);
  }

  lemma FourMore(b: Bytes, n: nat)
    requires |b| == n + 4
    ensures ByteSum(b) == ByteSum(b[..n]) + b[n] as int + b[n + 1] as int + b[n + 2] as int + b[n + 3] as int
  {
    OneMore(b, n);
    OneMore(b, n + 1);
    OneMore(b, n + 2);
    OneMore(b, n + 3);
    assert b[..n + 4] == b;
  }

  lemma OneMore(b: Bytes, n: nat)
    requires n < |b|
    ensures ByteSum(b[..n + 1]) == ByteSum(b[..n]) + b[n] as int
  {
    assert b[..n + 1][..n] == b[..n];
  }
}
