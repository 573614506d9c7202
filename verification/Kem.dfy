/**
 The key encapsulation of ringlwe.go as functions of its inputs and of the random
 polynomials drawn, and the agreement theorems: when both parties compute the same secret.
 */
module Kem {
  import opened Wrappers
  import opened Modular
  import opened Polynomial
  import opened Transform
  import opened Ntt
  import opened ByteStrings
  import opened Reconciliation

  datatype Error =
    | InvalidPublicKey
    | InvalidPrivateKey
    | InvalidCiphertext
    | InvalidPoly
    | CoeffOutOfRange
    | NttFault

  type Digest = b: Bytes | |b| == 32 witness seq(32, i => 0)

  /** A ring: polynomials modulo x^(2^k) - 1 and modulo q, with the transform root. */
  datatype Ring = Ring(k: nat, q: int, root: int) {
    ghost predicate Valid() {
      ValidParams(k, q, root) && Pow2(k) <= 256
    }

    function N(): nat {
      Pow2(k)
    }
  }

  // ------------------------------------------------------------ polynomials and bytes

  /** The product secureMultiply computes: cyclic convolution, reduced. */
  function RingMul(a: Poly, b: Poly, q: int): (r: Poly)
    requires q > 0 && |a| == |b|
    ensures |r| == |a|
  {
    Reduce(Conv(a, b), q)
  }

  function AddReduced(a: Poly, e: Poly, q: int): (r: Poly)
    requires q > 0 && |a| == |e|
    ensures |r| == |a|
  {
    Reduce(Plus(a, e), q)
  }

  /** serializePoly: two little-endian bytes for every coefficient's residue. */
  function Serialize(p: Poly, q: int): (r: Bytes)
    requires q > 0
    ensures |r| == 2 * |p|
  {
    seq(2 * |p|, i requires 0 <= i < 2 * |p| =>
      if i % 2 == 0 then ByteOf(p[i / 2] % q) else ByteOf(p[i / 2] % q / 256))
  }

  /** One coefficient of deserializePoly. */
  function Coefficient(lo: bv8, hi: bv8, q: int, validate: bool): (c: int)
    requires q > 0
  {
    var val := lo as int + 256 * (hi as int);
    if val >= q && validate then val % q else val
  }

  function Deserialize(data: Bytes, n: nat, q: int, validate: bool): (r: Poly)
    requires q > 0 && |data| >= 2 * n
    ensures |r| == n
  {
    seq(n, i requires 0 <= i < n => Coefficient(data[2 * i], data[2 * i + 1], q, validate))
  }

  /** With validation on, every deserialised coefficient lies in [0, q). */
  lemma DeserializedReduced(data: Bytes, n: nat, q: int)
    requires q > 0 && |data| >= 2 * n
    ensures Reduced(Deserialize(data, n, q, true), q)
  {
  }

  lemma CoefficientRoundTrip(v: int, q: int, validate: bool)
    requires 0 < q <= MAX_MODULUS
    ensures Coefficient(ByteOf(v % q), ByteOf(v % q / 256), q, validate) == v % q
  {
    var norm := v % q;
    ByteOfValue(norm);
    ByteOfValue(norm / 256);
    SmallMod(norm / 256, 256);
  }

  /** deserializePoly undoes serializePoly up to reduction, with or without validation. */
  lemma SerializeRoundTrip(p: Poly, q: int, validate: bool)
    requires 0 < q <= MAX_MODULUS
    ensures Deserialize(Serialize(p, q), |p|, q, validate) == Reduce(p, q)
  {
    forall i | 0 <= i < |p|
      ensures Deserialize(Serialize(p, q), |p|, q, validate)[i] == Reduce(p, q)[i]
    {
      CoefficientRoundTrip(p[i], q, validate);
      assert 2 * i / 2 == i && (2 * i + 1) / 2 == i;
    }
  }

  // ------------------------------------------------------------ the scheme

  function HighBits(w: Poly, q: int): (r: Bytes)
    requires |w| <= 256
    ensures |r| == 32
  {
    Packed(i => 0 <= i < |w| && HighBit(w[i], q), |w|, 32)
  }

  function HintBits(w: Poly, q: int): (r: Bytes)
    requires |w| <= 256
    ensures |r| == 32
  {
    Packed(i => 0 <= i < |w| && HelpRec(w[i], q) == 1, |w|, 32)
  }

  function HintAt(hint: Bytes, i: nat): int
    requires i < 8 * |hint|
  {
    if BitAt(hint, i) then 1 else 0
  }

  /** recToBits: the receiver's bits from its own polynomial and the hints. */
  function RecBits(w: Poly, hint: Bytes, q: int): (r: Bytes)
    requires |w| <= 256 && |hint| == 32
    ensures |r| == 32
  {
    Packed(i => 0 <= i < |w| && Rec(w[i], HintAt(hint, i), q) == 1, |w|, 32)
  }

  function PublicKey(ring: Ring, a: Poly, s: Poly, e: Poly): (r: Bytes)
    requires ring.q > 0 && |a| == |s| == |e|
    ensures |r| == 4 * |a|
  {
    Serialize(a, ring.q) + Serialize(AddReduced(RingMul(a, s, ring.q), e, ring.q), ring.q)
  }

  /** The ciphertext and the shared secret. */
  datatype Capsule = Capsule(ct: Bytes, ss: Digest)

  function EncapsWith(ring: Ring, pk: Bytes, sp: Poly, ep: Poly, validate: bool, sha256: Bytes -> Digest): (r: Capsule)
    requires ring.q > 0 && ring.N() <= 256
    requires |pk| == 4 * ring.N() && |sp| == |ep| == ring.N()
    ensures |r.ct| == 2 * ring.N() + 32
  {
    var n, q := ring.N(), ring.q;
    var a := Deserialize(pk[..2 * n], n, q, validate);
    var b := Deserialize(pk[2 * n..], n, q, validate);
    var u := AddReduced(RingMul(a, sp, q), ep, q);
    var w := RingMul(b, sp, q);
    var ct := Serialize(u, q) + HintBits(w, q);
    Capsule(ct, sha256(HighBits(w, q) + pk + ct))
  }

  function Encaps(ring: Ring, pk: Bytes, sp: Poly, ep: Poly, validate: bool, sha256: Bytes -> Digest)
    : Result<Capsule, Error>
    requires ring.q > 0 && ring.N() <= 256 && |sp| == |ep| == ring.N()
  {
    if |pk| != 4 * ring.N() then Err(InvalidPublicKey)
    else Ok(EncapsWith(ring, pk, sp, ep, validate, sha256))
  }

  function Decaps(ring: Ring, sk: Bytes, pk: Bytes, ct: Bytes, validate: bool, sha256: Bytes -> Digest)
    : Result<Digest, Error>
    requires ring.q > 0 && ring.N() <= 256
  {
    var n, q := ring.N(), ring.q;
    if |sk| != 2 * n then Err(InvalidPrivateKey)
    else if |ct| != 2 * n && |ct| != 2 * n + 32 then Err(InvalidCiphertext)
    else if |pk| != 4 * n then Err(InvalidPublicKey)
    else
      var s := Deserialize(sk, n, q, validate);
      var u := Deserialize(ct[..2 * n], n, q, validate);
      var w := RingMul(u, s, q);
      var raw := if |ct| == 2 * n + 32 then RecBits(w, ct[2 * n..], q) else HighBits(w, q);
      Ok(sha256(raw + pk + ct))
  }

  // ------------------------------------------------------------ agreement

  /** The sender's polynomial (b + ...)sp and the receiver's polynomial u s. */
  function SenderPoly(q: int, a: Poly, s: Poly, e: Poly, sp: Poly): (r: Poly)
    requires q > 0 && |a| == |s| == |e| == |sp|
    ensures |r| == |a|
  {
    RingMul(AddReduced(RingMul(a, s, q), e, q), sp, q)
  }

  function ReceiverPoly(q: int, a: Poly, s: Poly, sp: Poly, ep: Poly): (r: Poly)
    requires q > 0 && |a| == |s| == |sp| == |ep|
    ensures |r| == |a|
  {
    RingMul(AddReduced(RingMul(a, sp, q), ep, q), s, q)
  }

  /** e sp - ep s: all that is left of the difference between the two parties. */
  function Noise(s: Poly, e: Poly, sp: Poly, ep: Poly): (r: Poly)
    requires |s| == |e| == |sp| == |ep|
    ensures |r| == |s|
  {
    Minus(Conv(e, sp), Conv(ep, s))
  }

  lemma ReduceCongruent(a: Poly, q: int)
    requires q > 0
    ensures Congruent(Reduce(a, q), a, q)
  {
    forall i | 0 <= i < |a|
      ensures Reduce(a, q)[i] % q == a[i] % q
    {
      ModMod(a[i], q);
    }
  }

  /** The value of a ring product at a root of unity, from a value v of the first factor. */
  lemma EvalRingMul(a: Poly, b: Poly, x: int, v: int, q: int)
    requires q > 0 && |a| == |b| && Pow(x, |b|) % q == 1 % q
    requires Eval(a, x) % q == v % q
    ensures Eval(RingMul(a, b, q), x) % q == (v * Eval(b, x)) % q
  {
    ReduceCongruent(Conv(a, b), q);
    EvalCong(RingMul(a, b, q), Conv(a, b), x, x, q);
    EvalConv(a, b, x, q);
    MulCong(Eval(a, x), v, Eval(b, x), Eval(b, x), q);
  }

  lemma EvalAddReduced(p: Poly, e: Poly, x: int, v: int, q: int)
    requires q > 0 && |p| == |e|
    requires Eval(p, x) % q == v % q
    ensures Eval(AddReduced(p, e, q), x) % q == (v + Eval(e, x)) % q
  {
    ReduceCongruent(Plus(p, e), q);
    EvalCong(AddReduced(p, e, q), Plus(p, e), x, x, q);
    EvalPlus(p, e, x);
    AddCong(Eval(p, x), v, Eval(e, x), Eval(e, x), q);
  }

  lemma EvalAddMul(p: Poly, e: Poly, c: Poly, x: int, v: int, q: int)
    requires q > 0 && |p| == |e| == |c| && Pow(x, |c|) % q == 1 % q
    requires Eval(p, x) % q == v % q
    ensures Eval(RingMul(AddReduced(p, e, q), c, q), x) % q == ((v + Eval(e, x)) * Eval(c, x)) % q
  {
    EvalAddReduced(p, e, x, v, q);
    EvalRingMul(AddReduced(p, e, q), c, x, v + Eval(e, x), q);
  }

  /** The value of (a b + e) c at a root of unity. */
  lemma EvalMulAddMul(a: Poly, b: Poly, e: Poly, c: Poly, x: int, q: int)
    requires q > 0 && |a| == |b| == |e| == |c| && Pow(x, |a|) % q == 1 % q
    ensures Eval(RingMul(AddReduced(RingMul(a, b, q), e, q), c, q), x) % q
         == ((Eval(a, x) * Eval(b, x) + Eval(e, x)) * Eval(c, x)) % q
  {
    EvalRingMul(a, b, x, Eval(a, x), q);
    EvalAddMul(RingMul(a, b, q), e, c, x, Eval(a, x) * Eval(b, x), q);
  }

  lemma CancelCommonPart(a: int, s: int, e: int, s': int, e': int)
    ensures (a * s + e) * s' - (a * s' + e') * s == e * s' - e' * s
  {
    MulAssoc(a, s, s');
    MulAssoc(a, s', s);
    assert (a * s + e) * s' == a * s * s' + e * s';
    assert (a * s' + e') * s == a * s' * s + e' * s;
  }

  /** The common part a s sp cancels: the parties differ by the noise polynomial modulo q. */
  lemma DifferenceIsNoise(ring: Ring, a: Poly, s: Poly, e: Poly, sp: Poly, ep: Poly)
    requires ring.Valid()
    requires |a| == |s| == |e| == |sp| == |ep| == ring.N()
    ensures Congruent(Minus(SenderPoly(ring.q, a, s, e, sp), ReceiverPoly(ring.q, a, s, sp, ep)),
                      Noise(s, e, sp, ep), ring.q)
  {
    var q, k, w := ring.q, ring.k, ring.root;
    var d := Minus(SenderPoly(q, a, s, e, sp), ReceiverPoly(q, a, s, sp, ep));
    var z := Noise(s, e, sp, ep);
    forall j | 0 <= j < |a|
      ensures Dft(d, w, q)[j] == Dft(z, w, q)[j]
    {
      PowerOfRoot(w, k, q, j);
      DifferenceAt(q, a, s, e, sp, ep, Pow(w, j));
    }
    if k > 0 {
      RootInverseCorrect(w, k, q);
    }
    SmallMod(1, q);
    var nInv := SizeInverse(k, q);
    DftInjective(d, z, k, w, RootInverse(w, k, q), nInv, q);
  }

  lemma DifferenceAt(q: int, a: Poly, s: Poly, e: Poly, sp: Poly, ep: Poly, x: int)
    requires q > 0 && |a| == |s| == |e| == |sp| == |ep| && Pow(x, |a|) % q == 1 % q
    ensures Eval(Minus(SenderPoly(q, a, s, e, sp), ReceiverPoly(q, a, s, sp, ep)), x) % q
         == Eval(Noise(s, e, sp, ep), x) % q
  {
    var we, wd := SenderPoly(q, a, s, e, sp), ReceiverPoly(q, a, s, sp, ep);
    var va, vs, ve, vs', ve' := Eval(a, x), Eval(s, x), Eval(e, x), Eval(sp, x), Eval(ep, x);
    EvalMinus(we, wd, x);
    EvalMulAddMul(a, s, e, sp, x, q);
    EvalMulAddMul(a, sp, ep, s, x, q);
    EvalMinus(Conv(e, sp), Conv(ep, s), x);
    EvalConv(e, sp, x, q);
    EvalConv(ep, s, x, q);
    DifferenceOfValues(Eval(we, x), Eval(wd, x), Eval(Conv(e, sp), x), Eval(Conv(ep, s), x), va, vs, ve, vs', ve', q);
  }

  lemma DifferenceOfValues(we: int, wd: int, z: int, z': int, a: int, s: int, e: int, s': int, e': int, q: int)
    requires q > 0
    requires we % q == ((a * s + e) * s') % q && wd % q == ((a * s' + e') * s) % q
    requires z % q == (e * s') % q && z' % q == (e' * s) % q
    ensures (we - wd) % q == (z - z') % q
  {
    SubCong(we, (a * s + e) * s', wd, (a * s' + e') * s, q);
    CancelCommonPart(a, s, e, s', e');
    SubCong(z, e * s', z', e' * s, q);
  }

  /** Distance of an integer from the nearest multiple of q. */
  function CircNorm(z: int, q: int): int
    requires q > 0
  {
    var r := z % q;
    if 2 * r > q then q - r else r
  }

  lemma DistanceIsNorm(v: int, v': int, z: int, q: int)
    requires q > 0 && 0 <= v < q && 0 <= v' < q
    requires (v - v') % q == z % q
    ensures CircDist(v, v', q) == CircNorm(z, q)
  {
    if v >= v' {
      SmallMod(v - v', q);
    } else {
      ModIs(v - v', q, -1, v - v' + q);
    }
  }

  /** Congruent inputs have equal products. */
  lemma RingMulCong(a: Poly, a': Poly, b: Poly, b': Poly, q: int)
    requires q > 0 && |a| == |b| && Congruent(a, a', q) && Congruent(b, b', q)
    ensures RingMul(a, b, q) == RingMul(a', b', q)
  {
    forall m | 0 <= m < |a|
      ensures RingMul(a, b, q)[m] == RingMul(a', b', q)[m]
    {
      forall i | 0 <= i < |a|
        ensures (a[i] * b[(m - i) % |a|]) % q == (a'[i] * b'[(m - i) % |a|]) % q
      {
        MulCong(a[i], a'[i], b[(m - i) % |a|], b'[(m - i) % |a|], q);
      }
      SumCong(|a|, i => if 0 <= i < |a| then a[i] * b[(m - i) % |a|] else 0,
              i => if 0 <= i < |a| then a'[i] * b'[(m - i) % |a|] else 0, q);
    }
  }

  /** What the sender works with, in terms of the polynomials behind the public key. */
  lemma SenderView(ring: Ring, a: Poly, s: Poly, e: Poly, sp: Poly, ep: Poly, validate: bool, sha256: Bytes -> Digest)
    requires ring.Valid() && |a| == |s| == |e| == |sp| == |ep| == ring.N()
    ensures var pk := PublicKey(ring, a, s, e);
            var u := AddReduced(RingMul(a, sp, ring.q), ep, ring.q);
            var w := SenderPoly(ring.q, a, s, e, sp);
            var ct := Serialize(u, ring.q) + HintBits(w, ring.q);
            EncapsWith(ring, pk, sp, ep, validate, sha256) == Capsule(ct, sha256(HighBits(w, ring.q) + pk + ct))
  {
    var n, q := ring.N(), ring.q;
    var pk, b := PublicKey(ring, a, s, e), AddReduced(RingMul(a, s, q), e, q);
    assert pk[..2 * n] == Serialize(a, q) && pk[2 * n..] == Serialize(b, q);
    SerializeRoundTrip(a, q, validate);
    SerializeRoundTrip(b, q, validate);
    ReduceCongruent(a, q);
    ReduceCongruent(b, q);
    RingMulCong(Reduce(a, q), a, sp, sp, q);
    RingMulCong(Reduce(b, q), b, sp, sp, q);
  }

  lemma ReceiverView(ring: Ring, a: Poly, s: Poly, sp: Poly, ep: Poly, hint: Bytes, pk: Bytes,
                     validate: bool, sha256: Bytes -> Digest)
    requires ring.Valid() && |a| == |s| == |sp| == |ep| == ring.N()
    requires |hint| == 32 && |pk| == 4 * ring.N()
    ensures var u := AddReduced(RingMul(a, sp, ring.q), ep, ring.q);
            var w := ReceiverPoly(ring.q, a, s, sp, ep);
            var ct := Serialize(u, ring.q) + hint;
            Decaps(ring, Serialize(s, ring.q), pk, ct, validate, sha256)
            == Ok(sha256(RecBits(w, hint, ring.q) + pk + ct))
  {
    var n, q := ring.N(), ring.q;
    var u := AddReduced(RingMul(a, sp, q), ep, q);
    var ct := Serialize(u, q) + hint;
    assert ct[..2 * n] == Serialize(u, q) && ct[2 * n..] == hint;
    SerializeRoundTrip(s, q, validate);
    SerializeRoundTrip(u, q, validate);
    ReduceCongruent(s, q);
    ReduceCongruent(u, q);
    RingMulCong(Reduce(u, q), u, Reduce(s, q), s, q);
  }

  /** The two bit strings are equal exactly when every coefficient's bit agrees. */
  lemma RawBitsAgree(we: Poly, wd: Poly, q: int)
    requires |we| == |wd| <= 256
    ensures RecBits(wd, HintBits(we, q), q) == HighBits(we, q)
       <==> forall m :: 0 <= m < |we| ==> Agrees(we[m], wd[m], q)
  {
    var hint := HintBits(we, q);
    var f := i => 0 <= i < |wd| && Rec(wd[i], HintAt(hint, i), q) == 1;
    var g := i => 0 <= i < |we| && HighBit(we[i], q);
    forall m | 0 <= m < |we|
      ensures f(m) <==> Rec(wd[m], HelpRec(we[m], q), q) == 1
    {
      PackedAt(i => 0 <= i < |we| && HelpRec(we[i], q) == 1, |we|, 32, m);
    }
    if RecBits(wd, hint, q) == HighBits(we, q) {
      forall m | 0 <= m < |we|
        ensures Agrees(we[m], wd[m], q)
      {
        PackedAt(f, |wd|, 32, m);
        PackedAt(g, |we|, 32, m);
      }
    }
    if forall m :: 0 <= m < |we| ==> Agrees(we[m], wd[m], q) {
      PackedExt(f, g, |we|, 32);
    }
  }

  /** Every coefficient whose noise is within tolerance decodes to the sender's bit. */
  lemma NoiseToBit(ring: Ring, a: Poly, s: Poly, e: Poly, sp: Poly, ep: Poly, m: nat)
    requires ring.Valid()
    requires |a| == |s| == |e| == |sp| == |ep| == ring.N() && m < ring.N()
    requires 8 * CircNorm(Noise(s, e, sp, ep)[m], ring.q) < ring.q
    ensures Agrees(SenderPoly(ring.q, a, s, e, sp)[m], ReceiverPoly(ring.q, a, s, sp, ep)[m], ring.q)
  {
    var q := ring.q;
    var we, wd := SenderPoly(q, a, s, e, sp), ReceiverPoly(q, a, s, sp, ep);
    DifferenceIsNoise(ring, a, s, e, sp, ep);
    assert Minus(we, wd)[m] % q == Noise(s, e, sp, ep)[m] % q;
    DistanceIsNorm(we[m], wd[m], Noise(s, e, sp, ep)[m], q);
    WithinTolerance(we[m], wd[m], q);
  }

  /**
   Agreement: when every coefficient of the noise is within q/8 of a multiple of q, the
   receiver computes the sender's secret, whatever protection options either side uses.
   */
  lemma Agreement(ring: Ring, a: Poly, s: Poly, e: Poly, sp: Poly, ep: Poly,
                  senderValidates: bool, receiverValidates: bool, sha256: Bytes -> Digest)
    requires ring.Valid()
    requires |a| == |s| == |e| == |sp| == |ep| == ring.N()
    requires forall m :: 0 <= m < ring.N() ==> 8 * CircNorm(Noise(s, e, sp, ep)[m], ring.q) < ring.q
    ensures var pk := PublicKey(ring, a, s, e);
            var capsule := EncapsWith(ring, pk, sp, ep, senderValidates, sha256);
            Decaps(ring, Serialize(s, ring.q), pk, capsule.ct, receiverValidates, sha256) == Ok(capsule.ss)
  {
    var we, wd := SenderPoly(ring.q, a, s, e, sp), ReceiverPoly(ring.q, a, s, sp, ep);
    forall m | 0 <= m < |we|
      ensures Agrees(we[m], wd[m], ring.q)
    {
      NoiseToBit(ring, a, s, e, sp, ep, m);
    }
    RawBitsAgree(we, wd, ring.q);
    SenderView(ring, a, s, e, sp, ep, senderValidates, sha256);
    ReceiverView(ring, a, s, sp, ep, HintBits(we, ring.q), PublicKey(ring, a, s, e), receiverValidates, sha256);
  }

  // ------------------------------------------------------------ the noise budget

  function Abs(x: int): nat {
    if x < 0 then -x else x
  }

  /** Sum of the absolute values of the coefficients. */
  function L1(a: Poly): nat {
    if a == [] then 0 else L1(a[..|a| - 1]) + Abs(a[|a| - 1])
  }

  ghost predicate Ternary(s: Poly) {
    forall i :: 0 <= i < |s| ==> -1 <= s[i] <= 1
  }

  /** A coefficient of a product with a ternary polynomial is at most the other's L1 norm. */
  lemma {:induction false} PartialConvBound(a: Poly, s: Poly, m: int, t: nat)
    requires t <= |a| == |s| && Ternary(s)
    ensures Abs(Sum(t, i => if 0 <= i < |a| then a[i] * s[(m - i) % |a|] else 0)) <= L1(a[..t])
  {
    if t > 0 {
      PartialConvBound(a, s, m, t - 1);
      assert a[..t][..t - 1] == a[..t - 1];
      var c := s[(m - (t - 1)) % |a|];
      TernaryFactor(a[t - 1], c);
    }
  }

  lemma TernaryFactor(x: int, c: int)
    requires -1 <= c <= 1
    ensures Abs(x * c) <= Abs(x)
  {
    assert c == -1 || c == 0 || c == 1;
  }

  lemma ConvBound(a: Poly, s: Poly, m: nat)
    requires |a| == |s| && m < |a| && Ternary(s)
    ensures Abs(Conv(a, s)[m]) <= L1(a)
  {
    PartialConvBound(a, s, m, |a|);
    assert a[..|a|] == a;
  }

  lemma NormBound(z: int, q: int)
    requires q > 0 && 2 * Abs(z) < q
    ensures CircNorm(z, q) == Abs(z)
  {
    if z >= 0 {
      SmallMod(z, q);
    } else {
      ModIs(z, q, -1, z + q);
    }
  }

  /** The deterministic budget: 8 (|e|_1 + |ep|_1) < q guarantees agreement for ternary secrets. */
  lemma NoiseBudget(ring: Ring, a: Poly, s: Poly, e: Poly, sp: Poly, ep: Poly,
                    senderValidates: bool, receiverValidates: bool, sha256: Bytes -> Digest)
    requires ring.Valid()
    requires |a| == |s| == |e| == |sp| == |ep| == ring.N()
    requires Ternary(s) && Ternary(sp)
    requires 8 * (L1(e) + L1(ep)) < ring.q
    ensures var pk := PublicKey(ring, a, s, e);
            var capsule := EncapsWith(ring, pk, sp, ep, senderValidates, sha256);
            Decaps(ring, Serialize(s, ring.q), pk, capsule.ct, receiverValidates, sha256) == Ok(capsule.ss)
  {
    forall m | 0 <= m < ring.N()
      ensures 8 * CircNorm(Noise(s, e, sp, ep)[m], ring.q) < ring.q
    {
      ConvBound(e, sp, m);
      ConvBound(ep, s, m);
      NormBound(Noise(s, e, sp, ep)[m], ring.q);
    }
    Agreement(ring, a, s, e, sp, ep, senderValidates, receiverValidates, sha256);
  }

  // ------------------------------------------------------------ the exact condition

  /**
   Exactly when the raw secrets coincide: every receiver coefficient lies in the half
   circle that the sender's coefficient selects.
   */
  lemma RawSecretsExact(ring: Ring, a: Poly, s: Poly, e: Poly, sp: Poly, ep: Poly)
    requires ring.Valid() && |a| == |s| == |e| == |sp| == |ep| == ring.N()
    ensures var we, wd := SenderPoly(ring.q, a, s, e, sp), ReceiverPoly(ring.q, a, s, sp, ep);
            RecBits(wd, HintBits(we, ring.q), ring.q) == HighBits(we, ring.q)
            <==> forall m :: 0 <= m < ring.N() ==> Decodable(we[m], wd[m], ring.q)
  {
    var we, wd := SenderPoly(ring.q, a, s, e, sp), ReceiverPoly(ring.q, a, s, sp, ep);
    RawBitsAgree(we, wd, ring.q);
    forall m | 0 <= m < ring.N()
      ensures Agrees(we[m], wd[m], ring.q) <==> Decodable(we[m], wd[m], ring.q)
    {
      AgreesExactly(we[m], wd[m], ring.q);
    }
  }

  /** The bit strings that the sender and the receiver hash. */
  function SenderRaw(ring: Ring, a: Poly, s: Poly, e: Poly, sp: Poly): Bytes
    requires ring.q > 0 && ring.N() <= 256 && |a| == |s| == |e| == |sp| == ring.N()
  {
    HighBits(SenderPoly(ring.q, a, s, e, sp), ring.q)
  }

  function ReceiverRaw(ring: Ring, a: Poly, s: Poly, e: Poly, sp: Poly, ep: Poly): Bytes
    requires ring.q > 0 && ring.N() <= 256 && |a| == |s| == |e| == |sp| == |ep| == ring.N()
  {
    RecBits(ReceiverPoly(ring.q, a, s, sp, ep), HintBits(SenderPoly(ring.q, a, s, e, sp), ring.q), ring.q)
  }

  /** The hash tells two raw strings apart, with the same public key and ciphertext behind them. */
  predicate NoCollision(sha256: Bytes -> Digest, raw: Bytes, raw': Bytes, pk: Bytes, ct: Bytes) {
    sha256(raw + pk + ct) == sha256(raw' + pk + ct) ==> raw == raw'
  }

  /** A hash of this kind: the first 32 bytes. */
  function FirstBytes(b: Bytes): Digest {
    (b + seq(32, i => 0))[..32]
  }

  lemma FirstBytesTellApart(raw: Bytes, raw': Bytes, pk: Bytes, ct: Bytes)
    requires |raw| == |raw'| == 32
    ensures NoCollision(FirstBytes, raw, raw', pk, ct)
  {
    assert FirstBytes(raw + pk + ct) == raw && FirstBytes(raw' + pk + ct) == raw';
  }

  /**
   Agreement, exactly: unless the hash collides on the two raw strings in question,
   Decapsulate returns Encapsulate's secret if and only if every receiver coefficient lies in
   the half circle that the sender's coefficient selects.
   */
  lemma AgreementExactly(ring: Ring, a: Poly, s: Poly, e: Poly, sp: Poly, ep: Poly,
                         senderValidates: bool, receiverValidates: bool, sha256: Bytes -> Digest)
    requires ring.Valid() && |a| == |s| == |e| == |sp| == |ep| == ring.N()
    requires var pk := PublicKey(ring, a, s, e);
             NoCollision(sha256, SenderRaw(ring, a, s, e, sp), ReceiverRaw(ring, a, s, e, sp, ep), pk,
                         EncapsWith(ring, pk, sp, ep, senderValidates, sha256).ct)
    ensures var pk := PublicKey(ring, a, s, e);
            var capsule := EncapsWith(ring, pk, sp, ep, senderValidates, sha256);
            var we, wd := SenderPoly(ring.q, a, s, e, sp), ReceiverPoly(ring.q, a, s, sp, ep);
            Decaps(ring, Serialize(s, ring.q), pk, capsule.ct, receiverValidates, sha256) == Ok(capsule.ss)
            <==> forall m :: 0 <= m < ring.N() ==> Decodable(we[m], wd[m], ring.q)
  {
    hide EncapsWith, Decaps, PublicKey, Serialize, HighBits, HintBits, RecBits, Decodable, SenderPoly, ReceiverPoly;
    var pk, we := PublicKey(ring, a, s, e), SenderPoly(ring.q, a, s, e, sp);
    SenderView(ring, a, s, e, sp, ep, senderValidates, sha256);
    ReceiverView(ring, a, s, sp, ep, HintBits(we, ring.q), pk, receiverValidates, sha256);
    RawSecretsExact(ring, a, s, e, sp, ep);
  }

  function Constant(n: nat, c: int): (r: Poly)
    ensures |r| == n
  {
    seq(n, i => c)
  }

  lemma {:induction false} SumOfConstant(n: nat, f: int -> int, c: int)
    requires forall i :: 0 <= i < n ==> f(i) == c
    ensures Sum(n, f) == n * c
  {
    if n > 0 {
      SumOfConstant(n - 1, f, c);
      assert n * c == (n - 1) * c + c;
    }
  }

  lemma ProductOfConstants(n: nat, c: int, d: int, v: int, q: int)
    requires q > 0 && (n * (c * d)) % q == v
    ensures RingMul(Constant(n, c), Constant(n, d), q) == Constant(n, v)
  {
    var a, b := Constant(n, c), Constant(n, d);
    forall m | 0 <= m < n
      ensures RingMul(a, b, q)[m] == v
    {
      SumOfConstant(n, i => if 0 <= i < |a| then a[i] * b[(m - i) % |a|] else 0, c * d);
    }
  }

  /**
   Agreement is not unconditional: errors inside the sampler's range (-20) and ternary
   secrets can push a coefficient to 5120, past q/8, for both shipped moduli.
   */
  lemma WorstCaseDisagrees(q: int)
    requires q == 7681 || q == 12289
    ensures var zero, e, sp := Constant(256, 0), Constant(256, -20), Constant(256, -1);
            var we, wd := SenderPoly(q, zero, zero, e, sp), ReceiverPoly(q, zero, zero, sp, zero);
            Ternary(sp) && Ternary(zero) && RecBits(wd, HintBits(we, q), q) != HighBits(we, q)
  {
    WrapAround(q);
    ConstantErrors(256, q, 5120);
    var we, wd := Constant(256, 5120), Constant(256, 0);
    assert !Agrees(we[0], wd[0], q);
    RawBitsAgree(we, wd, q);
  }

  lemma ConstantErrors(n: nat, q: int, v: int)
    requires q > 20 && (n * ((q - 20) * -1)) % q == v
    ensures var zero, e, sp := Constant(n, 0), Constant(n, -20), Constant(n, -1);
            && SenderPoly(q, zero, zero, e, sp) == Constant(n, v)
            && ReceiverPoly(q, zero, zero, sp, zero) == zero
  {
    var zero, e := Constant(n, 0), Constant(n, -20);
    SmallMod(0, q);
    ModIs(-20, q, -1, q - 20);
    ProductOfConstants(n, 0, 0, 0, q);
    ProductOfConstants(n, 0, -1, 0, q);
    assert AddReduced(zero, e, q) == Constant(n, q - 20);
    assert AddReduced(zero, zero, q) == zero;
    ProductOfConstants(n, q - 20, -1, v, q);
  }

  lemma WrapAround(q: int)
    requires q > 5120
    ensures (256 * ((q - 20) * -1)) % q == 5120
  {
    ModIs(256 * ((q - 20) * -1), q, -256, 5120);
  }

  // ------------------------------------------------------------ byte by byte

  /** Every coefficient is written as its residue, low byte first. */
  lemma SerializedBytes(p: Poly, q: int, i: nat)
    requires 0 < q <= MAX_MODULUS && i < |p|
    ensures Serialize(p, q)[2 * i] as int + 256 * (Serialize(p, q)[2 * i + 1] as int) == p[i] % q
  {
    hide ByteOf;
    assert 2 * i / 2 == i && (2 * i + 1) / 2 == i;
    TwoBytes(p[i] % q);
  }

  lemma TwoBytes(c: nat)
    requires c < MAX_MODULUS
    ensures ByteOf(c) as int + 256 * (ByteOf(c / 256) as int) == c
  {
    ByteOfValue(c);
    ByteOfValue(c / 256);
    SmallMod(c / 256, 256);
  }

  /** And read from a little-endian pair of bytes: as it stands, or reduced when validating. */
  lemma DeserializedBytes(data: Bytes, n: nat, q: int, validate: bool, i: nat)
    requires q > 0 && |data| >= 2 * n && i < n
    ensures var v := data[2 * i] as int + 256 * (data[2 * i + 1] as int);
            Deserialize(data, n, q, validate)[i] == if validate then v % q else v
  {
    hide Coefficient;
    CoefficientValue(data[2 * i], data[2 * i + 1], q, validate);
  }

  lemma CoefficientValue(lo: bv8, hi: bv8, q: int, validate: bool)
    requires q > 0
    ensures var v := lo as int + 256 * (hi as int);
            Coefficient(lo, hi, q, validate) == if validate then v % q else v
  {
    ResidueOnce(lo as int + 256 * (hi as int), q);
  }

  lemma ResidueOnce(v: nat, q: int)
    requires q > 0
    ensures v < q ==> v % q == v
  {
    if v < q {
      SmallMod(v, q);
    }
  }

  /** Bit i of the sender's raw string is set exactly when twice coefficient i exceeds q. */
  lemma HighBitsByShift(w: Poly, q: int, i: nat)
    requires |w| <= 256 && i < 256
    ensures (HighBits(w, q)[i / 8] >> (i % 8)) & 1 == 1 <==> i < |w| && 2 * w[i] > q
  {
    PackedAt(i => 0 <= i < |w| && HighBit(w[i], q), |w|, 32, i);
    BitIsShift(HighBits(w, q), i);
  }

  /** Bit i of the hint is set exactly in the second and the fourth quarter of [0, q). */
  lemma HintBitsByShift(w: Poly, q: int, i: nat)
    requires |w| <= 256 && i < 256 && (i < |w| ==> Residue(w[i], q))
    ensures (HintBits(w, q)[i / 8] >> (i % 8)) & 1 == 1
       <==> i < |w| && ((q <= 4 * w[i] && 2 * w[i] < q) || 3 * q <= 4 * w[i])
  {
    PackedAt(i => 0 <= i < |w| && HelpRec(w[i], q) == 1, |w|, 32, i);
    BitIsShift(HintBits(w, q), i);
  }

  /** Bit i of the receiver's raw string, from its coefficient and bit i of the hint. */
  lemma RecBitsByShift(w: Poly, hint: Bytes, q: int, i: nat)
    requires |w| <= 256 && |hint| == 32 && i < 256 && q % 2 == 1
    requires i < |w| ==> Residue(w[i], q)
    ensures (RecBits(w, hint, q)[i / 8] >> (i % 8)) & 1 == 1
       <==> i < |w| && if (hint[i / 8] >> (i % 8)) & 1 == 1 then 8 * w[i] < q || 8 * w[i] > 5 * q
                       else 3 * q < 8 * w[i] < 7 * q
  {
    hide Rec, BitAt, RecBits;
    RecBitAt(w, hint, q, i);
    BitIsShift(RecBits(w, hint, q), i);
    BitIsShift(hint, i);
    if i < |w| {
      RecHalfCircle(w[i], BitAt(hint, i), q);
    }
  }

  lemma RecHalfCircle(v: int, bit: bool, q: int)
    requires q % 2 == 1 && Residue(v, q)
    ensures Rec(v, if bit then 1 else 0, q) == 1
       <==> if bit then 8 * v < q || 8 * v > 5 * q else 3 * q < 8 * v < 7 * q
  {
    RecRegion(v, if bit then 1 else 0, q);
  }

  lemma RecBitAt(w: Poly, hint: Bytes, q: int, i: nat)
    requires |w| <= 256 && |hint| == 32 && i < 256
    ensures BitAt(RecBits(w, hint, q), i) <==> i < |w| && Rec(w[i], HintAt(hint, i), q) == 1
  {
    hide Rec, Packed, BitAt;
    PackedAt(i => 0 <= i < |w| && Rec(w[i], HintAt(hint, i), q) == 1, |w|, 32, i);
  }

  /** The public key is a in its first half, a s + e in its second. */
  lemma PublicKeyHalves(ring: Ring, a: Poly, s: Poly, e: Poly, validate: bool)
    requires ring.Valid() && |a| == |s| == |e| == ring.N()
    ensures var pk, n, q := PublicKey(ring, a, s, e), ring.N(), ring.q;
            && |pk| == 4 * n
            && Deserialize(pk[..2 * n], n, q, validate) == Reduce(a, q)
            && Deserialize(pk[2 * n..], n, q, validate) == Reduce(Plus(Reduce(Conv(a, s), q), e), q)
  {
    var pk, n, q := PublicKey(ring, a, s, e), ring.N(), ring.q;
    var b := AddReduced(RingMul(a, s, q), e, q);
    assert pk[..2 * n] == Serialize(a, q) && pk[2 * n..] == Serialize(b, q);
    SerializeRoundTrip(a, q, validate);
    SerializeRoundTrip(b, q, validate);
    ReduceReduced(b, q);
  }

  lemma ReduceReduced(b: Poly, q: int)
    requires q > 0 && Reduced(b, q)
    ensures Reduce(b, q) == b
  {
    forall i | 0 <= i < |b|
      ensures Reduce(b, q)[i] == b[i]
    {
      SmallMod(b[i], q);
    }
  }

  /** The ciphertext is a s' + e' in its first 2N bytes and the 32-byte hint of b s' behind them. */
  lemma CiphertextParts(ring: Ring, pk: Bytes, sp: Poly, ep: Poly, validate: bool, sha256: Bytes -> Digest)
    requires ring.Valid() && |pk| == 4 * ring.N() && |sp| == |ep| == ring.N()
    ensures var n, q := ring.N(), ring.q;
            var ct := EncapsWith(ring, pk, sp, ep, validate, sha256).ct;
            var a, b := Deserialize(pk[..2 * n], n, q, validate), Deserialize(pk[2 * n..], n, q, validate);
            && |ct| == 2 * n + 32
            && Deserialize(ct[..2 * n], n, q, validate) == Reduce(Plus(Reduce(Conv(a, sp), q), ep), q)
            && ct[2 * n..] == HintBits(Reduce(Conv(b, sp), q), q)
  {
    hide HintBits;
    var n, q := ring.N(), ring.q;
    var ct := EncapsWith(ring, pk, sp, ep, validate, sha256).ct;
    var a := Deserialize(pk[..2 * n], n, q, validate);
    var u := AddReduced(RingMul(a, sp, q), ep, q);
    assert ct[..2 * n] == Serialize(u, q);
    SerializeRoundTrip(u, q, validate);
    ReduceReduced(u, q);
  }

  /** Encapsulate fails exactly on public keys of another length. */
  lemma EncapsFailsExactly(ring: Ring, pk: Bytes, sp: Poly, ep: Poly, validate: bool, sha256: Bytes -> Digest)
    requires ring.Valid() && |sp| == |ep| == ring.N()
    ensures var r := Encaps(ring, pk, sp, ep, validate, sha256);
            (r.Err? <==> |pk| != 4 * ring.N()) && (r.Err? ==> r == Err(InvalidPublicKey))
  {
  }

  /** Without a hint the receiver rounds: the raw string behind a ciphertext of 2N bytes. */
  lemma HintlessSecret(ring: Ring, sk: Bytes, pk: Bytes, ct: Bytes, validate: bool, sha256: Bytes -> Digest)
    requires ring.Valid() && |sk| == |ct| == 2 * ring.N() && |pk| == 4 * ring.N()
    ensures var n, q := ring.N(), ring.q;
            var w := Reduce(Conv(Deserialize(ct, n, q, validate), Deserialize(sk, n, q, validate)), q);
            Decaps(ring, sk, pk, ct, validate, sha256) == Ok(sha256(HighBits(w, q) + pk + ct))
  {
    assert ct[..2 * ring.N()] == ct;
  }

  /** Which error comes when: private key, then ciphertext, then public key; no other input fails. */
  lemma DecapsFailsExactly(ring: Ring, sk: Bytes, pk: Bytes, ct: Bytes, validate: bool, sha256: Bytes -> Digest)
    requires ring.Valid()
    ensures var n, r := ring.N(), Decaps(ring, sk, pk, ct, validate, sha256);
            && (r == Err(InvalidPrivateKey) <==> |sk| != 2 * n)
            && (r == Err(InvalidCiphertext) <==> |sk| == 2 * n && |ct| != 2 * n && |ct| != 2 * n + 32)
            && (r == Err(InvalidPublicKey) <==>
                  |sk| == 2 * n && (|ct| == 2 * n || |ct| == 2 * n + 32) && |pk| != 4 * n)
            && (r.Ok? <==> |sk| == 2 * n && (|ct| == 2 * n || |ct| == 2 * n + 32) && |pk| == 4 * n)
  {
    hide Deserialize, RecBits, HighBits;
  }
}
