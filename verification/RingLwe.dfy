/**
 BaseRingLWE of ringlwe.go: the object with its twiddle caches and protection options, the
 four transforms, the protected multiplication, the samplers and the three KEM operations.
 Slices that Go only reads are passed as values; every slice that Go builds in place is an
 array. Random bytes are parameters. SHA-256 is a parameter function of 32-byte results.
 */
module RingLwe {
  import opened Wrappers
  import opened Modular
  import opened NumberTheory
  import opened Polynomial
  import opened BitReversal
  import opened Transform
  import opened Ntt
  import opened ByteStrings
  import opened Kem
  import opened RingCodec

  datatype Protection = Protection(
    enabled: bool, blinding: bool, doubleCheck: bool, constantTime: bool, validateInputs: bool)

  const DEFAULT_PROTECTION := Protection(true, true, true, true, true)

  /** What secureMultiply's opening checks let through: nil, or the error it panics with. */
  function ValidateFactors(a: Poly, b: Poly, n: nat, q: int, validate: bool): Result<(), Error> {
    if !validate then Ok(())
    else if ValidatePoly(a, n, q, true).Err? then ValidatePoly(a, n, q, true)
    else ValidatePoly(b, n, q, true)
  }

  class BaseRingLwe {
    const N: int
    const Q: int
    const Root: int
    const InvN: int
    ghost const k: nat
    var prot: Protection
    var wlenCache: map<int, int>
    var invWlenCache: map<int, int>

    ghost predicate Params() {
      && N == Pow2(k) && ValidParams(k, Q, Root)
      && 0 <= InvN < Q && (N * InvN) % Q == 1
    }

    /** Every cached twiddle is root^(N / length), every cached inverse is its inverse. */
    ghost predicate Valid()
      reads this
    {
      && Params()
      && (forall l :: l in wlenCache ==> l > 0 && wlenCache[l] == Pow(Root, N / l) % Q)
      && (forall l :: l in invWlenCache ==>
            l > 0 && 0 <= invWlenCache[l] < Q && ((Pow(Root, N / l) % Q) * invWlenCache[l]) % Q == 1)
    }

    constructor (n: int, q: int, root: int, ghost logN: nat)
      requires n == Pow2(logN) && ValidParams(logN, q, root)
      ensures Valid()
      ensures N == n && Q == q && Root == root && k == logN
      ensures prot == DEFAULT_PROTECTION && wlenCache == map[] && invWlenCache == map[]
    {
      SizeCoprime(logN, q);
      var inv := ModInverse(n, q);
      N, Q, Root, InvN := n, q, root, inv;
      k := logN;
      prot := DEFAULT_PROTECTION;
      wlenCache, invWlenCache := map[], map[];
    }

    method SetNttProtection(opts: Protection)
      requires Valid()
      modifies this`prot
      ensures Valid() && prot == opts
    {
      prot := opts;
    }

    /** The uncached twiddle root^(N / length) of the pass that builds blocks of 2^s. */
    method ComputeWlen(length: int, ghost s: nat) returns (w: int)
      requires Params() && s <= k && length == Pow2(s)
      ensures w == Twiddle(Root, k, s, Q) == Pow(Root, N / length) % Q
    {
      Pow2Quotient(k, s);
      w := PowMod(Root, N / length, Q);
    }

    /** getWlen: the same twiddle through the cache. */
    method GetWlen(length: int, ghost s: nat) returns (w: int)
      requires Valid() && s <= k && length == Pow2(s)
      modifies this`wlenCache
      ensures Valid()
      ensures w == Twiddle(Root, k, s, Q)
      ensures wlenCache == old(wlenCache)[length := w]
    {
      if length in wlenCache {
        Pow2Quotient(k, s);
        return wlenCache[length];
      }
      w := ComputeWlen(length, s);
      wlenCache := wlenCache[length := w];
    }

    /** getInvWlen: the cached inverse twiddle of the pass that builds blocks of 2^s. */
    method GetInvWlen(length: int, ghost s: nat) returns (w: int)
      requires Valid() && 0 < s <= k && length == Pow2(s)
      modifies this`wlenCache, this`invWlenCache
      ensures Valid()
      ensures 0 <= w < Q && (Twiddle(Root, k, s, Q) * w) % Q == 1
      ensures length in invWlenCache && invWlenCache[length] == w
    {
      if length in invWlenCache {
        Pow2Quotient(k, s);
        return invWlenCache[length];
      }
      var wlen := GetWlen(length, s);
      TwiddleUnit(Root, k, s, Q);
      w := ModInverse(wlen, Q);
      Pow2Quotient(k, s);
      invWlenCache := invWlenCache[length := w];
    }

    /** ntt: the transform with twiddles computed afresh for every pass. */
    method Ntt(poly: seq<int>) returns (res: array<int>)
      requires Params() && |poly| == N && Reduced(poly, Q)
      ensures fresh(res) && res[..] == Dft(poly, Root, Q)
    {
      res := BitReverse(poly, k);
      ghost var s := 0;
      StartStages(res[..], poly, k, Root, Q);
      var length := 2;
      while length <= N
        invariant fresh(res) && res.Length == N && s <= k && length == 2 * Pow2(s)
        invariant Reduced(res[..], Q) && AtStage(res[..], poly, k, s, Twiddle(Root, k, s, Q), Q)
        decreases k - s
      {
        StageInRange(k, s, N, length);
        var wlen := ComputeWlen(length, s + 1);
        NextStage(res[..], poly, k, s, Root, Q);
        ButterflyPass(res, length / 2, wlen, Q);
        length := 2 * length;
        s := s + 1;
      }
      EndStages(res[..], poly, k, s, Root, Q);
    }

    /** hardenedNTT: the same transform with cached twiddles. */
    method HardenedNtt(poly: seq<int>) returns (res: array<int>)
      requires Valid() && |poly| == N && Reduced(poly, Q)
      modifies this`wlenCache
      ensures Valid() && fresh(res) && res[..] == Dft(poly, Root, Q)
    {
      res := BitReverse(poly, k);
      ghost var s := 0;
      StartStages(res[..], poly, k, Root, Q);
      var length := 2;
      while length <= N
        invariant Valid()
        invariant fresh(res) && res.Length == N && s <= k && length == 2 * Pow2(s)
        invariant Reduced(res[..], Q) && AtStage(res[..], poly, k, s, Twiddle(Root, k, s, Q), Q)
        decreases k - s
      {
        StageInRange(k, s, N, length);
        var wlen := GetWlen(length, s + 1);
        NextStage(res[..], poly, k, s, Root, Q);
        ButterflyPass(res, length / 2, wlen, Q);
        length := 2 * length;
        s := s + 1;
      }
      EndStages(res[..], poly, k, s, Root, Q);
    }

    /** invNTT: inverse twiddles computed afresh, then division by N. */
    method InvNtt(poly: seq<int>) returns (res: array<int>)
      requires Params() && |poly| == N && Reduced(poly, Q)
      ensures fresh(res) && res[..] == InverseDft(poly, k, Root, InvN, Q)
    {
      res := BitReverse(poly, k);
      ghost var s, u := 0, 0;
      StartInverseStages(res[..], poly, k, Q);
      var length := 2;
      while length <= N
        invariant fresh(res) && res.Length == N && s <= k && length == 2 * Pow2(s)
        invariant InverseOfTwiddle(u, k, s, Root, Q)
        invariant Reduced(res[..], Q) && AtStage(res[..], poly, k, s, u, Q)
        decreases k - s
      {
        StageInRange(k, s, N, length);
        var w := ComputeWlen(length, s + 1);
        TwiddleUnit(Root, k, s + 1, Q);
        var wlen := ModInverse(w, Q);
        NextInverseStage(res[..], poly, k, s, Root, u, wlen, Q);
        ButterflyPass(res, length / 2, wlen, Q);
        length := 2 * length;
        s, u := s + 1, wlen;
      }
      EndInverseStages(res[..], poly, k, s, Root, u, Q);
      ScaleBy(res, InvN, Q);
      ScaledIsInverse(res[..], poly, k, Root, InvN, Q);
    }

    /** hardenedInvNTT: cached inverse twiddles, then division by N. */
    method HardenedInvNtt(poly: seq<int>) returns (res: array<int>)
      requires Valid() && |poly| == N && Reduced(poly, Q)
      modifies this`wlenCache, this`invWlenCache
      ensures Valid() && fresh(res) && res[..] == InverseDft(poly, k, Root, InvN, Q)
    {
      res := BitReverse(poly, k);
      ghost var s, u := 0, 0;
      StartInverseStages(res[..], poly, k, Q);
      var length := 2;
      while length <= N
        invariant Valid()
        invariant fresh(res) && res.Length == N && s <= k && length == 2 * Pow2(s)
        invariant InverseOfTwiddle(u, k, s, Root, Q)
        invariant Reduced(res[..], Q) && AtStage(res[..], poly, k, s, u, Q)
        decreases k - s
      {
        StageInRange(k, s, N, length);
        var wlen := GetInvWlen(length, s + 1);
        NextInverseStage(res[..], poly, k, s, Root, u, wlen, Q);
        ButterflyPass(res, length / 2, wlen, Q);
        length := 2 * length;
        s, u := s + 1, wlen;
      }
      EndInverseStages(res[..], poly, k, s, Root, u, Q);
      ScaleBy(res, InvN, Q);
      ScaledIsInverse(res[..], poly, k, Root, InvN, Q);
    }

  
    // ---------------------------------------------------------- multiplication

    /** The product the transforms compute from two reduced factors. */
    ghost function TransformedProduct(a: Poly, b: Poly): Poly
      requires Params() && |a| == |b| == N
    {
      InverseDft(Pointwise(Dft(a, Root, Q), Dft(b, Root, Q), Q), k, Root, InvN, Q)
    }

    /** The unprotected path of secureMultiply. */
    method PlainProduct(a: seq<int>, b: seq<int>) returns (res: array<int>)
      requires Params() && |a| == |b| == N && Reduced(a, Q) && Reduced(b, Q)
      ensures fresh(res) && res[..] == TransformedProduct(a, b)
    {
      var aNtt := Ntt(a);
      var bNtt := Ntt(b);
      var prod := PointwiseProduct(aNtt[..], bNtt[..], Q);
      res := InvNtt(prod[..]);
    }

    /** The hardened path: transform, multiply pointwise, transform back. */
    method HardenedProduct(a: seq<int>, b: seq<int>) returns (res: array<int>)
      requires Valid() && |a| == |b| == N && Reduced(a, Q) && Reduced(b, Q)
      modifies this`wlenCache, this`invWlenCache
      ensures Valid() && fresh(res) && res[..] == TransformedProduct(a, b)
    {
      var aNtt := HardenedNtt(a);
      var bNtt := HardenedNtt(b);
      var prod := PointwiseProduct(aNtt[..], bNtt[..], Q);
      res := HardenedInvNtt(prod[..]);
    }

    /** Blinding: one factor times a random unit, the other times its inverse. */
    method Blind(a: seq<int>, b: seq<int>, rnd: seq<bv8>) returns (aEff: array<int>, bEff: array<int>)
      requires Params() && Prime(Q) && |rnd| == 2 && |a| == |b| == N && Reduced(a, Q) && Reduced(b, Q)
      ensures fresh(aEff) && fresh(bEff) && aEff.Length == bEff.Length == N
      ensures Reduced(aEff[..], Q) && Reduced(bEff[..], Q)
      ensures TransformedProduct(aEff[..], bEff[..]) == RingMul(a, b, Q)
    {
      var bf := (rnd[0] as int + 256 * (rnd[1] as int)) % (Q - 1) + 1;
      PrimeCoprime(bf, Q);
      var inv := ModInverse(bf, Q);
      aEff := ScaledCopy(a, bf, Q);
      bEff := ScaledCopy(b, inv, Q);
      SmallMod(1, Q);
      BlindedIsRingMul(a, b, bf, inv, k, Root, InvN, Q);
    }

    /** The redundant second computation: it always matches, so no fault is reported. */
    method DoubleCheck(a: seq<int>, b: seq<int>, res: array<int>) returns (checked: Result<(), Error>)
      requires Valid() && |a| == |b| == N && Reduced(a, Q) && Reduced(b, Q)
      requires res[..] == TransformedProduct(a, b)
      modifies this`wlenCache, this`invWlenCache
      ensures Valid() && checked == Ok(())
    {
      var res2 := HardenedProduct(a, b);
      assert res[..] == res2[..];
      var i := 0;
      while i < N
        invariant 0 <= i <= N
      {
        assert res[..][i] == res2[..][i];
        if res[i] != res2[i] {
          return Err(NttFault);
        }
        i := i + 1;
      }
      return Ok(());
    }

    method CheckFactors(a: seq<int>, b: seq<int>) returns (checked: Result<(), Error>)
      requires Params()
      ensures checked == ValidateFactors(a, b, N, Q, prot.validateInputs)
    {
      if prot.validateInputs {
        checked := CheckPoly(a, N, Q, true);
        if checked.Ok? {
          checked := CheckPoly(b, N, Q, true);
        }
      } else {
        checked := Ok(());
      }
    }

    /**
     secureMultiply: the cyclic convolution of a and b, reduced, whatever the protection
     options and whatever blinding factor the two random bytes give. `checked` is the error
     the source panics with; it is never NttFault.
     */
    method SecureMultiply(a: seq<int>, b: seq<int>, rnd: seq<bv8>)
      returns (res: array<int>, checked: Result<(), Error>)
      requires Valid()
      requires !prot.validateInputs ==> |a| == |b| == N
      requires prot.enabled && prot.blinding ==> Prime(Q) && |rnd| == 2
      modifies this`wlenCache, this`invWlenCache
      ensures Valid() && fresh(res)
      ensures checked == ValidateFactors(a, b, N, Q, prot.validateInputs)
      ensures checked.Ok? ==> |a| == |b| == N && res[..] == RingMul(a, b, Q)
    {
      checked := CheckFactors(a, b);
      if checked.Err? {
        res := new int[0];
        return;
      }
      var aNorm := NormalizePoly(a, Q);
      var bNorm := NormalizePoly(b, Q);
      SmallMod(1, Q);
      UnblindedIsRingMul(a, b, k, Root, InvN, Q);
      if !prot.enabled {
        res := PlainProduct(aNorm[..], bNorm[..]);
        return;
      }
      var aEff, bEff := aNorm, bNorm;
      if prot.blinding {
        aEff, bEff := Blind(aNorm[..], bNorm[..], rnd);
        NormalizedFactors(a, b, Q);
      }
      res := HardenedProduct(aEff[..], bEff[..]);
      if prot.doubleCheck {
        checked := DoubleCheck(aEff[..], bEff[..], res);
      }
    }
  
    // ---------------------------------------------------------- key encapsulation

    ghost function R(): Ring {
      Ring(k, Q, Root)
    }

    /** Enough randomness for one blinded product, and the prime modulus blinding needs. */
    predicate CanBlind(rnd: Bytes)
      reads this`prot
    {
      prot.enabled && prot.blinding ==> |rnd| == 2
    }

    ghost predicate Ready()
      reads this
    {
      Valid() && N <= 256 && (prot.enabled && prot.blinding ==> Prime(Q))
    }

    /** The loop `p[i] = ((p[i]+e[i])%Q + Q) % Q`. */
    method AddErrors(p: array<int>, e: seq<int>)
      requires Params() && p.Length == |e|
      modifies p
      ensures p[..] == AddReduced(old(p[..]), e, Q)
    {
      ghost var before := p[..];
      var i := 0;
      while i < p.Length
        invariant 0 <= i <= p.Length
        invariant forall t :: i <= t < p.Length ==> p[t] == before[t]
        invariant forall t :: 0 <= t < i ==> p[t] == (before[t] + e[t]) % Q
      {
        NormalizeIsMod(p[i] + e[i], Q);
        p[i] := Rem(Rem(p[i] + e[i], Q) + Q, Q);
        i := i + 1;
      }
    }

    /** a*b + e, the step both key generation and encapsulation start with. */
    method NoisyProduct(a: seq<int>, b: seq<int>, e: seq<int>, rndBlind: seq<bv8>) returns (p: array<int>)
      requires Ready() && CanBlind(rndBlind) && |a| == |b| == |e| == N
      requires ValidateFactors(a, b, N, Q, prot.validateInputs).Ok?
      modifies this`wlenCache, this`invWlenCache
      ensures Ready() && fresh(p) && p[..] == AddReduced(RingMul(a, b, Q), e, Q)
    {
      var checked;
      p, checked := SecureMultiply(a, b, rndBlind);
      AddErrors(p, e);
    }

    method GenerateKeyPair(rndA: seq<bv8>, rndS: seq<bv8>, rndE: seq<seq<bv8>>, rndBlind: seq<bv8>)
      returns (pub: seq<bv8>, priv: seq<bv8>)
      requires Ready() && CanBlind(rndBlind)
      requires |rndA| == 2 * N && |rndS| == (2 * N + 7) / 8
      requires |rndE| == N && forall i :: 0 <= i < N ==> |rndE[i]| == 12
      modifies this`wlenCache, this`invWlenCache
      ensures Ready()
      ensures pub == PublicKey(R(), UniformOf(rndA, N, Q), TernaryOf(rndS, N), ErrorsOf(rndE, Q))
      ensures priv == Serialize(TernaryOf(rndS, N), Q)
    {
      var a := UniformPoly(rndA, N, Q);
      var s := SmallPoly(rndS, N);
      var e := ErrorPoly(rndE, Q);
      FactorsValid(a[..], s[..], N, Q, prot.validateInputs);
      var bp := NoisyProduct(a[..], s[..], e[..], rndBlind);
      var aBytes := SerializePoly(a[..], Q);
      var bBytes := SerializePoly(bp[..], Q);
      var sBytes := SerializePoly(s[..], Q);
      pub := aBytes[..] + bBytes[..];
      priv := sBytes[..];
    }

    /** The polynomial part of Encapsulate: the bytes of u, the bits of w and their hints. */
    method Seal(a: seq<int>, b: seq<int>, sp: seq<int>, ep: seq<int>, rndBlind1: seq<bv8>, rndBlind2: seq<bv8>)
      returns (uBytes: seq<bv8>, bits: seq<bv8>, hint: seq<bv8>)
      requires Ready() && CanBlind(rndBlind1) && CanBlind(rndBlind2)
      requires |a| == |b| == |sp| == |ep| == N
      requires ValidateFactors(a, sp, N, Q, prot.validateInputs).Ok?
      requires ValidateFactors(b, sp, N, Q, prot.validateInputs).Ok?
      modifies this`wlenCache, this`invWlenCache
      ensures Ready()
      ensures uBytes == Serialize(AddReduced(RingMul(a, sp, Q), ep, Q), Q)
      ensures bits == HighBits(RingMul(b, sp, Q), Q)
      ensures hint == HintBits(RingMul(b, sp, Q), Q)
    {
      var u := NoisyProduct(a, sp, ep, rndBlind1);
      var uArr := SerializePoly(u[..], Q);
      var w, checked := SecureMultiply(b, sp, rndBlind2);
      var bitArr, hintArr := RoundToBitsWithHint(w[..], Q);
      uBytes, bits, hint := uArr[..], bitArr[..], hintArr[..];
    }

    /** The sender's own polynomials: the two halves of the public key and the two draws. */
    method SenderPolys(pubKey: seq<bv8>, rndS: seq<bv8>, rndE: seq<seq<bv8>>)
      returns (a: seq<int>, b: seq<int>, sp: seq<int>, ep: seq<int>)
      requires Ready() && |pubKey| == 4 * N && |rndS| == (2 * N + 7) / 8
      requires |rndE| == N && forall i :: 0 <= i < N ==> |rndE[i]| == 12
      ensures a == Deserialize(pubKey[..2 * N], N, Q, prot.validateInputs)
      ensures b == Deserialize(pubKey[2 * N..], N, Q, prot.validateInputs)
      ensures sp == TernaryOf(rndS, N) && ep == ErrorsOf(rndE, Q)
    {
      var aArr := DeserializePoly(pubKey[..N * 2], N, Q, prot.validateInputs);
      var bArr := DeserializePoly(pubKey[N * 2..], N, Q, prot.validateInputs);
      var spArr := SmallPoly(rndS, N);
      var epArr := ErrorPoly(rndE, Q);
      a, b, sp, ep := aArr[..], bArr[..], spArr[..], epArr[..];
    }

    /** Encapsulate: the ciphertext and shared secret, or the length error; never a panic. */
    method Encapsulate(pubKey: seq<bv8>, rndS: seq<bv8>, rndE: seq<seq<bv8>>, rndBlind1: seq<bv8>,
                       rndBlind2: seq<bv8>, sha256: Bytes -> Digest) returns (r: Result<Capsule, Error>)
      requires Ready() && CanBlind(rndBlind1) && CanBlind(rndBlind2)
      requires |rndS| == (2 * N + 7) / 8
      requires |rndE| == N && forall i :: 0 <= i < N ==> |rndE[i]| == 12
      modifies this`wlenCache, this`invWlenCache
      ensures Ready()
      ensures r == Encaps(R(), pubKey, TernaryOf(rndS, N), ErrorsOf(rndE, Q), prot.validateInputs, sha256)
    {
      if |pubKey| != N * 4 {
        return Err(InvalidPublicKey);
      }
      var a, b, sp, ep := SenderPolys(pubKey, rndS, rndE);
      DeserializedFactor(pubKey[..2 * N], sp, N, Q, prot.validateInputs);
      DeserializedFactor(pubKey[2 * N..], sp, N, Q, prot.validateInputs);
      var uBytes, bits, hint := Seal(a, b, sp, ep, rndBlind1, rndBlind2);
      var ct := uBytes + hint;
      r := Ok(Capsule(ct, sha256(bits + pubKey + ct)));
    }

    /** Decapsulate: the shared secret, or the first length error; never a panic. */
    method Decapsulate(privKey: seq<bv8>, peerPubKey: seq<bv8>, ciphertext: seq<bv8>, rndBlind: seq<bv8>,
                       sha256: Bytes -> Digest) returns (r: Result<Digest, Error>)
      requires Ready() && CanBlind(rndBlind)
      modifies this`wlenCache, this`invWlenCache
      ensures Ready()
      ensures r == Decaps(R(), privKey, peerPubKey, ciphertext, prot.validateInputs, sha256)
    {
      if |privKey| != N * 2 {
        return Err(InvalidPrivateKey);
      }
      if |ciphertext| != N * 2 && |ciphertext| != N * 2 + 32 {
        return Err(InvalidCiphertext);
      }
      if |peerPubKey| != N * 4 {
        return Err(InvalidPublicKey);
      }
      var s := DeserializePoly(privKey, N, Q, prot.validateInputs);
      var u := DeserializePoly(ciphertext[..N * 2], N, Q, prot.validateInputs);
      DeserializedFactors(ciphertext[..N * 2], privKey, N, Q, prot.validateInputs);
      var w, checked := SecureMultiply(u[..], s[..], rndBlind);
      var raw;
      if |ciphertext| == N * 2 + 32 {
        raw := RecToBits(w[..], ciphertext[N * 2..], Q);
      } else {
        raw := RoundToBits(w[..], Q);
      }
      r := Ok(sha256(raw[..] + peerPubKey + ciphertext));
    }
  }

  /** NewRingLWE. */
  method NewRingLwe() returns (b: BaseRingLwe)
    ensures fresh(b) && b.Ready() && b.N == 256 && b.Q == 7681 && b.Root == 5685 && b.k == 8
    ensures b.prot == DEFAULT_PROTECTION
  {
    RingLweParams();
    Prime7681();
    b := new BaseRingLwe(256, 7681, 5685, 8);
  }

  /** NewRRLWE. */
  method NewRrlwe() returns (b: BaseRingLwe)
    ensures fresh(b) && b.Ready() && b.N == 256 && b.Q == 12289 && b.Root == 8340 && b.k == 8
    ensures b.prot == DEFAULT_PROTECTION
  {
    RrlweParams();
    Prime12289();
    b := new BaseRingLwe(256, 12289, 8340, 8);
  }

  // ------------------------------------------------------------ no panics

  /** Factors in [-q, q) of the right length pass validation. */
  lemma FactorsValid(a: Poly, b: Poly, n: nat, q: int, validate: bool)
    requires |a| == |b| == n && q > 1
    requires (validate ==> Reduced(a, q)) && Ternary(b)
    ensures ValidateFactors(a, b, n, q, validate).Ok?
  {
  }

  lemma DeserializedFactor(data: Bytes, s: Poly, n: nat, q: int, validate: bool)
    requires q > 1 && |data| >= 2 * n && |s| == n && Ternary(s)
    ensures ValidateFactors(Deserialize(data, n, q, validate), s, n, q, validate).Ok?
  {
    if validate {
      DeserializedReduced(data, n, q);
    }
    FactorsValid(Deserialize(data, n, q, validate), s, n, q, validate);
  }

  lemma DeserializedFactors(data: Bytes, data': Bytes, n: nat, q: int, validate: bool)
    requires q > 1 && |data| >= 2 * n && |data'| >= 2 * n
    ensures ValidateFactors(Deserialize(data, n, q, validate), Deserialize(data', n, q, validate), n, q, validate).Ok?
  {
    if validate {
      DeserializedReduced(data, n, q);
      DeserializedReduced(data', n, q);
    }
  }

  // ------------------------------------------------------------ the pass loops

  /** The array holds stage s of the bit-reversed input under the root w. */
  ghost predicate AtStage(res: Poly, poly: Poly, k: nat, s: nat, w: int, q: int)
    requires q > 0
  {
    && |poly| == Pow2(k) && |poly| % Pow2(s) == 0
    && res == Blocks(Permuted(poly, k), s, w, q)
  }

  /** u is the inverse of the twiddle of stage s (of no twiddle before the first pass). */
  ghost predicate InverseOfTwiddle(u: int, k: nat, s: nat, root: int, q: int)
    requires q > 0 && s <= k
  {
    s > 0 ==> 0 <= u < q && (Twiddle(root, k, s, q) * u) % q == 1
  }

  lemma StageInRange(k: nat, s: nat, n: nat, length: nat)
    requires n == Pow2(k) && length == 2 * Pow2(s) <= n
    ensures s < k
    ensures n % length == 0
    ensures length == Pow2(s + 1) && length / 2 == Pow2(s)
  {
    if s >= k {
      Pow2Monotone(k, s);
      assert false;
    }
    Pow2Divides(s + 1, k);
  }

  lemma PermutedReduced(a: Poly, k: nat, q: int)
    requires |a| == Pow2(k) && Reduced(a, q)
    ensures Reduced(Permuted(a, k), q)
  {
  }

  lemma StartStages(res: Poly, poly: Poly, k: nat, root: int, q: int)
    requires q > 0 && |poly| == Pow2(k) && Reduced(poly, q) && res == Permuted(poly, k)
    ensures Reduced(res, q) && AtStage(res, poly, k, 0, Twiddle(root, k, 0, q), q)
  {
    PermutedReduced(poly, k, q);
    BlocksStart(res, Twiddle(root, k, 0, q), q);
  }

  lemma NextStage(res: Poly, poly: Poly, k: nat, s: nat, root: int, q: int)
    requires q > 0 && s < k && AtStage(res, poly, k, s, Twiddle(root, k, s, q), q)
    ensures |res| % (2 * Pow2(s)) == 0
    ensures AtStage(Pass(res, Pow2(s), Twiddle(root, k, s + 1, q), q), poly, k, s + 1, Twiddle(root, k, s + 1, q), q)
  {
    Pow2Divides(s + 1, k);
    TwiddleSquare(root, k, s, q);
    PassAdvances(Permuted(poly, k), s, Twiddle(root, k, s + 1, q), q);
  }

  lemma LastStage(k: nat, s: nat)
    requires s <= k && 2 * Pow2(s) > Pow2(k)
    ensures s == k
  {
    if s < k {
      Pow2Monotone(s, k);
    }
  }

  lemma EndStages(res: Poly, poly: Poly, k: nat, s: nat, root: int, q: int)
    requires q > 0 && |poly| == Pow2(k) && Reduced(poly, q) && NegRoot(root, k, q)
    requires s <= k && 2 * Pow2(s) > Pow2(k)
    requires AtStage(res, poly, k, s, Twiddle(root, k, s, q), q)
    ensures res == Dft(poly, root, q)
  {
    LastStage(k, s);
    var w := Twiddle(root, k, k, q);
    assert Pow(root, 1) == root;
    BlocksEnd(Permuted(poly, k), k, w, q);
    ResidueIsNegRoot(root, w, k, q);
    FftIsDft(poly, k, w, q);
    DftOfResidue(poly, w, root, q);
  }

  lemma ResidueIsNegRoot(root: int, w: int, k: nat, q: int)
    requires q > 0 && w == root % q && NegRoot(root, k, q)
    ensures NegRoot(w, k, q) && w % q == root % q
  {
    ModMod(root, q);
    if k > 0 {
      PowCong(w, root, Pow2(k - 1), q);
    }
  }

  lemma StartInverseStages(res: Poly, poly: Poly, k: nat, q: int)
    requires q > 0 && |poly| == Pow2(k) && Reduced(poly, q) && res == Permuted(poly, k)
    ensures Reduced(res, q) && AtStage(res, poly, k, 0, 0, q)
  {
    PermutedReduced(poly, k, q);
    BlocksStart(res, 0, q);
  }

  lemma NextInverseStage(res: Poly, poly: Poly, k: nat, s: nat, root: int, u: int, v: int, q: int)
    requires q > 1 && s < k && InverseOfTwiddle(u, k, s, root, q) && InverseOfTwiddle(v, k, s + 1, root, q)
    requires AtStage(res, poly, k, s, u, q)
    ensures |res| % (2 * Pow2(s)) == 0
    ensures AtStage(Pass(res, Pow2(s), v, q), poly, k, s + 1, v, q)
  {
    var x := Permuted(poly, k);
    Pow2Divides(s + 1, k);
    if s == 0 {
      BlocksStart(x, u, q);
      BlocksStart(x, (v * v) % q, q);
    } else {
      TwiddleSquare(root, k, s, q);
      InverseTwiddleSquare(Twiddle(root, k, s + 1, q), v, Twiddle(root, k, s, q), u, q);
    }
    PassAdvances(x, s, v, q);
  }

  lemma EndInverseStages(res: Poly, poly: Poly, k: nat, s: nat, root: int, u: int, q: int)
    requires q > 1 && |poly| == Pow2(k) && Reduced(poly, q) && NegRoot(root, k, q)
    requires s <= k && 2 * Pow2(s) > Pow2(k)
    requires InverseOfTwiddle(u, k, s, root, q) && AtStage(res, poly, k, s, u, q)
    ensures res == Dft(poly, RootInverse(root, k, q), q)
  {
    LastStage(k, s);
    BlocksEnd(Permuted(poly, k), k, u, q);
    if k == 0 {
      FftIsDft(poly, k, u, q);
      assert Pow(u, 0) == Pow(RootInverse(root, k, q), 0);
    } else {
      var w, v := Twiddle(root, k, k, q), RootInverse(root, k, q);
      assert Pow(root, 1) == root;
      ResidueIsNegRoot(root, w, k, q);
      SmallMod(1, q);
      InverseIsNegRoot(w, u, k, q);
      FftIsDft(poly, k, u, q);
      RootInverseCorrect(root, k, q);
      MulMods(root, v, q);
      InverseUnique(w, u, v, q);
      DftOfResidue(poly, u, v, q);
    }
  }

  lemma ScaledIsInverse(res: Poly, poly: Poly, k: nat, root: int, nInv: int, q: int)
    requires q > 0 && res == Reduce(Scale(nInv, Dft(poly, RootInverse(root, k, q), q)), q)
    ensures res == InverseDft(poly, k, root, nInv, q)
  {
    var v, inverse := RootInverse(root, k, q), InverseDft(poly, k, root, nInv, q);
    forall m | 0 <= m < |poly|
      ensures res[m] == inverse[m]
    {
      ScaleCommutes(nInv, Eval(poly, Pow(v, m)) % q, q);
    }
  }

  lemma ScaleCommutes(c: int, x: int, q: int)
    requires q > 0
    ensures (c * x) % q == (x * c) % q
  {
  }

  /** The final loop of the inverse transforms. */
  method ScaleBy(res: array<int>, c: int, q: int)
    requires 0 <= c < q <= MAX_MODULUS && Reduced(res[..], q)
    modifies res
    ensures res[..] == Reduce(Scale(c, old(res[..])), q)
  {
    ghost var before := res[..];
    var i := 0;
    while i < res.Length
      invariant 0 <= i <= res.Length
      invariant forall p :: i <= p < res.Length ==> res[p] == before[p]
      invariant forall p :: 0 <= p < i ==> res[p] == (c * before[p]) % q
    {
      ProductBound(res[i], c, q);
      res[i] := (res[i] * c) % q;
      i := i + 1;
    }
  }

  // ------------------------------------------------------------ products

  function Pointwise(x: Poly, y: Poly, q: int): (r: Poly)
    requires q > 0 && |x| == |y|
    ensures |r| == |x| && Reduced(r, q)
  {
    seq(|x|, i requires 0 <= i < |x| => (x[i] * y[i]) % q)
  }

  method PointwiseProduct(x: seq<int>, y: seq<int>, q: int) returns (prod: array<int>)
    requires 0 < q <= MAX_MODULUS && |x| == |y| && Reduced(x, q) && Reduced(y, q)
    ensures fresh(prod) && prod[..] == Pointwise(x, y, q)
  {
    prod := new int[|x|];
    var i := 0;
    while i < |x|
      invariant 0 <= i <= |x|
      invariant forall p :: 0 <= p < i ==> prod[p] == Pointwise(x, y, q)[p]
    {
      ProductBound(x[i], y[i], q);
      prod[i] := (x[i] * y[i]) % q;
      i := i + 1;
    }
  }

  /** The blinding loop, for one of its two factors. */
  method ScaledCopy(x: seq<int>, c: int, q: int) returns (out: array<int>)
    requires 0 <= c < q <= MAX_MODULUS && Reduced(x, q)
    ensures fresh(out) && out[..] == Reduce(Scale(c, x), q)
  {
    out := new int[|x|];
    var i := 0;
    while i < |x|
      invariant 0 <= i <= |x|
      invariant forall p :: 0 <= p < i ==> out[p] == (c * x[p]) % q
    {
      ProductBound(x[i], c, q);
      out[i] := (x[i] * c) % q;
      i := i + 1;
    }
  }

  /** Pointwise products of scaled factors transform back to the cyclic convolution. */
  lemma ScaledFactors(a: Poly, b: Poly, ae: Poly, be: Poly, c: int, d: int, k: nat, root: int, nInv: int, q: int)
    requires q > 0 && |a| == |b| == Pow2(k) && NegRoot(root, k, q) && (Pow2(k) * nInv) % q == 1 % q
    requires (c * d) % q == 1 % q && Congruent(ae, Scale(c, a), q) && Congruent(be, Scale(d, b), q)
    ensures InverseDft(Pointwise(Dft(ae, root, q), Dft(be, root, q), q), k, root, nInv, q) == RingMul(a, b, q)
  {
    var t := Pointwise(Dft(ae, root, q), Dft(be, root, q), q);
    forall j | 0 <= j < |a|
      ensures t[j] == Dft(Conv(a, b), root, q)[j]
    {
      BlindedDft(a, b, ae, be, c, d, k, root, q, j);
    }
    assert t == Dft(Conv(a, b), root, q);
    RoundTrip(Conv(a, b), k, root, nInv, q);
  }

  lemma UnblindedIsRingMul(a: Poly, b: Poly, k: nat, root: int, nInv: int, q: int)
    requires q > 0 && |a| == |b| == Pow2(k) && NegRoot(root, k, q) && (Pow2(k) * nInv) % q == 1 % q
    ensures InverseDft(Pointwise(Dft(Reduce(a, q), root, q), Dft(Reduce(b, q), root, q), q), k, root, nInv, q)
         == RingMul(a, b, q)
  {
    ReduceCongruent(a, q);
    ReduceCongruent(b, q);
    assert Scale(1, a) == a && Scale(1, b) == b;
    ScaledFactors(a, b, Reduce(a, q), Reduce(b, q), 1, 1, k, root, nInv, q);
  }

  lemma NormalizedFactors(a: Poly, b: Poly, q: int)
    requires q > 0 && |a| == |b|
    ensures RingMul(Reduce(a, q), Reduce(b, q), q) == RingMul(a, b, q)
  {
    ReduceCongruent(a, q);
    ReduceCongruent(b, q);
    RingMulCong(Reduce(a, q), a, Reduce(b, q), b, q);
  }

  /** The blinding factor and its inverse cancel. */
  lemma BlindedIsRingMul(a: Poly, b: Poly, bf: int, inv: int, k: nat, root: int, nInv: int, q: int)
    requires q > 0 && |a| == |b| == Pow2(k) && NegRoot(root, k, q) && (Pow2(k) * nInv) % q == 1 % q
    requires (bf * inv) % q == 1 % q
    ensures var ae, be := Reduce(Scale(bf, a), q), Reduce(Scale(inv, b), q);
            InverseDft(Pointwise(Dft(ae, root, q), Dft(be, root, q), q), k, root, nInv, q) == RingMul(a, b, q)
  {
    ReduceCongruent(Scale(bf, a), q);
    ReduceCongruent(Scale(inv, b), q);
    ScaledFactors(a, b, Reduce(Scale(bf, a), q), Reduce(Scale(inv, b), q), bf, inv, k, root, nInv, q);
  }

  /** Validation reports the first factor's error before the second's, and a length before a coefficient. */
  lemma FirstErrorReported(a: Poly, b: Poly, n: nat, q: int)
    ensures var r := ValidateFactors(a, b, n, q, true);
            var inRange := (p: Poly) => forall i :: 0 <= i < |p| ==> -q <= p[i] < q;
            && (r.Ok? <==> |a| == |b| == n && inRange(a) && inRange(b))
            && (r == Err(InvalidPoly) <==> |a| != n || (inRange(a) && |b| != n))
            && (r.Err? && r != Err(InvalidPoly) ==> r == Err(CoeffOutOfRange))
  {
  }
}
