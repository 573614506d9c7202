/**
 The handshake end to end: key generation, encapsulation, decapsulation and key derivation
 bring two new endpoints into the state from which they stay in lockstep.
 */
module Handshake {
  import opened Wrappers
  import opened ByteStrings
  import opened Session
  import opened RingCodec
  import opened QuarkDash
  import opened Ntt
  import Lockstep
  import Kem

  /** Random bytes of the lengths a key pair and an encapsulation draw. */
  predicate CoinsFor(ring: Kem.Ring, key: KeyCoins, capsule: CapsuleCoins) {
    && |key.a| == 2 * ring.N() && SmallCoins(key.s, ring.N()) && ErrorCoins(key.e, ring.N())
    && SmallCoins(capsule.s, ring.N()) && ErrorCoins(capsule.e, ring.N())
  }

  /** What is left between the two parties' polynomials. */
  function NoiseOf(ring: Kem.Ring, key: KeyCoins, capsule: CapsuleCoins): (r: seq<int>)
    requires ring.q > 0 && CoinsFor(ring, key, capsule)
    ensures |r| == ring.N()
  {
    Kem.Noise(TernaryOf(key.s, ring.N()), ErrorsOf(key.e, ring.q), TernaryOf(capsule.s, ring.N()),
              ErrorsOf(capsule.e, ring.q))
  }

  /**
   Two endpoints run the handshake: the initiator encapsulates against the responder's public
   key, the responder decapsulates. Both calls succeed and leave the endpoints with the same
   keys, ready for lockstep. The pairs that InitializeSession may draw, and what the KEM would
   answer the responder, are immaterial.
   */
  ghost predicate HandshakeSucceeds(suite: Suite, ring: Kem.Ring, key: KeyCoins, capsule: CapsuleCoins,
                                    hs: Circumstances)
    requires ring.Valid() && CoinsFor(ring, key, capsule)
  {
    var pairB := DrawnPair(ring, key);
    var b := Initialize(suite, New.(my := Some(pairB)), hs.peerOfB, false, hs.drawnB, hs.ignored).state;
    var sealed := Kem.Encaps(ring, pairB.pub, TernaryOf(capsule.s, ring.N()), ErrorsOf(capsule.e, ring.q),
                             hs.validateA, hs.sha256);
    var started := Initialize(suite, New.(my := hs.pairA), Some(pairB.pub), true, hs.drawnA, sealed);
    && started.result.Ok? && started.result.value.Some?
    && b.my == Some(pairB)
    && var secret := Kem.Decaps(ring, b.my.value.priv, b.my.value.pub, started.result.value.value, hs.validateB,
                                hs.sha256);
    var finished := Finalize(suite, b, secret);
    && finished.result == Ok(())
    && Lockstep.Started(Lockstep.System(started.state, finished.state, [], [], [], [], [], [], []))
  }

  /** Everything else about a handshake. */
  datatype Circumstances = Circumstances(
    pairA: Option<KeyPair>, drawnA: KeyPair, drawnB: KeyPair, peerOfB: Option<Bytes>,
    ignored: Result<Kem.Capsule, Kem.Error>, validateA: bool, validateB: bool, sha256: Bytes -> Kem.Digest)

  /** Handshakes succeed, whatever protection options either side uses, within the noise tolerance. */
  lemma HandshakeWithinNoise(suite: Suite, ring: Kem.Ring, key: KeyCoins, capsule: CapsuleCoins, hs: Circumstances)
    requires ring.Valid() && CoinsFor(ring, key, capsule) && hs.peerOfB.Some?
    requires forall m :: 0 <= m < ring.N() ==> 8 * Kem.CircNorm(NoiseOf(ring, key, capsule)[m], ring.q) < ring.q
    ensures HandshakeSucceeds(suite, ring, key, capsule, hs)
  {
    hide Kem.EncapsWith, Kem.Decaps, Kem.PublicKey, Kem.Serialize, Kem.Noise, Kem.CircNorm;
    hide UniformOf, TernaryOf, ErrorsOf;
    var n, q := ring.N(), ring.q;
    var s, e, sp, ep := TernaryOf(key.s, n), ErrorsOf(key.e, q), TernaryOf(capsule.s, n), ErrorsOf(capsule.e, q);
    assert NoiseOf(ring, key, capsule) == Kem.Noise(s, e, sp, ep);
    Kem.Agreement(ring, UniformOf(key.a, n, q), s, e, sp, ep, hs.validateA, hs.validateB, hs.sha256);
  }

  /** And so they do within a budget on the errors drawn: the secrets are ternary by construction. */
  lemma HandshakeWithinBudget(suite: Suite, ring: Kem.Ring, key: KeyCoins, capsule: CapsuleCoins, hs: Circumstances)
    requires ring.Valid() && CoinsFor(ring, key, capsule) && hs.peerOfB.Some?
    requires 8 * (Kem.L1(ErrorsOf(key.e, ring.q)) + Kem.L1(ErrorsOf(capsule.e, ring.q))) < ring.q
    ensures HandshakeSucceeds(suite, ring, key, capsule, hs)
  {
    hide HandshakeSucceeds, Kem.CircNorm, Kem.L1, ErrorsOf;
    forall m | 0 <= m < ring.N()
      ensures 8 * Kem.CircNorm(NoiseOf(ring, key, capsule)[m], ring.q) < ring.q
    {
      NoiseWithinBudget(ring, key, capsule, m);
    }
    HandshakeWithinNoise(suite, ring, key, capsule, hs);
  }

  lemma NoiseWithinBudget(ring: Kem.Ring, key: KeyCoins, capsule: CapsuleCoins, m: nat)
    requires ring.Valid() && CoinsFor(ring, key, capsule) && m < ring.N()
    requires 8 * (Kem.L1(ErrorsOf(key.e, ring.q)) + Kem.L1(ErrorsOf(capsule.e, ring.q))) < ring.q
    ensures 8 * Kem.CircNorm(NoiseOf(ring, key, capsule)[m], ring.q) < ring.q
  {
    hide TernaryOf, ErrorsOf, Kem.CircNorm, Kem.L1;
    var e, ep := ErrorsOf(key.e, ring.q), ErrorsOf(capsule.e, ring.q);
    Kem.ConvBound(e, TernaryOf(capsule.s, ring.N()), m);
    Kem.ConvBound(ep, TernaryOf(key.s, ring.N()), m);
    Kem.NormBound(NoiseOf(ring, key, capsule)[m], ring.q);
  }

  // ------------------------------------------------------------ random bytes for which it fails

  /** Bytes a key pair and an encapsulation may draw, in the two shipped rings. */
  const WORST_KEY := KeyCoins(seq(512, _ => 0), seq(64, _ => 0x55), seq(256, _ => seq(12, _ => 0)), [0, 0])

  const WORST_CAPSULE := CapsuleCoins(seq(64, _ => 0), seq(256, _ => seq(12, _ => 128)), [0, 0], [0, 0])

  predicate Shipped(ring: Kem.Ring) {
    ring == Kem.Ring(8, 7681, 5685) || ring == Kem.Ring(8, 12289, 8340)
  }

  lemma ShippedValid(ring: Kem.Ring)
    requires Shipped(ring)
    ensures ring.Valid() && ring.N() == 256
  {
    RingLweParams();
    RrlweParams();
  }

  /** They give the polynomials 0, 0 and -20 of the key, and -1 and 0 of the capsule. */
  lemma WorstPolynomials(q: int)
    requires q > 20
    ensures UniformOf(WORST_KEY.a, 256, q) == Kem.Constant(256, 0)
    ensures TernaryOf(WORST_KEY.s, 256) == Kem.Constant(256, 0)
    ensures ErrorsOf(WORST_KEY.e, q) == Kem.Constant(256, -20)
    ensures TernaryOf(WORST_CAPSULE.s, 256) == Kem.Constant(256, -1)
    ensures ErrorsOf(WORST_CAPSULE.e, q) == Kem.Constant(256, 0)
  {
    hide TernaryOf, ErrorsOf;
    WorstErrors(q);
    WorstSecrets();
  }

  lemma WorstErrors(q: int)
    requires q > 20
    ensures ErrorsOf(WORST_KEY.e, q) == Kem.Constant(256, -20)
    ensures ErrorsOf(WORST_CAPSULE.e, q) == Kem.Constant(256, 0)
  {
    hide ByteSum;
    ByteSumConstant(12, 0);
    ByteSumConstant(12, 128);
    assert ErrorOf(0, q) == -20 && ErrorOf(1536, q) == 0;
  }

  lemma WorstSecrets()
    ensures TernaryOf(WORST_KEY.s, 256) == Kem.Constant(256, 0)
    ensures TernaryOf(WORST_CAPSULE.s, 256) == Kem.Constant(256, -1)
  {
    hide BitAt;
    forall i | 0 <= i < 256
      ensures TernaryOf(WORST_KEY.s, 256)[i] == 0 && TernaryOf(WORST_CAPSULE.s, 256)[i] == -1
    {
      SetAndClear();
      EvenAndOddBits(WORST_KEY.s, i);
      EvenAndOddBits(WORST_CAPSULE.s, i);
    }
  }

  lemma SetAndClear()
    ensures WORST_CAPSULE.s != WORST_KEY.s
  {
    assert WORST_CAPSULE.s[0] != WORST_KEY.s[0];
  }

  /** In a string of equal bytes 0x55 or 0, bits 2i are set or not and bits 2i + 1 are not. */
  lemma EvenAndOddBits(s: Bytes, i: nat)
    requires |s| == 64 && i < 256
    requires s == seq(64, _ => 0x55) || s == seq(64, _ => 0)
    ensures BitAt(s, 2 * i) <==> s == seq(64, _ => 0x55)
    ensures !BitAt(s, 2 * i + 1)
  {
    var t := i % 4;
    assert 2 * i / 8 == i / 4 && 2 * i % 8 == 2 * t && (2 * i + 1) / 8 == i / 4 && (2 * i + 1) % 8 == 2 * t + 1;
    assert s != seq(64, _ => 0x55) ==> s[0] == 0;
  }

  /**
   Agreement is not unconditional: for these bytes, which every call may draw, Decapsulate
   returns another secret than Encapsulate, in both shipped rings, under any protection
   options and any hash that tells the two raw strings apart.
   */
  lemma WorstCaseFails(ring: Kem.Ring, validateA: bool, validateB: bool, sha256: Bytes -> Kem.Digest)
    requires Shipped(ring)
    ensures ring.Valid() && CoinsFor(ring, WORST_KEY, WORST_CAPSULE)
    ensures var zero, e, sp := Kem.Constant(256, 0), Kem.Constant(256, -20), Kem.Constant(256, -1);
            var pair := DrawnPair(ring, WORST_KEY);
            var sealed := Kem.Encaps(ring, pair.pub, TernaryOf(WORST_CAPSULE.s, ring.N()),
                                     ErrorsOf(WORST_CAPSULE.e, ring.q), validateA, sha256);
            && ring.N() == 256 && sealed.Ok?
            && (Kem.NoCollision(sha256, Kem.SenderRaw(ring, zero, zero, e, sp),
                                Kem.ReceiverRaw(ring, zero, zero, e, sp, zero), pair.pub, sealed.value.ct)
                ==> Kem.Decaps(ring, pair.priv, pair.pub, sealed.value.ct, validateB, sha256) != Ok(sealed.value.ss))
  {
    hide Kem.EncapsWith, Kem.Decaps, Kem.PublicKey, Kem.Serialize, Kem.SenderRaw, Kem.ReceiverRaw, Kem.NoCollision;
    hide UniformOf, TernaryOf, ErrorsOf, Kem.Constant;
    ShippedValid(ring);
    WorstPolynomials(ring.q);
    WorstSecretsDiffer(ring, validateA, validateB, sha256);
  }

  lemma WorstSecretsDiffer(ring: Kem.Ring, validateA: bool, validateB: bool, sha256: Bytes -> Kem.Digest)
    requires Shipped(ring)
    ensures ring.Valid() && ring.N() == 256
    ensures var zero, e, sp := Kem.Constant(256, 0), Kem.Constant(256, -20), Kem.Constant(256, -1);
            var pk := Kem.PublicKey(ring, zero, zero, e);
            var capsule := Kem.EncapsWith(ring, pk, sp, zero, validateA, sha256);
            Kem.NoCollision(sha256, Kem.SenderRaw(ring, zero, zero, e, sp),
                            Kem.ReceiverRaw(ring, zero, zero, e, sp, zero), pk, capsule.ct)
            ==> Kem.Decaps(ring, Kem.Serialize(zero, ring.q), pk, capsule.ct, validateB, sha256) != Ok(capsule.ss)
  {
    hide Kem.EncapsWith, Kem.Decaps, Kem.PublicKey, Kem.Serialize, Kem.NoCollision;
    ShippedValid(ring);
    var zero, e, sp := Kem.Constant(256, 0), Kem.Constant(256, -20), Kem.Constant(256, -1);
    var pk := Kem.PublicKey(ring, zero, zero, e);
    Kem.WorstCaseDisagrees(ring.q);
    Kem.RawSecretsExact(ring, zero, zero, e, sp, zero);
    if Kem.NoCollision(sha256, Kem.SenderRaw(ring, zero, zero, e, sp), Kem.ReceiverRaw(ring, zero, zero, e, sp, zero),
                       pk, Kem.EncapsWith(ring, pk, sp, zero, validateA, sha256).ct) {
      Kem.AgreementExactly(ring, zero, zero, e, sp, zero, validateA, validateB, sha256);
    }
  }
}
