/**
 The QuarkDash object of quarkdash.go. Its fields are the source's; State() is the endpoint
 they represent, and every method is proved to move State() as the functions of module Session
 say. Clock readings and random bytes are arguments.
 */
module QuarkDash {
  import opened Wrappers
  import opened ByteStrings
  import opened Words
  import opened KeyRotation
  import opened Cipher
  import opened ReplayWindow
  import opened Session
  import opened RingCodec
  import Kem
  import RingLwe

  datatype RekeyPolicy = RekeyPolicy(afterBytes: int, afterMessages: int, intervalMs: int)

  /** A cipher object kept for the mode with a static nonce. */
  datatype StreamCipher = StreamCipher(key: Key, nonce: Nonce)

  /** The randomness of one key pair, and of one encapsulation. */
  datatype KeyCoins = KeyCoins(a: Bytes, s: Bytes, e: seq<Bytes>, blind: Bytes)

  datatype CapsuleCoins = CapsuleCoins(s: Bytes, e: seq<Bytes>, blind1: Bytes, blind2: Bytes)

  /** A slice as its reader sees it: nil has no bytes. */
  function BytesOf(slice: Option<Bytes>): Bytes {
    if slice.Some? then slice.value else []
  }

  predicate ErrorCoins(e: seq<Bytes>, n: int) {
    |e| == n && forall i :: 0 <= i < |e| ==> |e[i]| == 12
  }

  predicate SmallCoins(s: Bytes, n: int) {
    |s| == (2 * n + 7) / 8
  }

  /** The key pair a KEM draws from its coins. */
  function DrawnPair(ring: Kem.Ring, coins: KeyCoins): KeyPair
    requires ring.q > 0 && |coins.a| == 2 * ring.N()
    requires SmallCoins(coins.s, ring.N()) && ErrorCoins(coins.e, ring.N())
  {
    var a, s, e := UniformOf(coins.a, ring.N(), ring.q), TernaryOf(coins.s, ring.N()), ErrorsOf(coins.e, ring.q);
    KeyPair(Kem.PublicKey(ring, a, s, e), Kem.Serialize(s, ring.q))
  }

  class QuarkDash {
    const suite: Suite
    const kem: RingLwe.BaseRingLwe
    const sha256: Bytes -> Kem.Digest
    var sessionKey: Option<Key>
    var macKey: Option<Key>
    var cipher: Option<StreamCipher>
    var sendSeq: nat
    var receivedPackets: set<nat>
    var myPublicKey: Option<Bytes>
    var myPrivateKey: Option<Bytes>
    var peerPublicKey: Option<Bytes>
    var rekeyCounter: Int64
    var bytesEncrypted: nat
    var messagesEncrypted: nat
    var lastRekeyTime: int
    var rekeyPolicy: RekeyPolicy

    /** The two keys and the static cipher come and go together, and so do the two key pair halves. */
    ghost predicate Valid()
      reads this
    {
      && (sessionKey.Some? <==> macKey.Some?)
      && (myPublicKey.Some? <==> myPrivateKey.Some?)
      && cipher == (if sessionKey.Some? then Some(StreamCipher(sessionKey.value, ZeroNonce())) else None)
      && State().Valid()
    }

    /** The endpoint this object represents. */
    ghost function State(): Endpoint
      reads this
    {
      Endpoint(
        if sessionKey.Some? && macKey.Some? then Some(Keys(sessionKey.value, macKey.value)) else None,
        sendSeq, receivedPackets, rekeyCounter, bytesEncrypted, messagesEncrypted,
        if myPublicKey.Some? && myPrivateKey.Some? then Some(KeyPair(myPublicKey.value, myPrivateKey.value)) else None,
        peerPublicKey)
    }

    /** New. */
    constructor (suite: Suite, kem: RingLwe.BaseRingLwe, sha256: Bytes -> Kem.Digest, policy: RekeyPolicy, now: int)
      ensures Valid() && State() == New
      ensures this.suite == suite && this.kem == kem && this.sha256 == sha256
      ensures rekeyPolicy == policy && lastRekeyTime == now
    {
      this.suite, this.kem, this.sha256 := suite, kem, sha256;
      sessionKey, macKey, cipher := None, None, None;
      sendSeq, receivedPackets := 0, {};
      myPublicKey, myPrivateKey, peerPublicKey := None, None, None;
      rekeyCounter, bytesEncrypted, messagesEncrypted := 0, 0, 0;
      lastRekeyTime, rekeyPolicy := now, policy;
    }

    // ---------------------------------------------------------- packets

    /** buildMetadataLocked: the send sequence wraps at 2^32. */
    method BuildMetadata(now: Millis) returns (meta: Nonce)
      requires Valid()
      modifies this`sendSeq
      ensures Valid() && meta == Metadata(now, old(sendSeq))
      ensures sendSeq == (old(sendSeq) + 1) % WORD_RANGE
    {
      meta := ToLE(now, 8) + ToLE(sendSeq, 4);
      sendSeq := (sendSeq + 1) % WORD_RANGE;
    }

    /** cipherForNonceLocked. */
    method CipherForNonce(nonce: Nonce) returns (c: StreamCipher)
      requires Valid() && sessionKey.Some?
      ensures c == StreamCipher(sessionKey.value, NonceFor(suite, nonce))
    {
      if !suite.perMessageNonce {
        return cipher.value;
      }
      return StreamCipher(sessionKey.value, nonce);
    }

    method Encrypt(plaintext: seq<bv8>, now: Millis) returns (r: Result<Bytes, Error>)
      requires Valid()
      modifies this`sendSeq, this`bytesEncrypted, this`messagesEncrypted
      ensures Valid()
      ensures State() == Session.Encrypt(suite, old(State()), plaintext, now).state
      ensures r == Session.Encrypt(suite, old(State()), plaintext, now).result
    {
      hide Process, Metadata;
      if sessionKey.None? || macKey.None? {
        return Err(SessionNotEstablished);
      }
      var metadata := BuildMetadata(now);
      var ciph := CipherForNonce(metadata);
      var encrypted := ProcessData(suite.cipher, ciph.key, ciph.nonce, plaintext);
      var mac := suite.shake(macKey.value + metadata + encrypted);
      r := Ok(metadata + encrypted + mac);
      bytesEncrypted := bytesEncrypted + |plaintext|;
      messagesEncrypted := messagesEncrypted + 1;
    }

    /** checkMetadata, with the eviction of the oldest number. */
    method CheckMetadata(packet: seq<bv8>, now: Millis) returns (r: Result<(), Error>)
      requires Valid() && |packet| >= 12
      modifies this`receivedPackets
      ensures Valid()
      ensures State() == Session.CheckMetadata(suite, old(State()), packet, now).state
      ensures r == Session.CheckMetadata(suite, old(State()), packet, now).result
    {
      hide TimestampFresh;
      SequenceRange(packet);
      var n := SequenceOf(packet);
      if n in receivedPackets {
        return Err(ReplayDetected);
      }
      if !TimestampFresh(now, TimestampOf(packet), suite.tolerance) {
        return Err(TimestampOutOfWindow);
      }
      receivedPackets := receivedPackets + {n};
      if |receivedPackets| > suite.maxPacketWindow {
        var oldest := Oldest(receivedPackets);
        receivedPackets := receivedPackets - {oldest};
      }
      return Ok(());
    }

    method Decrypt(packet: seq<bv8>, now: Millis) returns (r: Result<Bytes, Error>)
      requires Valid()
      modifies this`receivedPackets
      ensures Valid()
      ensures State() == Session.Decrypt(suite, old(State()), packet, now).state
      ensures r == Session.Decrypt(suite, old(State()), packet, now).result
    {
      hide Process, Session.CheckMetadata, SequenceOf;
      if sessionKey.None? || macKey.None? {
        return Err(SessionNotEstablished);
      }
      if |packet| < 44 {
        return Err(InvalidCiphertext);
      }
      var metadata, encrypted, mac := packet[..12], packet[12..|packet| - 32], packet[|packet| - 32..];
      var valid := suite.shake(macKey.value + metadata + encrypted) == mac;
      if !valid {
        return Err(MacVerificationFailed);
      }
      var checked := CheckMetadata(packet, now);
      if checked.Err? {
        return Err(checked.error);
      }
      var ciph := CipherForNonce(metadata);
      var plain := ProcessData(suite.cipher, ciph.key, ciph.nonce, encrypted);
      return Ok(plain);
    }

    // ---------------------------------------------------------- key rotation

    /** reinitSession. */
    method ReinitSession(mat: Material, now: int)
      requires Valid()
      modifies this`sessionKey, this`macKey, this`cipher, this`rekeyCounter
      modifies this`bytesEncrypted, this`messagesEncrypted, this`lastRekeyTime
      ensures Valid() && lastRekeyTime == now
      ensures State() == old(State()).(keys := Some(SplitMaterial(mat)),
                                       counter := Wrap64(old(rekeyCounter) as int + 1),
                                       bytesEncrypted := 0, messagesEncrypted := 0)
    {
      hide Wrap64;
      sessionKey, macKey := Some(mat[..32]), Some(mat[32..64]);
      cipher := Some(StreamCipher(mat[..32], ZeroNonce()));
      rekeyCounter := Wrap64(rekeyCounter as int + 1);
      bytesEncrypted, messagesEncrypted, lastRekeyTime := 0, 0, now;
      assert mat[32..64] == mat[32..];
    }

    method DoRekeyDerive(salt: seq<bv8>, now: int) returns (r: Result<(), Error>)
      requires Valid()
      modifies this`sessionKey, this`macKey, this`cipher, this`rekeyCounter
      modifies this`bytesEncrypted, this`messagesEncrypted, this`lastRekeyTime
      ensures Valid()
      ensures old(State()).keys.None? ==> r == Err(SessionNotEstablished) && State() == old(State())
      ensures old(State()).keys.Some? ==>
                r == Ok(()) && State() == Rotate(suite, old(State()), salt) && lastRekeyTime == now
      ensures r.Err? ==> lastRekeyTime == old(lastRekeyTime)
    {
      hide RekeyMaterial;
      if sessionKey.None? || macKey.None? {
        return Err(SessionNotEstablished);
      }
      var mat := DeriveRekeyMaterial(suite.kdf, sessionKey.value, macKey.value, salt, rekeyCounter, "");
      ReinitSession(mat, now);
      return Ok(());
    }

    method Rekey(salt: Key, now: Millis, rekeyedAt: int) returns (r: Result<Bytes, Error>)
      requires Valid()
      modifies this
      ensures Valid()
      ensures State() == Session.Rekey(suite, old(State()), salt, now).state
      ensures r == Session.Rekey(suite, old(State()), salt, now).result
      ensures lastRekeyTime == if r.Ok? then rekeyedAt else old(lastRekeyTime)
      ensures rekeyPolicy == old(rekeyPolicy)
    {
      hide Seal, Metadata, Payload;
      var payload := BuildRekeyPayload(salt, rekeyCounter);
      r := Encrypt(payload[..], now);
      if r.Err? {
        return;
      }
      var derived := DoRekeyDerive(salt, rekeyedAt);
    }

    method ApplyRekey(token: seq<bv8>, now: Millis, rekeyedAt: int) returns (r: Result<(), Error>)
      requires Valid()
      modifies this
      ensures Valid()
      ensures State() == Session.ApplyRekey(suite, old(State()), token, now).state
      ensures r == Session.ApplyRekey(suite, old(State()), token, now).result
      ensures lastRekeyTime == if r.Ok? then rekeyedAt else old(lastRekeyTime)
      ensures rekeyPolicy == old(rekeyPolicy)
    {
      hide Session.Decrypt;
      var plain := Decrypt(token, now);
      ReceivingKeepsKeys(suite, old(State()), token, now);
      if plain.Err? {
        return Err(plain.error);
      }
      var parsed := Parse(plain.value);
      if parsed.Malformed? {
        return Err(BadRekeyPayload(parsed.error));
      }
      if parsed.counter != rekeyCounter {
        return Err(RekeyCounterMismatch);
      }
      r := DoRekeyDerive(parsed.salt, rekeyedAt);
    }

    /** NeedsRekey: an established session that reached one of the enabled limits. */
    method NeedsRekey(now: int) returns (r: bool)
      requires Valid()
      ensures r <==> State().keys.Some?
                     && ((rekeyPolicy.afterMessages > 0 && State().messagesEncrypted >= rekeyPolicy.afterMessages)
                         || (rekeyPolicy.afterBytes > 0 && State().bytesEncrypted >= rekeyPolicy.afterBytes)
                         || (rekeyPolicy.intervalMs > 0 && now - lastRekeyTime >= rekeyPolicy.intervalMs))
    {
      if sessionKey.None? {
        return false;
      }
      if rekeyPolicy.afterMessages > 0 && messagesEncrypted >= rekeyPolicy.afterMessages {
        return true;
      }
      if rekeyPolicy.afterBytes > 0 && bytesEncrypted >= rekeyPolicy.afterBytes {
        return true;
      }
      if rekeyPolicy.intervalMs > 0 && now - lastRekeyTime >= rekeyPolicy.intervalMs {
        return true;
      }
      return false;
    }

    // ---------------------------------------------------------- handshake

    /** deriveSessionKeys. */
    method DeriveSessionKeys(sharedSecret: seq<bv8>, now: int)
      requires Valid()
      modifies this`sessionKey, this`macKey, this`cipher, this`rekeyCounter
      modifies this`bytesEncrypted, this`messagesEncrypted, this`lastRekeyTime
      ensures Valid() && lastRekeyTime == now
      ensures State() == Establish(suite, old(State()), sharedSecret)
    {
      var km := suite.kdf(sharedSecret, seq(32, i => 0), TextToBytes("session-key"));
      sessionKey, macKey := Some(km[..32]), Some(km[32..64]);
      cipher := Some(StreamCipher(km[..32], ZeroNonce()));
      rekeyCounter, bytesEncrypted, messagesEncrypted, lastRekeyTime := 0, 0, 0, now;
      assert km[32..64] == km[32..];
    }

    /** Enough randomness of the right lengths for a key pair and an encapsulation. */
    ghost predicate Coins(keyCoins: KeyCoins, capsuleCoins: CapsuleCoins)
      reads kem
    {
      && kem.CanBlind(keyCoins.blind) && kem.CanBlind(capsuleCoins.blind1) && kem.CanBlind(capsuleCoins.blind2)
      && |keyCoins.a| == 2 * kem.N && SmallCoins(keyCoins.s, kem.N) && ErrorCoins(keyCoins.e, kem.N)
      && SmallCoins(capsuleCoins.s, kem.N) && ErrorCoins(capsuleCoins.e, kem.N)
    }

    /** What the KEM answers to Encapsulate with these coins. */
    ghost function CapsuleFor(peer: Option<Bytes>, coins: CapsuleCoins): Result<Kem.Capsule, Kem.Error>
      requires kem.Ready() && SmallCoins(coins.s, kem.N) && ErrorCoins(coins.e, kem.N)
      reads kem
    {
      Kem.Encaps(kem.R(), BytesOf(peer), TernaryOf(coins.s, kem.N), ErrorsOf(coins.e, kem.Q), kem.prot.validateInputs,
                 sha256)
    }

    method GenerateKeyPair(coins: KeyCoins) returns (pub: seq<bv8>)
      requires Valid() && kem.Ready() && kem.CanBlind(coins.blind)
      requires |coins.a| == 2 * kem.N && SmallCoins(coins.s, kem.N) && ErrorCoins(coins.e, kem.N)
      modifies this`myPublicKey, this`myPrivateKey, kem`wlenCache, kem`invWlenCache
      ensures Valid() && kem.Ready()
      ensures State() == old(State()).(my := Some(DrawnPair(kem.R(), coins)))
      ensures pub == DrawnPair(kem.R(), coins).pub
    {
      hide UniformOf, TernaryOf, ErrorsOf, Kem.PublicKey, Kem.Serialize;
      var priv;
      pub, priv := kem.GenerateKeyPair(coins.a, coins.s, coins.e, coins.blind);
      myPublicKey, myPrivateKey := Some(pub), Some(priv);
    }

    /** InitializeSession. */
    method InitializeSession(peer: Option<Bytes>, isInitiator: bool, keyCoins: KeyCoins, capsuleCoins: CapsuleCoins,
                             now: int)
      returns (r: Result<Option<Bytes>, Error>)
      requires Valid() && kem.Ready() && Coins(keyCoins, capsuleCoins)
      modifies this, kem`wlenCache, kem`invWlenCache
      ensures Valid() && kem.Ready()
      ensures var outcome := Initialize(suite, old(State()), peer, isInitiator, DrawnPair(kem.R(), keyCoins),
                                        CapsuleFor(peer, capsuleCoins));
              State() == outcome.state && r == outcome.result
    {
      hide Kem.Encaps, DrawnPair, TernaryOf, ErrorsOf, Establish;
      peerPublicKey := peer;
      if myPublicKey.None? {
        var pub := GenerateKeyPair(keyCoins);
      }
      if isInitiator {
        var capsule := kem.Encapsulate(BytesOf(peer), capsuleCoins.s, capsuleCoins.e, capsuleCoins.blind1,
                                       capsuleCoins.blind2, sha256);
        if capsule.Err? {
          return Err(KeyExchangeFailed(capsule.error));
        }
        DeriveSessionKeys(capsule.value.ss, now);
        return Ok(Some(capsule.value.ct));
      }
      return Ok(None);
    }

    /** FinalizeSession. */
    method FinalizeSession(ciphertext: seq<bv8>, rndBlind: seq<bv8>, now: int) returns (r: Result<(), Error>)
      requires Valid() && kem.Ready() && kem.CanBlind(rndBlind)
      modifies this, kem`wlenCache, kem`invWlenCache
      ensures Valid() && kem.Ready()
      ensures var s := old(State());
              var secret := if s.my.Some? then Kem.Decaps(kem.R(), s.my.value.priv, s.my.value.pub, ciphertext,
                                                          kem.prot.validateInputs, sha256)
                            else Err(Kem.InvalidPrivateKey);
              State() == Finalize(suite, s, secret).state && r == Finalize(suite, s, secret).result
    {
      hide Kem.Decaps, Establish;
      if myPrivateKey.None? || peerPublicKey.None? {
        return Err(SessionNotInitialized);
      }
      var ss := kem.Decapsulate(myPrivateKey.value, myPublicKey.value, ciphertext, rndBlind, sha256);
      if ss.Err? {
        return Err(KeyExchangeFailed(ss.error));
      }
      DeriveSessionKeys(ss.value, now);
      return Ok(());
    }

    method Dispose()
      requires Valid()
      modifies this`sessionKey, this`macKey, this`cipher, this`receivedPackets
      ensures Valid() && State() == Session.Dispose(old(State()))
    {
      sessionKey, macKey, cipher := None, None, None;
      receivedPackets := {};
    }
  }

  /** Receiving changes nothing but the window. */
  lemma ReceivingKeepsKeys(suite: Suite, s: Endpoint, packet: Bytes, now: Millis)
    ensures var s' := Session.Decrypt(suite, s, packet, now).state;
            s' == s.(received := s'.received)
    ensures Session.Decrypt(suite, s, packet, now).result.Ok? ==> s.keys.Some?
  {
  }
}
