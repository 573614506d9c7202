/**
 One endpoint of the protocol in quarkdash.go: its state, and every public operation as a
 function from state and arguments to the new state and the result. Clock readings, salts and
 KEM results are arguments.
 */
module Session {
  import opened Wrappers
  import opened ByteStrings
  import opened Words
  import opened KeyRotation
  import opened Cipher
  import opened ReplayWindow
  import Kem

  datatype Error =
    | SessionNotEstablished
    | SessionNotInitialized
    | MacVerificationFailed
    | TimestampOutOfWindow
    | ReplayDetected
    | RekeyCounterMismatch
    | InvalidCiphertext
    | BadRekeyPayload(rekey: PayloadError)
    | KeyExchangeFailed(kem: Kem.Error)

  /** The options a session is built with; SHAKE256 at 32 bytes and the KDF are functions. */
  datatype Suite = Suite(
    cipher: CipherType, shake: Bytes -> Kem.Digest, kdf: Kdf,
    perMessageNonce: bool, maxPacketWindow: int, tolerance: Int64)

  datatype Keys = Keys(session: Key, mac: Key)

  datatype KeyPair = KeyPair(pub: Bytes, priv: Bytes)

  datatype Endpoint = Endpoint(
    keys: Option<Keys>, sendSeq: nat, received: set<nat>, counter: Int64,
    bytesEncrypted: nat, messagesEncrypted: nat, my: Option<KeyPair>, peer: Option<Bytes>)
  {
    /** Sequence numbers are 32-bit. */
    predicate Valid() {
      sendSeq < WORD_RANGE && forall n :: n in received ==> n < WORD_RANGE
    }
  }

  const New := Endpoint(None, 0, {}, 0, 0, 0, None, None)

  datatype Outcome<+T> = Outcome(state: Endpoint, result: Result<T, Error>)

  // ------------------------------------------------------------ packets

  /** Timestamp and sequence number, both little-endian. */
  function Metadata(ts: Millis, n: nat): Nonce {
    ToLE(ts, 8) + ToLE(n, 4)
  }

  function SequenceOf(packet: Bytes): nat
    requires |packet| >= 12
  {
    FromLE(packet[8..12])
  }

  lemma SequenceRange(packet: Bytes)
    requires |packet| >= 12
    ensures SequenceOf(packet) < WORD_RANGE
  {
    FromLEBound(packet[8..12]);
    WordRange();
  }

  function TimestampOf(packet: Bytes): Millis
    requires |packet| >= 12
  {
    FromLEBound(packet[..8]);
    ClockRange();
    FromLE(packet[..8])
  }

  function ZeroNonce(): Nonce {
    seq(12, i => 0)
  }

  /** The nonce of a packet: its metadata, or twelve zeros when nonces are static. */
  function NonceFor(suite: Suite, meta: Nonce): Nonce {
    if suite.perMessageNonce then meta else ZeroNonce()
  }

  /** SignTwo: the tag over metadata and ciphertext. */
  function Tag(suite: Suite, keys: Keys, meta: Bytes, encrypted: Bytes): Kem.Digest {
    suite.shake(keys.mac + meta + encrypted)
  }

  ghost function Crypt(suite: Suite, keys: Keys, meta: Nonce, data: Bytes): (r: Bytes)
    ensures |r| == |data|
  {
    Process(suite.cipher, keys.session, NonceFor(suite, meta), data)
  }

  /** A packet: metadata, ciphertext, tag. */
  ghost function Seal(suite: Suite, keys: Keys, meta: Nonce, plain: Bytes): (r: Bytes)
    ensures |r| == |plain| + 44
  {
    var encrypted := Crypt(suite, keys, meta, plain);
    meta + encrypted + Tag(suite, keys, meta, encrypted)
  }

  /** Long enough, and carrying the tag of its own contents. */
  predicate Authentic(suite: Suite, keys: Keys, packet: Bytes) {
    && |packet| >= 44
    && packet[|packet| - 32..] == Tag(suite, keys, packet[..12], packet[12..|packet| - 32])
  }

  // ------------------------------------------------------------ sending and receiving

  ghost function Encrypt(suite: Suite, s: Endpoint, plain: Bytes, now: Millis): Outcome<Bytes> {
    if s.keys.None? then Outcome(s, Err(SessionNotEstablished))
    else
      Outcome(s.(sendSeq := (s.sendSeq + 1) % WORD_RANGE,
                 bytesEncrypted := s.bytesEncrypted + |plain|,
                 messagesEncrypted := s.messagesEncrypted + 1),
              Ok(Seal(suite, s.keys.value, Metadata(now, s.sendSeq), plain)))
  }

  /** checkMetadata: the replay test comes before the timestamp test. */
  ghost function CheckMetadata(suite: Suite, s: Endpoint, packet: Bytes, now: Millis): Outcome<()>
    requires |packet| >= 12
  {
    if SequenceOf(packet) in s.received then Outcome(s, Err(ReplayDetected))
    else if !TimestampFresh(now, TimestampOf(packet), suite.tolerance) then Outcome(s, Err(TimestampOutOfWindow))
    else Outcome(s.(received := Insert(s.received, SequenceOf(packet), suite.maxPacketWindow)), Ok(()))
  }

  ghost function Decrypt(suite: Suite, s: Endpoint, packet: Bytes, now: Millis): Outcome<Bytes> {
    if s.keys.None? then Outcome(s, Err(SessionNotEstablished))
    else if |packet| < 44 then Outcome(s, Err(InvalidCiphertext))
    else if !Authentic(suite, s.keys.value, packet) then Outcome(s, Err(MacVerificationFailed))
    else
      var checked := CheckMetadata(suite, s, packet, now);
      Outcome(checked.state,
              if checked.result.Err? then Err(checked.result.error)
              else Ok(Crypt(suite, s.keys.value, packet[..12], packet[12..|packet| - 32])))
  }

  /** Exactly when Decrypt accepts. */
  ghost predicate Accepts(suite: Suite, s: Endpoint, packet: Bytes, now: Millis) {
    && s.keys.Some? && Authentic(suite, s.keys.value, packet)
    && SequenceOf(packet) !in s.received
    && TimestampFresh(now, TimestampOf(packet), suite.tolerance)
  }

  // ------------------------------------------------------------ key rotation

  function SplitMaterial(m: Material): Keys {
    Keys(m[..32], m[32..])
  }

  function RotatedKeys(suite: Suite, keys: Keys, salt: Bytes, counter: Int64): Keys {
    SplitMaterial(RekeyMaterial(suite.kdf, keys.session, keys.mac, salt, counter, ""))
  }

  /** doRekeyDerive. */
  function Rotate(suite: Suite, s: Endpoint, salt: Bytes): Endpoint
    requires s.keys.Some?
  {
    s.(keys := Some(RotatedKeys(suite, s.keys.value, salt, s.counter)),
       counter := Wrap64(s.counter as int + 1), bytesEncrypted := 0, messagesEncrypted := 0)
  }

  /** Rekey: the token is encrypted under the old keys. */
  ghost function Rekey(suite: Suite, s: Endpoint, salt: Key, now: Millis): Outcome<Bytes> {
    var sent := Encrypt(suite, s, Payload(salt, s.counter), now);
    if sent.result.Err? then sent else Outcome(Rotate(suite, sent.state, salt), sent.result)
  }

  /** ApplyRekey. When it fails, everything but the replay window stays as it was. */
  ghost function ApplyRekey(suite: Suite, s: Endpoint, token: Bytes, now: Millis): (o: Outcome<()>)
    ensures o.result.Err? ==> o.state == s.(received := o.state.received)
    ensures o.result.Ok? ==> s.keys.Some? && o.state.counter == Wrap64(s.counter as int + 1)
  {
    var received := Decrypt(suite, s, token, now);
    if received.result.Err? then Outcome(received.state, Err(received.result.error))
    else
      var parsed := Parse(received.result.value);
      if parsed.Malformed? then Outcome(received.state, Err(BadRekeyPayload(parsed.error)))
      else if parsed.counter != s.counter then Outcome(received.state, Err(RekeyCounterMismatch))
      else Outcome(Rotate(suite, received.state, parsed.salt), Ok(()))
  }

  // ------------------------------------------------------------ handshake

  /** deriveSessionKeys. */
  function Establish(suite: Suite, s: Endpoint, sharedSecret: Bytes): Endpoint {
    s.(keys := Some(SplitMaterial(suite.kdf(sharedSecret, seq(32, i => 0), TextToBytes("session-key")))),
       counter := 0, bytesEncrypted := 0, messagesEncrypted := 0)
  }

  /**
   InitializeSession, given the key pair drawn when there is none and the KEM's answer. The
   initiator gets the KEM ciphertext, the other side nothing.
   */
  function Initialize(suite: Suite, s: Endpoint, peer: Option<Bytes>, isInitiator: bool, drawn: KeyPair,
                      capsule: Result<Kem.Capsule, Kem.Error>): Outcome<Option<Bytes>>
  {
    var s' := s.(peer := peer, my := if s.my.None? then Some(drawn) else s.my);
    if !isInitiator then Outcome(s', Ok(None))
    else if capsule.Err? then Outcome(s', Err(KeyExchangeFailed(capsule.error)))
    else Outcome(Establish(suite, s', capsule.value.ss), Ok(Some(capsule.value.ct)))
  }

  /** FinalizeSession, given what Decapsulate answers. */
  function Finalize(suite: Suite, s: Endpoint, secret: Result<Kem.Digest, Kem.Error>): Outcome<()> {
    if s.my.None? || s.peer.None? then Outcome(s, Err(SessionNotInitialized))
    else if secret.Err? then Outcome(s, Err(KeyExchangeFailed(secret.error)))
    else Outcome(Establish(suite, s, secret.value), Ok(()))
  }

  /** Dispose drops the keys and the window; the send sequence keeps counting. */
  function Dispose(s: Endpoint): Endpoint {
    s.(keys := None, received := {})
  }

  // ------------------------------------------------------------ sealed packets open

  lemma MetadataParts(ts: Millis, n: nat, rest: Bytes)
    requires n < WORD_RANGE
    ensures var p := Metadata(ts, n) + rest; SequenceOf(p) == n && TimestampOf(p) == ts
  {
    hide ToLE, FromLE;
    var p := Metadata(ts, n) + rest;
    assert p[..8] == ToLE(ts, 8) && p[8..12] == ToLE(n, 4);
    WordRange();
    ClockRange();
    FromToLESmall(ts, 8);
    FromToLESmall(n, 4);
  }

  /** Different timestamps or sequence numbers give different metadata. */
  lemma MetadataInjective(ts: Millis, n: nat, ts': Millis, n': nat)
    requires n < WORD_RANGE && n' < WORD_RANGE
    ensures Metadata(ts, n) == Metadata(ts', n') <==> ts == ts' && n == n'
  {
    hide Metadata;
    MetadataParts(ts, n, []);
    MetadataParts(ts', n', []);
  }

  lemma SealParts(suite: Suite, keys: Keys, meta: Nonce, plain: Bytes)
    ensures var p := Seal(suite, keys, meta, plain);
            && p[..12] == meta && p[12..|p| - 32] == Crypt(suite, keys, meta, plain)
            && Authentic(suite, keys, p)
  {
    hide Crypt, Tag;
    var encrypted := Crypt(suite, keys, meta, plain);
    var p, tag := Seal(suite, keys, meta, plain), Tag(suite, keys, meta, encrypted);
    assert p == meta + encrypted + tag;
    assert p[..12] == meta;
    assert p[12..|p| - 32] == encrypted;
    assert p[|p| - 32..] == tag;
  }

  /**
   Decrypt undoes Encrypt across endpoints: a packet sealed under the receiver's keys fails
   only as a replay or for its age, and otherwise gives back the plaintext.
   */
  lemma OpenSealed(suite: Suite, r: Endpoint, plain: Bytes, ts: Millis, n: nat, now: Millis)
    requires r.keys.Some? && n < WORD_RANGE
    ensures var p := Seal(suite, r.keys.value, Metadata(ts, n), plain);
            Decrypt(suite, r, p, now) ==
            if n in r.received then Outcome(r, Err(ReplayDetected))
            else if !TimestampFresh(now, ts, suite.tolerance) then Outcome(r, Err(TimestampOutOfWindow))
            else Outcome(r.(received := Insert(r.received, n, suite.maxPacketWindow)), Ok(plain))
  {
    hide Seal, Metadata, Crypt, Authentic, TimestampFresh, Insert, TimestampOf, SequenceOf;
    var keys, meta := r.keys.value, Metadata(ts, n);
    var p := Seal(suite, keys, meta, plain);
    SealParts(suite, keys, meta, plain);
    assert p == meta + p[12..];
    MetadataParts(ts, n, p[12..]);
    CryptTwice(suite, keys, meta, plain);
  }

  lemma CryptTwice(suite: Suite, keys: Keys, meta: Nonce, data: Bytes)
    ensures Crypt(suite, keys, meta, Crypt(suite, keys, meta, data)) == data
  {
    hide Process;
    ProcessTwice(suite.cipher, keys.session, NonceFor(suite, meta), data);
  }

  /** A packet that starts with metadata for sequence number n. */
  ghost predicate Numbered(packet: Bytes, n: nat) {
    |packet| >= 12 && n < WORD_RANGE && SequenceOf(packet) == n
  }

  lemma SealNumbered(suite: Suite, keys: Keys, ts: Millis, n: nat, plain: Bytes)
    requires n < WORD_RANGE
    ensures Numbered(Seal(suite, keys, Metadata(ts, n), plain), n)
  {
    hide Metadata, Crypt, Tag;
    var p := Seal(suite, keys, Metadata(ts, n), plain);
    SealParts(suite, keys, Metadata(ts, n), plain);
    assert p == Metadata(ts, n) + p[12..];
    MetadataParts(ts, n, p[12..]);
  }

  /** Decrypt succeeds exactly on the packets that are accepted. */
  lemma DecryptSucceedsExactly(suite: Suite, s: Endpoint, packet: Bytes, now: Millis)
    ensures Decrypt(suite, s, packet, now).result.Ok? <==> Accepts(suite, s, packet, now)
  {
    hide Insert, Tag, TimestampFresh, SequenceOf, TimestampOf, Crypt;
  }

  /** ApplyRekey succeeds exactly on accepted packets that decrypt to a payload with the receiver's counter. */
  lemma ApplyRekeySucceedsExactly(suite: Suite, s: Endpoint, token: Bytes, now: Millis)
    ensures ApplyRekey(suite, s, token, now).result.Ok? <==>
            && Accepts(suite, s, token, now)
            && var parsed := Parse(Crypt(suite, s.keys.value, token[..12], token[12..|token| - 32]));
            parsed.Fields? && parsed.counter == s.counter
  {
    hide Insert, Tag, TimestampFresh, SequenceOf, TimestampOf, Crypt, Parse, Rotate;
    DecryptSucceedsExactly(suite, s, token, now);
  }

  /**
   A token sealed under the receiver's keys is refused as a replay, for its age, or because its
   counter modulo 2^32 is not the receiver's, in that order; otherwise it rotates the receiver
   exactly as it rotated its sender.
   */
  lemma ApplySealedToken(suite: Suite, r: Endpoint, salt: Key, counter: Int64, ts: Millis, n: nat, now: Millis)
    requires r.keys.Some? && n < WORD_RANGE
    ensures var p := Seal(suite, r.keys.value, Metadata(ts, n), Payload(salt, counter));
            var r' := r.(received := Insert(r.received, n, suite.maxPacketWindow));
            ApplyRekey(suite, r, p, now) ==
            if n in r.received then Outcome(r, Err(ReplayDetected))
            else if !TimestampFresh(now, ts, suite.tolerance) then Outcome(r, Err(TimestampOutOfWindow))
            else if r.counter == counter % WORD_RANGE then Outcome(Rotate(suite, r', salt), Ok(()))
            else Outcome(r', Err(RekeyCounterMismatch))
  {
    hide Payload, Parse, Rotate, Decrypt, Seal;
    OpenSealed(suite, r, Payload(salt, counter), ts, n, now);
    ParsePayload(salt, counter);
  }
}
