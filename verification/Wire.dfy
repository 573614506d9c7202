/**
 What the calls of quarkdash.go put into packets and ask of the hash functions, spelled out
 byte by byte: which block of which cipher each plaintext byte is combined with, what the tag
 covers, what the KDF is given, and which error comes when.
 */
module Wire {
  import opened Wrappers
  import opened ByteStrings
  import opened Words
  import opened KeyRotation
  import opened Keystream
  import opened Cipher
  import opened ReplayWindow
  import opened Session
  import ChaCha
  import Gimli
  import Kem

  // ------------------------------------------------------------ the cipher

  const ZEROS: Nonce := [0, 0, 0, 0, 0, 0, 0, 0, 0, 0, 0, 0]

  /** The keystream byte of the selected cipher at position p. */
  function KeyByte(ct: CipherType, key: Key, nonce: Nonce, p: nat): bv8 {
    match ct
    case ChaCha20 => ChaCha.Block(key, nonce, p / 64)[p % 64]
    case GimliCipher => Gimli.Block(key, nonce, p / 48)[p % 48]
  }

  lemma ProcessByte(ct: CipherType, key: Key, nonce: Nonce, data: Bytes, p: nat)
    requires p < |data|
    ensures Process(ct, key, nonce, data)[p] == data[p] ^ KeyByte(ct, key, nonce, p)
  {
    hide ChaCha.Block, Gimli.Block;
    BlocksAreGood(ct, key, nonce);
  }

  lemma CryptByte(suite: Suite, keys: Keys, meta: Nonce, data: Bytes, p: nat)
    requires p < |data|
    ensures Crypt(suite, keys, meta, data)[p]
         == data[p] ^ KeyByte(suite.cipher, keys.session, if suite.perMessageNonce then meta else ZEROS, p)
  {
    hide Process, KeyByte;
    assert ZeroNonce() == ZEROS;
    ProcessByte(suite.cipher, keys.session, NonceFor(suite, meta), data, p);
  }

  /**
   The packet Encrypt returns: 44 bytes longer than the plaintext, every plaintext byte combined
   with the keystream byte of the session key, under the packet's own first twelve bytes as
   nonce or under twelve zero bytes.
   */
  lemma EncryptedByte(suite: Suite, s: Endpoint, plain: Bytes, now: Millis, p: nat)
    requires s.keys.Some? && s.sendSeq < WORD_RANGE && p < |plain|
    ensures Encrypt(suite, s, plain, now).result.Ok?
    ensures var packet := Encrypt(suite, s, plain, now).result.value;
            var nonce := if suite.perMessageNonce then packet[..12] else ZEROS;
            && |packet| == |plain| + 44
            && packet[12 + p] == plain[p] ^ KeyByte(suite.cipher, s.keys.value.session, nonce, p)
  {
    hide Crypt, Tag, KeyByte, Metadata;
    var keys, meta := s.keys.value, Metadata(now, s.sendSeq);
    var packet := Encrypt(suite, s, plain, now).result.value;
    SealParts(suite, keys, meta, plain);
    CryptByte(suite, keys, meta, plain, p);
    assert packet[12..|packet| - 32][p] == packet[12 + p];
  }

  /** The plaintext Decrypt returns: every byte between metadata and tag combined likewise. */
  lemma DecryptedByte(suite: Suite, r: Endpoint, packet: Bytes, now: Millis, p: nat)
    requires Decrypt(suite, r, packet, now).result.Ok? && p + 44 < |packet|
    ensures var plain := Decrypt(suite, r, packet, now).result.value;
            var nonce := if suite.perMessageNonce then packet[..12] else ZEROS;
            && r.keys.Some? && |plain| == |packet| - 44
            && plain[p] == packet[12 + p] ^ KeyByte(suite.cipher, r.keys.value.session, nonce, p)
  {
    hide Crypt, Tag, KeyByte, TimestampFresh, TimestampOf, SequenceOf, Insert;
    CryptByte(suite, r.keys.value, packet[..12], packet[12..|packet| - 32], p);
  }

  // ------------------------------------------------------------ metadata and tag

  /** Eight bytes of clock, four of sequence number, and at the end the hash of MAC key and all before. */
  lemma PacketLayout(suite: Suite, s: Endpoint, plain: Bytes, now: Millis)
    requires s.keys.Some? && s.sendSeq < WORD_RANGE
    ensures Encrypt(suite, s, plain, now).result.Ok?
    ensures var packet := Encrypt(suite, s, plain, now).result.value;
            var body := packet[..|packet| - 32];
            && |packet| == |plain| + 44
            && FromLE(packet[..8]) == now && FromLE(packet[8..12]) == s.sendSeq
            && packet[|packet| - 32..] == suite.shake(s.keys.value.mac + body)
  {
    hide Crypt, Metadata, FromLE;
    var keys, meta := s.keys.value, Metadata(now, s.sendSeq);
    var packet := Encrypt(suite, s, plain, now).result.value;
    var body := packet[..|packet| - 32];
    SealParts(suite, keys, meta, plain);
    assert packet == meta + packet[12..];
    MetadataParts(now, s.sendSeq, packet[12..]);
    assert body == packet[..12] + packet[12..|packet| - 32];
    TagCovers(suite, keys, packet);
  }

  lemma TagCovers(suite: Suite, keys: Keys, packet: Bytes)
    requires |packet| >= 44
    ensures Tag(suite, keys, packet[..12], packet[12..|packet| - 32])
         == suite.shake(keys.mac + packet[..|packet| - 32])
  {
    assert keys.mac + packet[..12] + packet[12..|packet| - 32] == keys.mac + packet[..|packet| - 32];
  }

  /** Unless the hash collides, a packet changed anywhere before its tag is not authentic any more. */
  lemma AlteredPacketRefused(suite: Suite, keys: Keys, packet: Bytes, altered: Bytes)
    requires Authentic(suite, keys, packet) && |altered| == |packet| && altered != packet
    requires altered[|packet| - 32..] == packet[|packet| - 32..]
    requires var body, body' := packet[..|packet| - 32], altered[..|packet| - 32];
             suite.shake(keys.mac + body) == suite.shake(keys.mac + body') ==> body == body'
    ensures !Authentic(suite, keys, altered)
  {
    hide Tag;
    TagCovers(suite, keys, packet);
    TagCovers(suite, keys, altered);
    assert packet == packet[..|packet| - 32] + packet[|packet| - 32..];
    assert altered == altered[..|packet| - 32] + altered[|packet| - 32..];
  }

  /** The tag of the packet is the hash of MAC key and everything before it. */
  predicate GoodTag(suite: Suite, keys: Keys, packet: Bytes)
    requires |packet| >= 44
  {
    packet[|packet| - 32..] == suite.shake(keys.mac + packet[..|packet| - 32])
  }

  /** Which error Decrypt returns when; in all of these cases nothing changes. */
  lemma DecryptFailsExactly(suite: Suite, s: Endpoint, packet: Bytes, now: Millis)
    ensures var o := Decrypt(suite, s, packet, now);
            var tagged := s.keys.Some? && |packet| >= 44 && GoodTag(suite, s.keys.value, packet);
            && (o.result == Err(SessionNotEstablished) <==> s.keys.None?)
            && (o.result == Err(InvalidCiphertext) <==> s.keys.Some? && |packet| < 44)
            && (o.result == Err(MacVerificationFailed) <==> s.keys.Some? && |packet| >= 44 && !tagged)
            && (o.result == Err(ReplayDetected) <==> tagged && FromLE(packet[8..12]) in s.received)
            && (o.result == Err(TimestampOutOfWindow) <==>
                  tagged && FromLE(packet[8..12]) !in s.received
                  && !TimestampFresh(now, TimestampOf(packet), suite.tolerance))
            && (tagged ==> TimestampOf(packet) == FromLE(packet[..8]))
            && (o.result.Err? ==> o.state == s)
  {
    hide Crypt, Tag, TimestampFresh, FromLE, Insert;
    if |packet| >= 44 && s.keys.Some? {
      TagCovers(suite, s.keys.value, packet);
    }
  }

  /** Encrypt fails only without a session, and then changes nothing. */
  lemma EncryptFailsExactly(suite: Suite, s: Endpoint, plain: Bytes, now: Millis)
    ensures var o := Encrypt(suite, s, plain, now);
            && (o.result.Err? <==> s.keys.None?)
            && (s.keys.None? ==> o == Outcome(s, Err(SessionNotEstablished)))
  {
    hide Seal, Metadata;
  }

  /** An accepted token that is no payload, or carries another counter, is refused with its own error. */
  lemma ApplyRekeyFailsExactly(suite: Suite, s: Endpoint, token: Bytes, now: Millis)
    ensures var got, o := Decrypt(suite, s, token, now), ApplyRekey(suite, s, token, now);
            && (got.result.Err? ==> o == Outcome(got.state, Err(got.result.error)))
            && (got.result.Ok? ==>
                  var p := got.result.value;
                  && (o.result == Err(BadRekeyPayload(InvalidRekeyPayload)) <==> |p| < 5 || p[0] != 0x51)
                  && (o.result == Err(BadRekeyPayload(InvalidSaltLength)) <==> |p| >= 5 && p[0] == 0x51 && |p| != 37)
                  && (o.result == Err(RekeyCounterMismatch) <==>
                        |p| == 37 && p[0] == 0x51 && FromLE(p[1..5]) != s.counter)
                  && (o.result.Err? ==> o.state == got.state))
  {
    hide Decrypt, Rotate, FromLE;
  }

  // ------------------------------------------------------------ the keys

  /** Session key, then MAC key, are what the KDF makes of the old ones, the salt and the info string. */
  lemma RotatedFromKdf(suite: Suite, s: Endpoint, salt: Key, now: Millis)
    requires s.keys.Some?
    ensures var s' := Rekey(suite, s, salt, now).state;
            && s'.keys.Some?
            && s'.keys.value.session + s'.keys.value.mac
               == suite.kdf(s.keys.value.session + s.keys.value.mac, salt,
                            LABEL_BYTES + TextToBytes(Decimal(s.counter)) + [0x3a])
  {
    hide Seal, Metadata, Payload, Wrap64, RekeyInfo, Decimal, TextToBytes;
    RekeyInfoBytes(s.counter);
    var m := RekeyMaterial(suite.kdf, s.keys.value.session, s.keys.value.mac, salt, s.counter, "");
    assert m[..32] + m[32..] == m;
  }

  const SESSION_LABEL: Bytes := [0x73, 0x65, 0x73, 0x73, 0x69, 0x6f, 0x6e, 0x2d, 0x6b, 0x65, 0x79]

  /** And after a handshake, of the shared secret, 32 zero bytes and "session-key", on either side. */
  lemma EstablishedFromKdf(suite: Suite, s: Endpoint, peer: Option<Bytes>, drawn: KeyPair, capsule: Kem.Capsule,
                           secret: Kem.Digest)
    ensures var a := Initialize(suite, s, peer, true, drawn, Ok(capsule)).state;
            && a.keys.Some?
            && a.keys.value.session + a.keys.value.mac == suite.kdf(capsule.ss, seq(32, _ => 0), SESSION_LABEL)
    ensures s.my.Some? && s.peer.Some? ==>
              var b := Finalize(suite, s, Ok(secret)).state;
              && b.keys.Some?
              && b.keys.value.session + b.keys.value.mac == suite.kdf(secret, seq(32, _ => 0), SESSION_LABEL)
  {
    DerivedFromKdf(suite, s, capsule.ss);
    DerivedFromKdf(suite, s, secret);
  }

  lemma DerivedFromKdf(suite: Suite, s: Endpoint, secret: Bytes)
    ensures var keys := Establish(suite, s, secret).keys;
            keys.Some? && keys.value.session + keys.value.mac == suite.kdf(secret, seq(32, _ => 0), SESSION_LABEL)
  {
    hide TextToBytes;
    LabelIsText();
    var m := suite.kdf(secret, seq(32, i => 0), TextToBytes("session-key"));
    assert m[..32] + m[32..] == m;
  }

  lemma LabelIsText()
    ensures TextToBytes("session-key") == SESSION_LABEL
  {
    AsciiByte('s', 0x73);
    AsciiByte('e', 0x65);
    AsciiByte('i', 0x69);
    AsciiByte('o', 0x6f);
    AsciiByte('n', 0x6e);
    AsciiByte('-', 0x2d);
    AsciiByte('k', 0x6b);
    AsciiByte('y', 0x79);
  }

  /**
   Rotations separate: unless the KDF collides on the two inputs, two endpoints hold the same
   keys after their rotations if and only if old keys, salt and counter were the same.
   */
  lemma RotationsSeparate(suite: Suite, s: Endpoint, t: Endpoint, salt: Key, salt': Key, now: Millis, now': Millis)
    requires s.keys.Some? && t.keys.Some?
    requires var k, k' := s.keys.value, t.keys.value;
             suite.kdf(k.session + k.mac, salt, RekeyInfo(s.counter, ""))
             == suite.kdf(k'.session + k'.mac, salt', RekeyInfo(t.counter, ""))
             ==> k.session + k.mac == k'.session + k'.mac && salt == salt'
                 && RekeyInfo(s.counter, "") == RekeyInfo(t.counter, "")
    ensures Rekey(suite, s, salt, now).state.keys == Rekey(suite, t, salt', now').state.keys
       <==> s.keys == t.keys && salt == salt' && s.counter == t.counter
  {
    hide Rekey, RekeyInfo, Decimal, TextToBytes;
    var k, k' := s.keys.value, t.keys.value;
    RotatedFromKdf(suite, s, salt, now);
    RotatedFromKdf(suite, t, salt', now');
    RekeyInfoBytes(s.counter);
    RekeyInfoBytes(t.counter);
    RekeyInputsDistinct(k.session, k.mac, salt, s.counter, k'.session, k'.mac, salt', t.counter);
    KeysJoined(Rekey(suite, s, salt, now).state.keys.value, Rekey(suite, t, salt', now').state.keys.value);
  }

  lemma KeysJoined(k: Keys, k': Keys)
    ensures k.session + k.mac == k'.session + k'.mac <==> k == k'
  {
    assert k.session == (k.session + k.mac)[..32] && k.mac == (k.session + k.mac)[32..];
    assert k'.session == (k'.session + k'.mac)[..32] && k'.mac == (k'.session + k'.mac)[32..];
  }

  // ------------------------------------------------------------ what a call leaves alone

  /**
   InitializeSession keeps an existing key pair, whoever starts; it changes keys and counter
   only by a successful encapsulation.
   */
  lemma InitializeKeeps(suite: Suite, s: Endpoint, peer: Option<Bytes>, isInitiator: bool, drawn: KeyPair,
                        capsule: Result<Kem.Capsule, Kem.Error>)
    ensures var o := Initialize(suite, s, peer, isInitiator, drawn, capsule);
            && (s.my.Some? ==> o.state.my == s.my) && (s.my.None? ==> o.state.my == Some(drawn))
            && o.state.peer == peer && o.state.sendSeq == s.sendSeq && o.state.received == s.received
            && (o.result == Ok(None) <==> !isInitiator)
            && (o.result.Err? <==> isInitiator && capsule.Err?)
            && (!(isInitiator && capsule.Ok?) ==>
                  && o.state.keys == s.keys && o.state.counter == s.counter
                  && o.state.bytesEncrypted == s.bytesEncrypted && o.state.messagesEncrypted == s.messagesEncrypted)
  {
    hide Establish;
    EstablishTouches(suite, s.(peer := peer, my := if s.my.None? then Some(drawn) else s.my),
                     if capsule.Ok? then capsule.value.ss else []);
  }

  lemma EstablishTouches(suite: Suite, s: Endpoint, secret: Bytes)
    ensures var s' := Establish(suite, s, secret);
            s' == s.(keys := s'.keys, counter := 0, bytesEncrypted := 0, messagesEncrypted := 0)
  {
  }

  /** FinalizeSession succeeds exactly with both key pair and peer key and a decapsulated secret. */
  lemma FinalizeFailsExactly(suite: Suite, s: Endpoint, secret: Result<Kem.Digest, Kem.Error>)
    ensures var o := Finalize(suite, s, secret);
            && (o.result == Err(SessionNotInitialized) <==> s.my.None? || s.peer.None?)
            && (o.result.Ok? <==> s.my.Some? && s.peer.Some? && secret.Ok?)
            && (o.result.Err? ==> o.state == s)
            && o.state.my == s.my && o.state.peer == s.peer
            && o.state.sendSeq == s.sendSeq && o.state.received == s.received
  {
    hide Establish;
    EstablishTouches(suite, s, if secret.Ok? then secret.value else []);
  }

  /** After Dispose nothing is encrypted, decrypted or rotated; the key pair and the peer's key stay. */
  lemma DisposedRefuses(suite: Suite, s: Endpoint, data: Bytes, salt: Key, now: Millis)
    ensures var d := Dispose(s);
            && Encrypt(suite, d, data, now) == Outcome(d, Err(SessionNotEstablished))
            && Decrypt(suite, d, data, now) == Outcome(d, Err(SessionNotEstablished))
            && Rekey(suite, d, salt, now) == Outcome(d, Err(SessionNotEstablished))
            && ApplyRekey(suite, d, data, now) == Outcome(d, Err(SessionNotEstablished))
            && d.my == s.my && d.peer == s.peer && d.sendSeq == s.sendSeq && d.counter == s.counter
            && d.bytesEncrypted == s.bytesEncrypted && d.messagesEncrypted == s.messagesEncrypted
  {
  }
}
