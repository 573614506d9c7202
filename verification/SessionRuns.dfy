/**
 Whole runs of one endpoint: every sequence of public calls from a new endpoint on, and what
 stays true of its replay window, its sequence numbers and its statistics.
 */
module SessionRuns {
  import opened Wrappers
  import opened Modular
  import opened ByteStrings
  import opened Words
  import opened KeyRotation
  import opened Cipher
  import opened ReplayWindow
  import opened Session
  import opened Wire
  import Kem
  import Keystream
  import Gimli

  /** A public call, with what its environment supplies. */
  datatype Call =
    | CallEncrypt(plain: Bytes, now: Millis)
    | CallDecrypt(packet: Bytes, now: Millis)
    | CallRekey(salt: Key, now: Millis)
    | CallApplyRekey(packet: Bytes, now: Millis)
    | CallInitialize(peer: Option<Bytes>, isInitiator: bool, drawn: KeyPair, capsule: Result<Kem.Capsule, Kem.Error>)
    | CallFinalize(secret: Result<Kem.Digest, Kem.Error>)
    | CallGenerateKeyPair(drawn: KeyPair)
    | CallDispose

  ghost function Next(suite: Suite, s: Endpoint, call: Call): Endpoint {
    match call
    case CallEncrypt(plain, now) => Encrypt(suite, s, plain, now).state
    case CallDecrypt(packet, now) => Decrypt(suite, s, packet, now).state
    case CallRekey(salt, now) => Rekey(suite, s, salt, now).state
    case CallApplyRekey(token, now) => ApplyRekey(suite, s, token, now).state
    case CallInitialize(peer, isInitiator, drawn, capsule) =>
      Initialize(suite, s, peer, isInitiator, drawn, capsule).state
    case CallFinalize(secret) => Finalize(suite, s, secret).state
    case CallGenerateKeyPair(drawn) => s.(my := Some(drawn))
    case CallDispose => Dispose(s)
  }

  /** The endpoint after the calls, in order. */
  ghost function Run(suite: Suite, calls: seq<Call>): Endpoint {
    if calls == [] then New
    else Next(suite, Run(suite, Front(calls)), Last(calls))
  }

  // ------------------------------------------------------------ the replay window

  /** Does the call present a packet that is accepted? */
  ghost predicate AcceptsPacket(suite: Suite, s: Endpoint, call: Call) {
    (call.CallDecrypt? || call.CallApplyRekey?) && Accepts(suite, s, call.packet, call.now)
  }

  /** Every sequence number accepted since the start or the last Dispose. */
  ghost function Accepted(suite: Suite, calls: seq<Call>): set<nat> {
    if calls == [] then {}
    else if Last(calls).CallDispose? then {}
    else if AcceptsPacket(suite, Run(suite, Front(calls)), Last(calls))
    then Accepted(suite, Front(calls)) + {SequenceOf(Last(calls).packet)}
    else Accepted(suite, Front(calls))
  }

  /** What one call does to the window. */
  lemma WindowStep(suite: Suite, s: Endpoint, call: Call)
    ensures Next(suite, s, call).received ==
            if call.CallDispose? then {}
            else if AcceptsPacket(suite, s, call)
            then Insert(s.received, SequenceOf(call.packet), suite.maxPacketWindow)
            else s.received
  {
    hide Insert, Tag, TimestampFresh, SequenceOf, TimestampOf, Crypt, Parse, Seal;
  }

  /** At every point of every run the window holds the largest accepted sequence numbers. */
  lemma {:induction false} WindowHoldsLargest(suite: Suite, calls: seq<Call>)
    ensures Largest(Run(suite, calls).received, Accepted(suite, calls), Max0(suite.maxPacketWindow))
    ensures Run(suite, calls).received == Top(Accepted(suite, calls), Max0(suite.maxPacketWindow))
  {
    hide Insert, Largest, Top, Tag, TimestampFresh, Next;
    if calls == [] {
      LargestOfNone(Max0(suite.maxPacketWindow));
    } else {
      var before := Run(suite, Front(calls));
      WindowHoldsLargest(suite, Front(calls));
      WindowStep(suite, before, Last(calls));
      LargestOfNone(Max0(suite.maxPacketWindow));
      if AcceptsPacket(suite, before, Last(calls)) {
        AcceptedIsNew(suite, before, Last(calls));
        LargestStep(before.received, Accepted(suite, Front(calls)), SequenceOf(Last(calls).packet),
                    suite.maxPacketWindow);
      }
    }
    LargestIsTop(Run(suite, calls).received, Accepted(suite, calls), Max0(suite.maxPacketWindow));
  }

  lemma AcceptedIsNew(suite: Suite, s: Endpoint, call: Call)
    requires AcceptsPacket(suite, s, call)
    ensures SequenceOf(call.packet) !in s.received
  {
  }

  lemma LargestOfNone(w: nat)
    ensures Largest({}, {}, w)
  {
  }

  /**
   A packet with a good tag is rejected as a replay exactly when its number was accepted
   before and fewer than W accepted numbers are larger.
   */
  lemma ReplayExactly(suite: Suite, calls: seq<Call>, packet: Bytes, now: Millis)
    requires Run(suite, calls).keys.Some? && Authentic(suite, Run(suite, calls).keys.value, packet)
    ensures Decrypt(suite, Run(suite, calls), packet, now).result == Err(ReplayDetected)
       <==> SequenceOf(packet) in Accepted(suite, calls)
            && |Above(Accepted(suite, calls), SequenceOf(packet))| < Max0(suite.maxPacketWindow)
  {
    hide TimestampFresh, SequenceOf, TimestampOf, Crypt, Above, Run, Accepted, Tag;
    var n, accepted := SequenceOf(packet), Accepted(suite, calls);
    WindowHoldsLargest(suite, calls);
    if n in accepted {
      LargestExactly(Run(suite, calls).received, accepted, Max0(suite.maxPacketWindow), n);
    }
  }

  /**
   A number already accepted is accepted again exactly when at least W accepted numbers
   exceed it (given a good tag and a fresh timestamp).
   */
  lemma AcceptedAgainExactly(suite: Suite, calls: seq<Call>, packet: Bytes, now: Millis)
    requires Run(suite, calls).keys.Some? && Authentic(suite, Run(suite, calls).keys.value, packet)
    requires TimestampFresh(now, TimestampOf(packet), suite.tolerance)
    requires SequenceOf(packet) in Accepted(suite, calls)
    ensures Decrypt(suite, Run(suite, calls), packet, now).result.Ok?
       <==> |Above(Accepted(suite, calls), SequenceOf(packet))| >= Max0(suite.maxPacketWindow)
  {
    hide TimestampFresh, SequenceOf, TimestampOf, Crypt, Above, Run, Accepted, Tag;
    WindowHoldsLargest(suite, calls);
    LargestExactly(Run(suite, calls).received, Accepted(suite, calls), Max0(suite.maxPacketWindow),
                   SequenceOf(packet));
  }

  /** While at most W distinct numbers were accepted, none is accepted twice. */
  lemma FewNeverTwice(suite: Suite, calls: seq<Call>, packet: Bytes, now: Millis)
    requires |packet| >= 12 && SequenceOf(packet) in Accepted(suite, calls)
    requires |Accepted(suite, calls)| <= Max0(suite.maxPacketWindow)
    ensures Decrypt(suite, Run(suite, calls), packet, now).result.Err?
  {
    hide Authentic, TimestampFresh, SequenceOf, TimestampOf, Crypt, Run, Accepted;
    var accepted := Accepted(suite, calls);
    WindowHoldsLargest(suite, calls);
    SubsetSize(Run(suite, calls).received, accepted);
  }

  /** No window is kept when its size is zero or negative: nothing is ever a replay. */
  lemma NoWindowNoReplay(suite: Suite, calls: seq<Call>, packet: Bytes, now: Millis)
    requires suite.maxPacketWindow <= 0
    ensures Run(suite, calls).received == {}
    ensures Decrypt(suite, Run(suite, calls), packet, now).result != Err(ReplayDetected)
  {
    hide Authentic, TimestampFresh, SequenceOf, TimestampOf, Crypt, Run, Accepted;
    WindowHoldsLargest(suite, calls);
  }

  // ------------------------------------------------------------ a number accepted twice

  /** The packet numbered i of a sender with these keys. */
  ghost function PacketNumbered(suite: Suite, keys: Keys, i: nat, now: Millis): Bytes
    requires i < WORD_RANGE
  {
    Seal(suite, keys, Metadata(now, i), [])
  }

  /** A handshake call on a new endpoint, then the packets numbered 0 .. count - 1. */
  ghost function OpeningCalls(suite: Suite, handshake: Call, count: nat, now: Millis): seq<Call>
    requires count <= WORD_RANGE && Next(suite, New, handshake).keys.Some?
    ensures OpeningCalls(suite, handshake, count, now) != []
  {
    if count == 0 then [handshake]
    else OpeningCalls(suite, handshake, count - 1, now)
         + [CallDecrypt(PacketNumbered(suite, Next(suite, New, handshake).keys.value, count - 1, now), now)]
  }

  predicate Below(i: nat, count: nat) {
    i < count
  }

  function Numbers(count: nat): set<nat> {
    set i: nat | i < count && Below(i, count)
  }

  lemma {:induction false} NumbersSize(count: nat)
    ensures |Numbers(count)| == count
  {
    if count > 0 {
      NumbersSize(count - 1);
      assert Numbers(count) == Numbers(count - 1) + {count - 1};
    }
  }

  /** All of those packets are accepted, whatever the window size. */
  lemma {:induction false} OpeningAccepted(suite: Suite, handshake: Call, count: nat, now: Millis)
    requires count <= WORD_RANGE && Next(suite, New, handshake).keys.Some? && suite.tolerance >= 0
    requires handshake.CallInitialize?
    ensures var calls := OpeningCalls(suite, handshake, count, now);
            Run(suite, calls).keys == Next(suite, New, handshake).keys && Accepted(suite, calls) == Numbers(count)
  {
    hide Next, Seal, Metadata, Decrypt, TimestampFresh, Authentic, Top;
    var calls := OpeningCalls(suite, handshake, count, now);
    if count == 0 {
      assert Front(calls) == [] && Last(calls) == handshake;
      assert Run(suite, Front(calls)) == New;
    } else {
      var n := count - 1;
      var front := OpeningCalls(suite, handshake, n, now);
      var before := Run(suite, front);
      assert Front(calls) == front;
      OpeningAccepted(suite, handshake, n, now);
      WindowHoldsLargest(suite, front);
      assert before.received <= Numbers(n);
      FreshExactly(now, now, suite.tolerance);
      DeliverNext(suite, before, n, now);
      assert Numbers(count) == Numbers(n) + {n};
    }
  }

  /** A sealed packet with a new number is accepted and the keys stay. */
  lemma DeliverNext(suite: Suite, s: Endpoint, n: nat, now: Millis)
    requires s.keys.Some? && n < WORD_RANGE && n !in s.received && TimestampFresh(now, now, suite.tolerance)
    ensures var packet := PacketNumbered(suite, s.keys.value, n, now);
            && AcceptsPacket(suite, s, CallDecrypt(packet, now)) && SequenceOf(packet) == n
            && Next(suite, s, CallDecrypt(packet, now)).keys == s.keys
  {
    hide Seal, Metadata, Decrypt, TimestampFresh, Authentic, SequenceOf, TimestampOf;
    OpenSealed(suite, s, [], now, n, now);
    SealNumbered(suite, s.keys.value, now, n, []);
    DecryptSucceedsExactly(suite, s, PacketNumbered(suite, s.keys.value, n, now), now);
  }

  /**
   A reachable replay: with a window of any size W below 2^32, after a handshake and the W + 1
   packets numbered from 0 the first packet, already accepted, is accepted once more.
   */
  lemma EvictedIsAcceptedAgain(suite: Suite, handshake: Call, now: Millis)
    requires 0 <= suite.maxPacketWindow < WORD_RANGE && suite.tolerance >= 0
    requires handshake.CallInitialize? && Next(suite, New, handshake).keys.Some?
    ensures var calls := OpeningCalls(suite, handshake, suite.maxPacketWindow + 1, now);
            var packet := PacketNumbered(suite, Next(suite, New, handshake).keys.value, 0, now);
            && |packet| >= 44 && SequenceOf(packet) in Accepted(suite, calls)
            && Decrypt(suite, Run(suite, calls), packet, now).result == Ok([])
  {
    hide Next, Seal, Metadata, Decrypt, TimestampFresh, Authentic, SequenceOf, Run, Accepted, OpeningCalls, Numbers;
    var w: nat := suite.maxPacketWindow;
    var calls := OpeningCalls(suite, handshake, w + 1, now);
    var end := Run(suite, calls);
    OpeningAccepted(suite, handshake, w + 1, now);
    WindowHoldsLargest(suite, calls);
    AboveZero(w);
    if 0 in end.received {
      LargestExactly(end.received, Numbers(w + 1), w, 0);
    }
    FreshExactly(now, now, suite.tolerance);
    OpenSealed(suite, end, [], now, 0, now);
    SealNumbered(suite, end.keys.value, now, 0, []);
  }

  lemma AboveZero(w: nat)
    ensures 0 in Numbers(w + 1) && |Above(Numbers(w + 1), 0)| == w
  {
    NumbersSize(w + 1);
    assert Above(Numbers(w + 1), 0) == Numbers(w + 1) - {0};
  }

  /** Larger windows hold every number there is: then nothing is ever accepted twice. */
  lemma FullWindowNeverTwice(suite: Suite, calls: seq<Call>, packet: Bytes, now: Millis)
    requires suite.maxPacketWindow >= WORD_RANGE
    requires |packet| >= 12 && SequenceOf(packet) in Accepted(suite, calls)
    ensures Decrypt(suite, Run(suite, calls), packet, now).result.Err?
  {
    hide Decrypt, SequenceOf, Run, Accepted;
    AcceptedAreWords(suite, calls);
    NumbersSize(WORD_RANGE);
    SubsetSize(Accepted(suite, calls), Numbers(WORD_RANGE));
    FewNeverTwice(suite, calls, packet, now);
  }

  lemma {:induction false} AcceptedAreWords(suite: Suite, calls: seq<Call>)
    ensures Accepted(suite, calls) <= Numbers(WORD_RANGE)
  {
    hide SequenceOf, Run, Tag, TimestampFresh, TimestampOf;
    if calls != [] {
      AcceptedAreWords(suite, Front(calls));
      if AcceptsPacket(suite, Run(suite, Front(calls)), Last(calls)) {
        SequenceRange(Last(calls).packet);
      }
    }
  }

  // ------------------------------------------------------------ sequence numbers

  /** The packet a call returns, if any. */
  ghost function Emitted(suite: Suite, s: Endpoint, call: Call): seq<Bytes> {
    if call.CallEncrypt? && s.keys.Some? then [Encrypt(suite, s, call.plain, call.now).result.value]
    else if call.CallRekey? && s.keys.Some? then [Rekey(suite, s, call.salt, call.now).result.value]
    else []
  }

  /** Every packet and token sent in a run, in order. */
  ghost function Sent(suite: Suite, calls: seq<Call>): seq<Bytes> {
    if calls == [] then []
    else Sent(suite, Front(calls)) + Emitted(suite, Run(suite, Front(calls)), Last(calls))
  }

  /** What one call sends and what it does to the send sequence. */
  lemma SendStep(suite: Suite, s: Endpoint, call: Call)
    requires s.sendSeq < WORD_RANGE
    ensures var emitted := Emitted(suite, s, call);
            && (emitted == [] ==> Next(suite, s, call).sendSeq == s.sendSeq)
            && (emitted != [] ==> |emitted| == 1 && Numbered(emitted[0], s.sendSeq)
                                  && Next(suite, s, call).sendSeq == (s.sendSeq + 1) % WORD_RANGE)
  {
    hide Insert, Authentic, TimestampFresh, SequenceOf, TimestampOf, Crypt, Parse, Seal, Metadata, Payload;
    if s.keys.Some? {
      if call.CallEncrypt? {
        SealNumbered(suite, s.keys.value, call.now, s.sendSeq, call.plain);
      } else if call.CallRekey? {
        SealNumbered(suite, s.keys.value, call.now, s.sendSeq, Payload(call.salt, s.counter));
      }
    }
  }

  /** The i-th packet of a run carries sequence number i modulo 2^32. */
  lemma {:induction false} SentNumbers(suite: Suite, calls: seq<Call>)
    ensures Run(suite, calls).sendSeq == |Sent(suite, calls)| % WORD_RANGE
    ensures forall i :: 0 <= i < |Sent(suite, calls)| ==> Numbered(Sent(suite, calls)[i], i % WORD_RANGE)
  {
    hide Numbered, Emitted, Next;
    if calls != [] {
      SentNumbers(suite, Front(calls));
      SendStep(suite, Run(suite, Front(calls)), Last(calls));
    }
  }

  /**
   Metadata never repeats within 2^32 sends of one endpoint, whatever the clock does and
   whatever rekeys, handshakes and disposals come between.
   */
  lemma MetadataDistinct(suite: Suite, calls: seq<Call>, i: nat, j: nat)
    requires i < j < |Sent(suite, calls)| && j - i < WORD_RANGE
    ensures |Sent(suite, calls)[i]| >= 12 && |Sent(suite, calls)[j]| >= 12
    ensures Sent(suite, calls)[i][..12] != Sent(suite, calls)[j][..12]
  {
    hide Run, Sent, SequenceOf;
    var sent := Sent(suite, calls);
    SentNumbers(suite, calls);
    assert Numbered(sent[i], i % WORD_RANGE) && Numbered(sent[j], j % WORD_RANGE);
    assert i % WORD_RANGE != j % WORD_RANGE;
    if sent[i][..12] == sent[j][..12] {
      SameNumber(sent[i], sent[j]);
    }
  }

  lemma SameNumber(p: Bytes, q: Bytes)
    requires |p| >= 12 && |q| >= 12 && p[..12] == q[..12]
    ensures SequenceOf(p) == SequenceOf(q)
  {
    assert p[8..12] == p[..12][8..] && q[8..12] == q[..12][8..];
  }

  /** Sends so far never decrease, and an Encrypt call of an established endpoint adds one. */
  lemma {:induction false} SentGrows(suite: Suite, calls: seq<Call>, i: nat)
    requires i <= |calls|
    ensures |Sent(suite, calls[..i])| <= |Sent(suite, calls)|
    ensures i < |calls| && calls[i].CallEncrypt? && Run(suite, calls[..i]).keys.Some?
            ==> |Sent(suite, calls[..i])| < |Sent(suite, calls)|
  {
    hide Run, Emitted;
    if i == |calls| {
      assert calls[..i] == calls;
    } else {
      assert Front(calls)[..i] == calls[..i];
      SentGrows(suite, Front(calls), i);
      if i == |calls| - 1 && calls[i].CallEncrypt? && Run(suite, calls[..i]).keys.Some? {
        assert Front(calls) == calls[..i];
        EncryptEmits(suite, Run(suite, calls[..i]), calls[i]);
      }
    }
  }

  lemma EncryptEmits(suite: Suite, s: Endpoint, call: Call)
    requires call.CallEncrypt? && s.keys.Some?
    ensures |Emitted(suite, s, call)| == 1
  {
  }

  /** The packet of the i-th call, an Encrypt of an established endpoint. */
  ghost predicate EncryptsAt(suite: Suite, calls: seq<Call>, i: nat) {
    i < |calls| && calls[i].CallEncrypt? && Run(suite, calls[..i]).keys.Some?
  }

  ghost function PacketOf(suite: Suite, calls: seq<Call>, i: nat): (packet: Bytes)
    requires EncryptsAt(suite, calls, i)
    ensures |packet| == |calls[i].plain| + 44
  {
    hide Crypt, Tag;
    Encrypt(suite, Run(suite, calls[..i]), calls[i].plain, calls[i].now).result.value
  }

  /** Two Encrypt calls less than 2^32 sends apart give packets with different metadata. */
  lemma EncryptsDiffer(suite: Suite, calls: seq<Call>, i: nat, j: nat)
    requires i < j && EncryptsAt(suite, calls, i) && EncryptsAt(suite, calls, j)
    requires |Sent(suite, calls[..j])| - |Sent(suite, calls[..i])| < WORD_RANGE
    ensures PacketOf(suite, calls, i)[..12] != PacketOf(suite, calls, j)[..12]
  {
    hide Run, Sent, Emitted, Encrypt, FromLE;
    var m, n := |Sent(suite, calls[..i])|, |Sent(suite, calls[..j])|;
    assert calls[..j][..i] == calls[..i];
    SentGrows(suite, calls[..j], i);
    SentNumbers(suite, calls[..i]);
    SentNumbers(suite, calls[..j]);
    PacketLayout(suite, Run(suite, calls[..i]), calls[i].plain, calls[i].now);
    PacketLayout(suite, Run(suite, calls[..j]), calls[j].plain, calls[j].now);
    var p, q := PacketOf(suite, calls, i), PacketOf(suite, calls, j);
    assert p[8..12] == p[..12][8..] && q[8..12] == q[..12][8..];
    assert m % WORD_RANGE != n % WORD_RANGE;
  }

  /**
   No keystream block serves twice: with per-message nonces and the Gimli cipher, the blocks
   that two such calls combine their plaintext bytes with are different, whatever their
   positions, even under the same session key.
   */
  lemma KeystreamBlocksDistinct(suite: Suite, calls: seq<Call>, i: nat, j: nat, p: nat, p': nat)
    requires i < j && EncryptsAt(suite, calls, i) && EncryptsAt(suite, calls, j)
    requires |Sent(suite, calls[..j])| - |Sent(suite, calls[..i])| < WORD_RANGE
    requires suite.perMessageNonce && suite.cipher.GimliCipher?
    requires p < |calls[i].plain| && p / 48 < WORD_RANGE && p' < |calls[j].plain| && p' / 48 < WORD_RANGE
    ensures var key, key' := Run(suite, calls[..i]).keys.value.session, Run(suite, calls[..j]).keys.value.session;
            var packet, packet' := PacketOf(suite, calls, i), PacketOf(suite, calls, j);
            var block, block' := Gimli.Block(key, packet[..12], p / 48), Gimli.Block(key', packet'[..12], p' / 48);
            && packet[12 + p] == calls[i].plain[p] ^ block[p % 48]
            && packet'[12 + p'] == calls[j].plain[p'] ^ block'[p' % 48]
            && block != block'
  {
    hide Run, Sent, Encrypt, Gimli.Block;
    var s, t := Run(suite, calls[..i]), Run(suite, calls[..j]);
    SentNumbers(suite, calls[..i]);
    SentNumbers(suite, calls[..j]);
    EncryptedByte(suite, s, calls[i].plain, calls[i].now, p);
    EncryptedByte(suite, t, calls[j].plain, calls[j].now, p');
    EncryptsDiffer(suite, calls, i, j);
    Gimli.BlockInjective(s.keys.value.session, PacketOf(suite, calls, i)[..12], p / 48,
                         t.keys.value.session, PacketOf(suite, calls, j)[..12], p' / 48);
  }

  // ------------------------------------------------------------ what runs leave alone

  /** Which calls can change the key pair, the peer's key, and an absent session. */
  lemma CallKeeps(suite: Suite, s: Endpoint, call: Call)
    ensures var s' := Next(suite, s, call);
            && (!call.CallGenerateKeyPair? && (s.my.Some? || !call.CallInitialize?) ==> s'.my == s.my)
            && (!call.CallInitialize? ==> s'.peer == s.peer)
            && (s.keys.None? && !call.CallInitialize? && !call.CallFinalize? ==> s'.keys.None?)
            && (call.CallDispose? ==> s'.keys.None?)
  {
    hide Insert, Authentic, TimestampFresh, SequenceOf, TimestampOf, Crypt, Parse, Seal, Metadata, Payload;
  }

  /** Once there is a key pair, only GenerateKeyPair replaces it. */
  lemma {:induction false} PairKept(suite: Suite, calls: seq<Call>, i: nat)
    requires i <= |calls| && Run(suite, calls[..i]).my.Some?
    requires forall j :: i <= j < |calls| ==> !calls[j].CallGenerateKeyPair?
    ensures Run(suite, calls).my == Run(suite, calls[..i]).my
  {
    hide Next;
    if i == |calls| {
      assert calls[..i] == calls;
    } else {
      assert Front(calls)[..i] == calls[..i];
      PairKept(suite, Front(calls), i);
      CallKeeps(suite, Run(suite, Front(calls)), Last(calls));
    }
  }

  /** After Dispose there is no session until the next handshake. */
  lemma {:induction false} DisposedUntilHandshake(suite: Suite, calls: seq<Call>, i: nat)
    requires i < |calls| && calls[i].CallDispose?
    requires forall j :: i < j < |calls| ==> !calls[j].CallInitialize? && !calls[j].CallFinalize?
    ensures Run(suite, calls).keys.None?
  {
    hide Next;
    CallKeeps(suite, Run(suite, Front(calls)), Last(calls));
    if i < |calls| - 1 {
      DisposedUntilHandshake(suite, Front(calls), i);
    }
  }

  // ------------------------------------------------------------ accounting

  /** Does the call install new keys? */
  ghost predicate ChangesKeys(suite: Suite, s: Endpoint, call: Call) {
    match call
    case CallRekey(salt, now) => Rekey(suite, s, salt, now).result.Ok?
    case CallApplyRekey(token, now) => ApplyRekey(suite, s, token, now).result.Ok?
    case CallInitialize(peer, isInitiator, drawn, capsule) => isInitiator && capsule.Ok?
    case CallFinalize(secret) => Finalize(suite, s, secret).result.Ok?
    case _ => false
  }

  /** The plaintexts encrypted by Encrypt calls since the keys last changed. */
  ghost function SinceKeyChange(suite: Suite, calls: seq<Call>): seq<Bytes> {
    if calls == [] then []
    else if ChangesKeys(suite, Run(suite, Front(calls)), Last(calls)) then []
    else if Last(calls).CallEncrypt? && Run(suite, Front(calls)).keys.Some?
    then SinceKeyChange(suite, Front(calls)) + [Last(calls).plain]
    else SinceKeyChange(suite, Front(calls))
  }

  lemma FlattenAppend(chunks: seq<Bytes>, last: Bytes)
    ensures Keystream.Flatten(chunks + [last]) == Keystream.Flatten(chunks) + last
  {
    assert Front(chunks + [last]) == chunks;
  }

  lemma AccountStep(suite: Suite, s: Endpoint, call: Call)
    ensures var s' := Next(suite, s, call);
            if ChangesKeys(suite, s, call) then s'.bytesEncrypted == s'.messagesEncrypted == 0
            else if call.CallEncrypt? && s.keys.Some?
            then s'.bytesEncrypted == s.bytesEncrypted + |call.plain| && s'.messagesEncrypted == s.messagesEncrypted + 1
            else s'.bytesEncrypted == s.bytesEncrypted && s'.messagesEncrypted == s.messagesEncrypted
  {
    hide Insert, Authentic, TimestampFresh, SequenceOf, TimestampOf, Crypt, Parse, Seal, Metadata, Payload;
  }

  /** The statistics are the number and total length of the messages since the last key change. */
  lemma {:induction false} Accounting(suite: Suite, calls: seq<Call>)
    ensures Run(suite, calls).messagesEncrypted == |SinceKeyChange(suite, calls)|
    ensures Run(suite, calls).bytesEncrypted == |Keystream.Flatten(SinceKeyChange(suite, calls))|
  {
    hide Next, ChangesKeys, Keystream.Flatten;
    FlattenNone();
    if calls != [] {
      var before := Run(suite, Front(calls));
      Accounting(suite, Front(calls));
      AccountStep(suite, before, Last(calls));
      if Last(calls).CallEncrypt? {
        FlattenAppend(SinceKeyChange(suite, Front(calls)), Last(calls).plain);
      }
    }
  }

  lemma FlattenNone()
    ensures Keystream.Flatten([]) == []
  {
  }

  // ------------------------------------------------------------ delivery in any order

  datatype Message = Message(plain: Bytes, sentAt: Millis)

  /** The packets an endpoint produces for the messages, one Encrypt each. */
  ghost function Packets(suite: Suite, s: Endpoint, messages: seq<Message>): (r: seq<Bytes>)
    requires s.keys.Some?
    ensures |r| == |messages|
    decreases |messages|
  {
    if messages == [] then []
    else
      var sent := Encrypt(suite, s, messages[0].plain, messages[0].sentAt);
      [sent.result.value] + Packets(suite, sent.state, messages[1..])
  }

  lemma {:induction false} PacketAt(suite: Suite, s: Endpoint, messages: seq<Message>, i: nat)
    requires s.keys.Some? && s.sendSeq < WORD_RANGE && i < |messages|
    ensures Packets(suite, s, messages)[i]
         == Seal(suite, s.keys.value, Metadata(messages[i].sentAt, (s.sendSeq + i) % WORD_RANGE), messages[i].plain)
    decreases i
  {
    hide Seal, Metadata;
    SmallMod(s.sendSeq, WORD_RANGE);
    if i > 0 {
      PacketAt(suite, Encrypt(suite, s, messages[0].plain, messages[0].sentAt).state, messages[1..], i - 1);
      NextNumber(s.sendSeq, i);
    }
  }

  lemma NextNumber(n: nat, i: nat)
    requires i > 0
    ensures ((n + 1) % WORD_RANGE + (i - 1)) % WORD_RANGE == (n + i) % WORD_RANGE
  {
  }

  /** One packet handed to the receiver: which one, and when. */
  datatype Arrival = Arrival(index: nat, now: Millis)

  predicate InRange(arrivals: seq<Arrival>, count: nat) {
    forall i :: 0 <= i < |arrivals| ==> arrivals[i].index < count
  }

  /** The receiver after the arrivals. */
  ghost function Receiver(suite: Suite, r: Endpoint, packets: seq<Bytes>, arrivals: seq<Arrival>): Endpoint
    requires InRange(arrivals, |packets|)
  {
    if arrivals == [] then r
    else
      var last := Last(arrivals);
      Decrypt(suite, Receiver(suite, r, packets, Front(arrivals)), packets[last.index], last.now).state
  }

  /** The numbers of the packets that have arrived. */
  ghost function ArrivedNumbers(first: nat, arrivals: seq<Arrival>): set<nat> {
    if arrivals == [] then {}
    else ArrivedNumbers(first, Front(arrivals)) + {(first + Last(arrivals).index) % WORD_RANGE}
  }

  lemma {:induction false} ArrivedBefore(first: nat, arrivals: seq<Arrival>, n: nat) returns (i: nat)
    requires n in ArrivedNumbers(first, arrivals)
    ensures i < |arrivals| && n == (first + arrivals[i].index) % WORD_RANGE
  {
    i := |arrivals| - 1;
    if n != (first + arrivals[i].index) % WORD_RANGE {
      i := ArrivedBefore(first, arrivals[..i], n);
    }
  }

  /** The window only ever holds numbers that were there or arrived. */
  lemma {:induction false} ReceiverInvariant(suite: Suite, s: Endpoint, r: Endpoint, messages: seq<Message>,
                                             arrivals: seq<Arrival>)
    requires s.keys.Some? && s.sendSeq < WORD_RANGE && r.keys == s.keys && r.received == {}
    requires InRange(arrivals, |messages|)
    ensures var r' := Receiver(suite, r, Packets(suite, s, messages), arrivals);
            r'.keys == s.keys && r'.received <= ArrivedNumbers(s.sendSeq, arrivals)
  {
    hide Seal, Metadata, Decrypt, TimestampFresh, Packets;
    if arrivals != [] {
      var front, last := Front(arrivals), Last(arrivals);
      ReceiverInvariant(suite, s, r, messages, front);
      var before := Receiver(suite, r, Packets(suite, s, messages), front);
      PacketAt(suite, s, messages, last.index);
      OpenSealed(suite, before, messages[last.index].plain, messages[last.index].sentAt,
                 (s.sendSeq + last.index) % WORD_RANGE, last.now);
    }
  }

  /**
   Completeness: a peer with the same keys and an empty window, receiving an endpoint's at
   most 2^32 packets in any order with any repetitions, accepts every packet that first
   arrives within the timestamp tolerance and recovers its plaintext, whatever the window size.
   */
  lemma FirstArrivalDelivers(suite: Suite, s: Endpoint, r: Endpoint, messages: seq<Message>, arrivals: seq<Arrival>,
                             last: Arrival)
    requires s.keys.Some? && s.sendSeq < WORD_RANGE && r.keys == s.keys && r.received == {}
    requires |messages| <= WORD_RANGE
    requires InRange(arrivals, |messages|) && last.index < |messages|
    requires TimestampFresh(last.now, messages[last.index].sentAt, suite.tolerance)
    requires forall i :: 0 <= i < |arrivals| ==> arrivals[i].index != last.index
    ensures |Packets(suite, s, messages)[last.index]| == |messages[last.index].plain| + 44
    ensures Decrypt(suite, Receiver(suite, r, Packets(suite, s, messages), arrivals),
                    Packets(suite, s, messages)[last.index], last.now).result == Ok(messages[last.index].plain)
  {
    hide Seal, Metadata, Decrypt, TimestampFresh, Packets, Receiver, ArrivedNumbers;
    var r' := Receiver(suite, r, Packets(suite, s, messages), arrivals);
    PacketAt(suite, s, messages, last.index);
    ReceiverInvariant(suite, s, r, messages, arrivals);
    NumberIsNew(s.sendSeq, arrivals, last.index, |messages|);
    OpenSealed(suite, r', messages[last.index].plain, messages[last.index].sentAt,
               (s.sendSeq + last.index) % WORD_RANGE, last.now);
  }

  /** A packet that has not arrived has a number that has not arrived. */
  lemma NumberIsNew(first: nat, arrivals: seq<Arrival>, index: nat, count: nat)
    requires InRange(arrivals, count) && index < count <= WORD_RANGE
    requires forall i :: 0 <= i < |arrivals| ==> arrivals[i].index != index
    ensures (first + index) % WORD_RANGE !in ArrivedNumbers(first, arrivals)
  {
    var n := (first + index) % WORD_RANGE;
    if n in ArrivedNumbers(first, arrivals) {
      var i := ArrivedBefore(first, arrivals, n);
      SameIndex(first, arrivals[i].index, index);
    }
  }

  lemma SameIndex(first: nat, i: nat, j: nat)
    requires i < WORD_RANGE && j < WORD_RANGE && (first + i) % WORD_RANGE == (first + j) % WORD_RANGE
    ensures i == j
  {
  }
}
