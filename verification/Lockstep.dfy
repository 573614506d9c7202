/**
 Two endpoints joined by two in-order, loss-free queues. Packets are sealed under whatever keys
 the sender holds and opened under whatever keys the receiver holds at that moment. This module
 proves that, as long as rotations do not cross each other, every rotation token is applied and
 the two key chains stay in step, whatever data crosses them; and that data which does not cross
 a rotation is delivered unchanged and in order.
 */
module Lockstep {
  import opened Wrappers
  import opened ByteStrings
  import opened Words
  import opened KeyRotation
  import opened ReplayWindow
  import opened Session

  datatype Body = Data(plain: Bytes) | Token(salt: Key)

  /** A packet in flight, with a record of its sender's state and of what it put into the packet. */
  datatype Item = Item(packet: Bytes, n: nat, sentAt: Millis, counter: int, body: Body)

  /**
   Both endpoints, the packets on their way from a to b and from b to a, every salt drawn so
   far, and the plaintexts each side has sent and received.
   */
  datatype System = System(
    a: Endpoint, b: Endpoint, ab: seq<Item>, ba: seq<Item>, salts: seq<Key>,
    sentA: seq<Bytes>, gotB: seq<Bytes>, sentB: seq<Bytes>, gotA: seq<Bytes>)

  /** The same system seen from the other side. */
  function Swap(sys: System): System {
    System(sys.b, sys.a, sys.ba, sys.ab, sys.salts, sys.sentB, sys.gotA, sys.sentA, sys.gotB)
  }

  // ------------------------------------------------------------ steps

  /** Endpoint a sends, endpoint a rotates its keys, or endpoint b receives. */
  datatype Action = Send(plain: Bytes, at: Millis) | Rotation(salt: Key, at: Millis) | Receive(at: Millis)

  datatype Event = Event(swapped: bool, action: Action)

  ghost function Act(suite: Suite, sys: System, action: Action): System {
    match action
    case Send(plain, now) =>
      var sent := Encrypt(suite, sys.a, plain, now);
      if sent.result.Err? then sys.(a := sent.state)
      else sys.(a := sent.state, sentA := sys.sentA + [plain],
                ab := sys.ab + [Item(sent.result.value, sys.a.sendSeq, now, sys.a.counter, Data(plain))])
    case Rotation(salt, now) =>
      var sent := Rekey(suite, sys.a, salt, now);
      if sent.result.Err? then sys.(a := sent.state)
      else sys.(a := sent.state, salts := sys.salts + [salt],
                ab := sys.ab + [Item(sent.result.value, sys.a.sendSeq, now, sys.a.counter, Token(salt))])
    case Receive(now) =>
      if sys.ab == [] then sys
      else if sys.ab[0].body.Token? then
        sys.(b := ApplyRekey(suite, sys.b, sys.ab[0].packet, now).state, ab := sys.ab[1..])
      else
        var got := Decrypt(suite, sys.b, sys.ab[0].packet, now);
        sys.(b := got.state, ab := sys.ab[1..],
             gotB := sys.gotB + (if got.result.Ok? then [got.result.value] else []))
  }

  /** The system as the side that acts sees it: itself as a, or as b when it receives. */
  function View(sys: System, swapped: bool): System {
    if swapped then Swap(sys) else sys
  }

  ghost function Step(suite: Suite, sys: System, event: Event): System {
    View(Act(suite, View(sys, event.swapped), event.action), event.swapped)
  }

  /** How many rotations are on their way. */
  function Tokens(items: seq<Item>): nat {
    if items == [] then 0 else (if items[0].body.Token? then 1 else 0) + Tokens(items[1..])
  }

  /**
   The discipline: a side rotates only when no rotation is on its way to it, and tokens arrive
   within the timestamp tolerance; fewer than 2^32 packets and at most 2^32 rotations. Data may
   be sent and may arrive at any time.
   */
  ghost predicate Allowed(suite: Suite, sys: System, action: Action) {
    match action
    case Send(plain, now) => sys.a.sendSeq + 1 < WORD_RANGE
    case Rotation(salt, now) => Tokens(sys.ba) == 0 && sys.a.sendSeq + 1 < WORD_RANGE && |sys.salts| < WORD_RANGE
    case Receive(now) =>
      sys.ab != [] && sys.ab[0].body.Token? ==> TimestampFresh(now, sys.ab[0].sentAt, suite.tolerance)
  }

  ghost predicate Enabled(suite: Suite, sys: System, event: Event) {
    Allowed(suite, View(sys, event.swapped), event.action)
  }

  // ------------------------------------------------------------ the invariant

  /** The keys after the first i rotations. */
  function KeyAt(suite: Suite, first: Keys, salts: seq<Key>, i: nat): Keys
    requires i <= |salts|
  {
    if i == 0 then first else RotatedKeys(suite, KeyAt(suite, first, salts, i - 1), salts[i - 1], Wrap64(i - 1))
  }

  function PlainOf(body: Body, c: int): Bytes {
    if body.Token? then Payload(body.salt, c) else body.plain
  }

  /** The item was sealed under the keys of its sender's rotation; a token is the next rotation. */
  ghost predicate Sealed(suite: Suite, first: Keys, salts: seq<Key>, item: Item) {
    && 0 <= item.counter <= |salts| && item.n < WORD_RANGE
    && item.packet == Seal(suite, KeyAt(suite, first, salts, item.counter), Metadata(item.sentAt, item.n),
                           PlainOf(item.body, item.counter))
    && (item.body.Token? ==> item.counter < |salts| && item.body.salt == salts[item.counter])
  }

  /** An item that meets its receiver at rotation c: a token exactly there, data there or earlier. */
  ghost predicate Placed(suite: Suite, first: Keys, salts: seq<Key>, item: Item, c: nat) {
    Sealed(suite, first, salts, item) && item.counter <= c && (item.body.Token? ==> item.counter == c)
  }

  function After(item: Item, c: nat): nat {
    if item.body.Token? then c + 1 else c
  }

  /** The queue of a receiver at rotation c. */
  ghost predicate InFlight(suite: Suite, first: Keys, salts: seq<Key>, items: seq<Item>, c: nat) {
    items == []
    || (Placed(suite, first, salts, items[0], c) && InFlight(suite, first, salts, items[1..], After(items[0], c)))
  }

  /** Numbers in flight increase, lie below the sender's next one and above all the receiver holds. */
  ghost predicate Ordered(items: seq<Item>, received: set<nat>, next: nat) {
    && next < WORD_RANGE
    && (forall x :: x in received ==> x < next)
    && (forall i :: 0 <= i < |items| ==> items[i].n < next)
    && (forall i, j :: 0 <= i < j < |items| ==> items[i].n < items[j].n)
    && (forall x, i :: x in received && 0 <= i < |items| ==> x < items[i].n)
  }

  /** What holds of one endpoint and of the packets on their way to it. */
  ghost predicate Side(suite: Suite, first: Keys, salts: seq<Key>, r: Endpoint, items: seq<Item>, next: nat) {
    && 0 <= r.counter && r.counter + Tokens(items) == |salts| <= WORD_RANGE
    && r.keys == Some(KeyAt(suite, first, salts, r.counter))
    && InFlight(suite, first, salts, items, r.counter)
    && Ordered(items, r.received, next)
  }

  ghost predicate Synced(suite: Suite, first: Keys, sys: System) {
    && Side(suite, first, sys.salts, sys.b, sys.ab, sys.a.sendSeq)
    && Side(suite, first, sys.salts, sys.a, sys.ba, sys.b.sendSeq)
    && (Tokens(sys.ab) == 0 || Tokens(sys.ba) == 0)
  }

  // ------------------------------------------------------------ appending to a queue

  lemma {:induction false} TokensAppend(items: seq<Item>, item: Item)
    ensures Tokens(items + [item]) == Tokens(items) + Tokens([item])
    ensures Tokens([item]) == if item.body.Token? then 1 else 0
  {
    if items != [] {
      TokensAppend(items[1..], item);
      assert (items + [item])[1..] == items[1..] + [item];
    }
  }

  lemma {:induction false} InFlightAppend(suite: Suite, first: Keys, salts: seq<Key>, items: seq<Item>, c: nat,
                                          item: Item)
    requires InFlight(suite, first, salts, items, c)
    requires Placed(suite, first, salts, item, c + Tokens(items))
    ensures InFlight(suite, first, salts, items + [item], c)
  {
    hide Placed;
    if items == [] {
      assert (items + [item])[1..] == [];
    } else {
      InFlightAppend(suite, first, salts, items[1..], After(items[0], c), item);
      assert (items + [item])[1..] == items[1..] + [item];
    }
  }

  /** The first keys of a chain do not depend on later salts. */
  lemma {:induction false} KeyAtPrefix(suite: Suite, first: Keys, salts: seq<Key>, more: seq<Key>, i: nat)
    requires i <= |salts| && salts <= more
    ensures KeyAt(suite, first, salts, i) == KeyAt(suite, first, more, i)
  {
    if i > 0 {
      KeyAtPrefix(suite, first, salts, more, i - 1);
    }
  }

  lemma {:induction false} InFlightPrefix(suite: Suite, first: Keys, salts: seq<Key>, more: seq<Key>,
                                          items: seq<Item>, c: nat)
    requires InFlight(suite, first, salts, items, c) && salts <= more
    ensures InFlight(suite, first, more, items, c)
  {
    if items != [] {
      SealedPrefix(suite, first, salts, more, items[0]);
      InFlightPrefix(suite, first, salts, more, items[1..], After(items[0], c));
    }
  }

  lemma SealedPrefix(suite: Suite, first: Keys, salts: seq<Key>, more: seq<Key>, item: Item)
    requires Sealed(suite, first, salts, item) && salts <= more
    ensures Sealed(suite, first, more, item)
  {
    hide Seal, KeyAt, Metadata;
    KeyAtPrefix(suite, first, salts, more, item.counter);
  }

  /** A receiver that rotates meets a queue of data one rotation later. */
  lemma {:induction false} InFlightLater(suite: Suite, first: Keys, salts: seq<Key>, items: seq<Item>, c: nat)
    requires InFlight(suite, first, salts, items, c) && Tokens(items) == 0
    ensures InFlight(suite, first, salts, items, c + 1)
  {
    hide Sealed;
    if items != [] {
      InFlightLater(suite, first, salts, items[1..], c);
    }
  }

  lemma OrderedAppend(items: seq<Item>, received: set<nat>, next: nat, item: Item)
    requires Ordered(items, received, next) && item.n == next && next + 1 < WORD_RANGE
    ensures Ordered(items + [item], received, next + 1)
  {
  }

  /** One more packet on its way keeps a side in step. */
  lemma SideAppend(suite: Suite, first: Keys, salts: seq<Key>, more: seq<Key>, r: Endpoint, items: seq<Item>,
                   next: nat, item: Item)
    requires Side(suite, first, salts, r, items, next)
    requires salts <= more && |more| <= WORD_RANGE && |more| == |salts| + Tokens([item])
    requires Placed(suite, first, more, item, |salts|) && item.n == next && next + 1 < WORD_RANGE
    ensures Side(suite, first, more, r, items + [item], next + 1)
  {
    hide InFlight, Placed, KeyAt, Ordered, Tokens;
    KeyAtPrefix(suite, first, salts, more, r.counter);
    InFlightPrefix(suite, first, salts, more, items, r.counter);
    InFlightAppend(suite, first, more, items, r.counter, item);
    TokensAppend(items, item);
    OrderedAppend(items, r.received, next, item);
  }

  // ------------------------------------------------------------ taking from a queue

  lemma InsertSubset(window: set<nat>, n: nat, max: int)
    ensures Insert(window, n, max) <= window + {n}
  {
  }

  lemma OrderedTake(items: seq<Item>, received: set<nat>, received': set<nat>, next: nat)
    requires items != [] && Ordered(items, received, next) && received' <= received + {items[0].n}
    ensures items[0].n !in received
    ensures Ordered(items[1..], received', next)
  {
  }

  /** Receiving any packet numbered n touches only the window, and there only n. */
  lemma DecryptTouchesWindow(suite: Suite, r: Endpoint, packet: Bytes, n: nat, now: Millis)
    requires Numbered(packet, n)
    ensures var r' := Decrypt(suite, r, packet, now).state;
            r' == r.(received := r'.received) && r'.received <= r.received + {n}
  {
    hide Insert, Tag, TimestampFresh, SequenceOf, TimestampOf, Crypt;
    InsertSubset(r.received, n, suite.maxPacketWindow);
  }

  /**
   Receiving data keeps the side in step and leaves its keys and counter alone, whatever it was
   sealed under. Data that meets the rotation it was sealed at, in time, gives its plaintext.
   */
  lemma TakeData(suite: Suite, first: Keys, salts: seq<Key>, r: Endpoint, items: seq<Item>, next: nat, now: Millis)
    requires Side(suite, first, salts, r, items, next) && items != [] && items[0].body.Data?
    ensures var taken := Decrypt(suite, r, items[0].packet, now);
            && taken.state == r.(received := taken.state.received)
            && Side(suite, first, salts, taken.state, items[1..], next)
            && (items[0].counter == r.counter && TimestampFresh(now, items[0].sentAt, suite.tolerance)
                ==> taken.result == Ok(items[0].body.plain))
  {
    hide KeyAt, Ordered, Seal, Metadata, TimestampFresh, Insert, Decrypt, Numbered;
    var item := items[0];
    SealNumbered(suite, KeyAt(suite, first, salts, item.counter), item.sentAt, item.n, item.body.plain);
    DecryptTouchesWindow(suite, r, item.packet, item.n, now);
    OrderedTake(items, r.received, Decrypt(suite, r, item.packet, now).state.received, next);
    OpenSealed(suite, r, item.body.plain, item.sentAt, item.n, now);
  }

  /** A token sealed at the receiver's rotation takes it to the next one. */
  lemma TokenApplies(suite: Suite, first: Keys, salts: seq<Key>, r: Endpoint, item: Item, c: nat, now: Millis)
    requires |salts| <= WORD_RANGE && Placed(suite, first, salts, item, c) && item.body.Token?
    requires r.counter == c && r.keys == Some(KeyAt(suite, first, salts, c))
    requires item.n !in r.received && TimestampFresh(now, item.sentAt, suite.tolerance)
    ensures ApplyRekey(suite, r, item.packet, now) ==
            Outcome(r.(keys := Some(KeyAt(suite, first, salts, c + 1)), counter := c + 1, bytesEncrypted := 0,
                       messagesEncrypted := 0, received := Insert(r.received, item.n, suite.maxPacketWindow)), Ok(()))
  {
    hide Seal, Metadata, TimestampFresh, Insert, ApplyRekey, RotatedKeys, Wrap64;
    ApplySealedToken(suite, r, item.body.salt, c, item.sentAt, item.n, now);
    WrapInRange(c);
    WrapInRange(c + 1);
  }

  /** Receiving a token: it is applied and the side stays in step, one rotation further. */
  lemma TakeToken(suite: Suite, first: Keys, salts: seq<Key>, r: Endpoint, items: seq<Item>, next: nat, now: Millis)
    requires Side(suite, first, salts, r, items, next)
    requires items != [] && items[0].body.Token? && TimestampFresh(now, items[0].sentAt, suite.tolerance)
    ensures var applied := ApplyRekey(suite, r, items[0].packet, now);
            && applied.result == Ok(()) && applied.state.counter == r.counter + 1
            && applied.state.sendSeq == r.sendSeq
            && Side(suite, first, salts, applied.state, items[1..], next)
  {
    hide Ordered, Sealed, TimestampFresh, Insert, ApplyRekey, KeyAt;
    var item := items[0];
    OrderedTake(items, r.received, r.received, next);
    TokenApplies(suite, first, salts, r, item, r.counter, now);
    InsertSubset(r.received, item.n, suite.maxPacketWindow);
    OrderedTake(items, r.received, Insert(r.received, item.n, suite.maxPacketWindow), next);
  }

  // ------------------------------------------------------------ every step

  /** The other queue's side does not care what its receiver sends or how its statistics stand. */
  lemma SideKept(suite: Suite, first: Keys, salts: seq<Key>, r: Endpoint, r': Endpoint, items: seq<Item>, next: nat)
    requires Side(suite, first, salts, r, items, next)
    requires r'.keys == r.keys && r'.counter == r.counter && r'.received == r.received
    ensures Side(suite, first, salts, r', items, next)
  {
  }

  lemma SendKeeps(suite: Suite, first: Keys, sys: System, plain: Bytes, now: Millis)
    requires Synced(suite, first, sys) && Allowed(suite, sys, Send(plain, now))
    ensures Synced(suite, first, Act(suite, sys, Send(plain, now)))
  {
    hide Side, Seal, Metadata, KeyAt;
    var sent := Encrypt(suite, sys.a, plain, now);
    HoldsKeys(suite, first, sys);
    var item := Item(sent.result.value, sys.a.sendSeq, now, sys.a.counter, Data(plain));
    TokensAppend(sys.ab, item);
    SideAppend(suite, first, sys.salts, sys.salts, sys.b, sys.ab, sys.a.sendSeq, item);
    SideKept(suite, first, sys.salts, sys.a, sent.state, sys.ba, sys.b.sendSeq);
  }

  /** Each side holds the keys of its counter, the newest ones when no token is on its way to it. */
  lemma HoldsKeys(suite: Suite, first: Keys, sys: System)
    requires Synced(suite, first, sys)
    ensures 0 <= sys.a.counter && sys.a.counter + Tokens(sys.ba) == |sys.salts| <= WORD_RANGE
    ensures sys.a.keys == Some(KeyAt(suite, first, sys.salts, sys.a.counter))
    ensures sys.a.sendSeq < WORD_RANGE
  {
  }

  lemma RotationKeeps(suite: Suite, first: Keys, sys: System, salt: Key, now: Millis)
    requires Synced(suite, first, sys) && Allowed(suite, sys, Rotation(salt, now))
    ensures Synced(suite, first, Act(suite, sys, Rotation(salt, now)))
  {
    hide Side, Seal, Metadata, Payload, RotatedKeys, Wrap64;
    var sent := Rekey(suite, sys.a, salt, now);
    var c, more := |sys.salts|, sys.salts + [salt];
    HoldsKeys(suite, first, sys);
    KeyAtPrefix(suite, first, sys.salts, more, c);
    WrapInRange(c);
    WrapInRange(c + 1);
    var item := Item(sent.result.value, sys.a.sendSeq, now, sys.a.counter, Token(salt));
    TokensAppend(sys.ab, item);
    SideAppend(suite, first, sys.salts, more, sys.b, sys.ab, sys.a.sendSeq, item);
    RotatedSide(suite, first, sys.salts, more, sys.a, sent.state, sys.ba, sys.b.sendSeq);
  }

  /** The rotating side, with only data on its way to it, moves to the end of the longer chain. */
  lemma RotatedSide(suite: Suite, first: Keys, salts: seq<Key>, more: seq<Key>, r: Endpoint, r': Endpoint,
                    items: seq<Item>, next: nat)
    requires Side(suite, first, salts, r, items, next) && Tokens(items) == 0
    requires salts <= more && |more| == |salts| + 1 <= WORD_RANGE
    requires r'.counter == |more| && r'.keys == Some(KeyAt(suite, first, more, |more|)) && r'.received == r.received
    ensures Side(suite, first, more, r', items, next)
  {
    hide InFlight, Ordered, KeyAt;
    InFlightPrefix(suite, first, salts, more, items, r.counter);
    InFlightLater(suite, first, more, items, r.counter);
  }

  lemma ReceiveKeeps(suite: Suite, first: Keys, sys: System, now: Millis)
    requires Synced(suite, first, sys) && Allowed(suite, sys, Receive(now))
    ensures Synced(suite, first, Act(suite, sys, Receive(now)))
  {
    hide Side, TimestampFresh, ApplyRekey, Decrypt;
    if sys.ab != [] {
      if sys.ab[0].body.Token? {
        TakeToken(suite, first, sys.salts, sys.b, sys.ab, sys.a.sendSeq, now);
      } else {
        TakeData(suite, first, sys.salts, sys.b, sys.ab, sys.a.sendSeq, now);
      }
    }
  }

  lemma SwapKeeps(suite: Suite, first: Keys, sys: System)
    ensures Synced(suite, first, Swap(sys)) <==> Synced(suite, first, sys)
  {
  }

  /** Every allowed step of either side keeps the system in step. */
  lemma StepKeeps(suite: Suite, first: Keys, sys: System, event: Event)
    requires Synced(suite, first, sys) && Enabled(suite, sys, event)
    ensures Synced(suite, first, Step(suite, sys, event))
  {
    hide Synced, Act, Allowed;
    var view := View(sys, event.swapped);
    SwapKeeps(suite, first, sys);
    match event.action {
      case Send(plain, now) => SendKeeps(suite, first, view, plain, now);
      case Rotation(salt, now) => RotationKeeps(suite, first, view, salt, now);
      case Receive(now) => ReceiveKeeps(suite, first, view, now);
    }
    SwapKeeps(suite, first, Act(suite, view, event.action));
  }

  // ------------------------------------------------------------ whole runs

  ghost function Run(suite: Suite, sys: System, events: seq<Event>): System {
    if events == [] then sys else Step(suite, Run(suite, sys, Front(events)), Last(events))
  }

  /** Every event is allowed at the moment it happens. */
  ghost predicate Disciplined(suite: Suite, sys: System, events: seq<Event>) {
    events != [] ==>
      && Disciplined(suite, sys, Front(events))
      && Enabled(suite, Run(suite, sys, Front(events)), Last(events))
  }

  /**
   Two endpoints right after a handshake: same keys, counters zero, nothing in flight. They may
   be new, or keep their sequence numbers and windows from an earlier session.
   */
  ghost predicate Started(sys: System) {
    && sys.a.keys.Some? && sys.a.keys == sys.b.keys && sys.a.counter == sys.b.counter == 0
    && sys.a.sendSeq < WORD_RANGE && (forall x :: x in sys.b.received ==> x < sys.a.sendSeq)
    && sys.b.sendSeq < WORD_RANGE && (forall x :: x in sys.a.received ==> x < sys.b.sendSeq)
    && sys.ab == sys.ba == [] && sys.salts == []
    && sys.sentA == sys.gotB == sys.sentB == sys.gotA == []
  }

  lemma {:induction false} RunKeeps(suite: Suite, sys: System, events: seq<Event>)
    requires Started(sys) && Disciplined(suite, sys, events)
    ensures Synced(suite, sys.a.keys.value, Run(suite, sys, events))
  {
    hide Enabled, Step;
    if events == [] {
      StartSynced(suite, sys);
    } else {
      RunKeeps(suite, sys, Front(events));
      StepKeeps(suite, sys.a.keys.value, Run(suite, sys, Front(events)), Last(events));
    }
  }

  lemma StartSynced(suite: Suite, sys: System)
    requires Started(sys)
    ensures Synced(suite, sys.a.keys.value, sys)
  {
  }

  /**
   Every token that arrives is applied. Data leaves the receiver's keys and counter alone; it
   gives its plaintext when it arrives in time at the rotation it was sealed at.
   */
  lemma EveryArrival(suite: Suite, sys: System, events: seq<Event>, swapped: bool, now: Millis)
    requires Started(sys) && Disciplined(suite, sys, events + [Event(swapped, Receive(now))])
    ensures var view := View(Run(suite, sys, events), swapped);
            view.ab != [] ==>
              var item := view.ab[0];
              if item.body.Token? then
                var applied := ApplyRekey(suite, view.b, item.packet, now);
                applied.result == Ok(()) && applied.state.counter == view.b.counter + 1
              else
                var taken := Decrypt(suite, view.b, item.packet, now);
                && taken.state == view.b.(received := taken.state.received)
                && (item.counter == view.b.counter && TimestampFresh(now, item.sentAt, suite.tolerance)
                    ==> taken.result == Ok(item.body.plain))
  {
    hide Run, Decrypt, ApplyRekey, Side, TimestampFresh;
    var first := sys.a.keys.value;
    assert Front(events + [Event(swapped, Receive(now))]) == events;
    RunKeeps(suite, sys, events);
    var view := View(Run(suite, sys, events), swapped);
    SwapKeeps(suite, first, Run(suite, sys, events));
    if view.ab != [] {
      if view.ab[0].body.Token? {
        TakeToken(suite, first, view.salts, view.b, view.ab, view.a.sendSeq, now);
      } else {
        TakeData(suite, first, view.salts, view.b, view.ab, view.a.sendSeq, now);
      }
    }
  }

  /** How far behind an endpoint is: one rotation per token on its way to it. */
  lemma CountersCount(suite: Suite, sys: System, events: seq<Event>)
    requires Started(sys) && Disciplined(suite, sys, events)
    ensures var now := Run(suite, sys, events);
            && now.b.counter + Tokens(now.ab) == |now.salts|
            && now.a.counter + Tokens(now.ba) == |now.salts|
            && (Tokens(now.ab) == 0 || Tokens(now.ba) == 0)
  {
    hide Run, Disciplined, InFlight, Ordered, KeyAt;
    RunKeeps(suite, sys, events);
  }

  /** When no token is on its way, both endpoints hold the same keys and counter. */
  lemma QuietMeansEqual(suite: Suite, sys: System, events: seq<Event>)
    requires Started(sys) && Disciplined(suite, sys, events)
    requires Tokens(Run(suite, sys, events).ab) == Tokens(Run(suite, sys, events).ba) == 0
    ensures var now := Run(suite, sys, events);
            now.a.keys == now.b.keys && now.a.keys.Some? && now.a.counter == now.b.counter == |now.salts|
  {
    hide Run, Disciplined, InFlight, Ordered, KeyAt;
    RunKeeps(suite, sys, events);
  }

  // ------------------------------------------------------------ equal counters, equal keys

  lemma SaltsGrow(suite: Suite, sys: System, event: Event)
    ensures sys.salts <= Step(suite, sys, event).salts
  {
    hide Encrypt, Rekey, Decrypt, ApplyRekey;
  }

  lemma {:induction false} SaltsPrefix(suite: Suite, sys: System, events: seq<Event>, i: nat)
    requires i <= |events|
    ensures Run(suite, sys, events[..i]).salts <= Run(suite, sys, events).salts
  {
    hide Step;
    if i == |events| {
      assert events[..i] == events;
    } else {
      SaltsPrefix(suite, sys, Front(events), i);
      assert Front(events)[..i] == events[..i];
      SaltsGrow(suite, Run(suite, sys, Front(events)), Last(events));
    }
  }

  lemma {:induction false} DisciplinedPrefix(suite: Suite, sys: System, events: seq<Event>, i: nat)
    requires Disciplined(suite, sys, events) && i <= |events|
    ensures Disciplined(suite, sys, events[..i])
  {
    hide Enabled;
    if i == |events| {
      assert events[..i] == events;
    } else {
      DisciplinedPrefix(suite, sys, Front(events), i);
      assert Front(events)[..i] == events[..i];
    }
  }

  function EndpointOf(sys: System, sideB: bool): Endpoint {
    if sideB then sys.b else sys.a
  }

  /**
   Lockstep of the key chains: at any two moments of a run, endpoints whose rotation counters
   are equal hold equal keys. So after applying k tokens the receiver has exactly the session
   and MAC keys its peer had after its k-th rotation.
   */
  lemma EqualCountersEqualKeys(suite: Suite, sys: System, events: seq<Event>, i: nat, sideI: bool, sideJ: bool)
    requires Started(sys) && Disciplined(suite, sys, events) && i <= |events|
    requires EndpointOf(Run(suite, sys, events[..i]), sideI).counter
          == EndpointOf(Run(suite, sys, events), sideJ).counter
    ensures EndpointOf(Run(suite, sys, events[..i]), sideI).keys == EndpointOf(Run(suite, sys, events), sideJ).keys
    ensures EndpointOf(Run(suite, sys, events), sideJ).keys.Some?
  {
    hide Run, Disciplined, InFlight, Ordered;
    var first := sys.a.keys.value;
    var before, now := Run(suite, sys, events[..i]), Run(suite, sys, events);
    DisciplinedPrefix(suite, sys, events, i);
    RunKeeps(suite, sys, events[..i]);
    RunKeeps(suite, sys, events);
    SaltsPrefix(suite, sys, events, i);
    KeyAtPrefix(suite, first, before.salts, now.salts, EndpointOf(before, sideI).counter);
  }

  // ------------------------------------------------------------ what is delivered

  /** The plaintexts on their way. */
  function Pending(items: seq<Item>): seq<Bytes> {
    if items == [] then []
    else (if items[0].body.Data? then [items[0].body.plain] else []) + Pending(items[1..])
  }

  lemma {:induction false} PendingAppend(items: seq<Item>, item: Item)
    ensures Pending(items + [item]) == Pending(items) + (if item.body.Data? then [item.body.plain] else [])
  {
    if items != [] {
      PendingAppend(items[1..], item);
      assert (items + [item])[1..] == items[1..] + [item];
    } else {
      assert (items + [item])[1..] == [];
    }
  }

  /** Data that is received meets the rotation it was sealed at, in time. */
  ghost predicate Matched(suite: Suite, sys: System, action: Action) {
    action.Receive? && sys.ab != [] && sys.ab[0].body.Data? ==>
      sys.ab[0].counter == sys.b.counter && TimestampFresh(action.at, sys.ab[0].sentAt, suite.tolerance)
  }

  /** No data crossed a rotation on its way. */
  ghost predicate Uncrossed(suite: Suite, sys: System, events: seq<Event>) {
    events != [] ==>
      && Uncrossed(suite, sys, Front(events))
      && Matched(suite, View(Run(suite, sys, Front(events)), Last(events).swapped), Last(events).action)
  }

  predicate Delivered(sys: System) {
    sys.gotB + Pending(sys.ab) == sys.sentA && sys.gotA + Pending(sys.ba) == sys.sentB
  }

  lemma DeliveredStep(suite: Suite, first: Keys, sys: System, action: Action)
    requires Synced(suite, first, sys) && Delivered(sys) && Matched(suite, sys, action)
    ensures Delivered(Act(suite, sys, action))
  {
    hide Side, Encrypt, Rekey, Decrypt, ApplyRekey, TimestampFresh;
    var sys' := Act(suite, sys, action);
    if action.Receive? {
      if sys.ab != [] && sys.ab[0].body.Data? {
        TakeData(suite, first, sys.salts, sys.b, sys.ab, sys.a.sendSeq, action.at);
        assert sys.gotB + Pending(sys.ab) == sys.gotB + [sys.ab[0].body.plain] + Pending(sys.ab[1..]);
      } else if sys.ab != [] {
        assert [] + Pending(sys.ab[1..]) == Pending(sys.ab[1..]);
      }
    } else if sys'.ab != sys.ab {
      var item := sys'.ab[|sys.ab|];
      assert sys'.ab == sys.ab + [item];
      PendingAppend(sys.ab, item);
      assert sys'.sentA == sys.sentA + (if item.body.Data? then [item.body.plain] else []);
    }
  }

  lemma {:induction false} UncrossedDelivers(suite: Suite, sys: System, events: seq<Event>)
    requires Started(sys) && Disciplined(suite, sys, events) && Uncrossed(suite, sys, events)
    ensures Delivered(Run(suite, sys, events))
  {
    hide Synced, Act, Enabled, Matched;
    if events != [] {
      var before, event := Run(suite, sys, Front(events)), Last(events);
      UncrossedDelivers(suite, sys, Front(events));
      RunKeeps(suite, sys, Front(events));
      SwapKeeps(suite, sys.a.keys.value, before);
      DeliveredStep(suite, sys.a.keys.value, View(before, event.swapped), event.action);
    }
  }

  /**
   Delivery: at every point of every run in which no data crosses a rotation, what each side
   has received is, in order, what the other sent, up to the packets still on their way.
   Nothing is lost, repeated, reordered or changed, across any number of rotations.
   */
  lemma ReceivedIsSent(suite: Suite, sys: System, events: seq<Event>)
    requires Started(sys) && Disciplined(suite, sys, events) && Uncrossed(suite, sys, events)
    ensures var now := Run(suite, sys, events);
            && now.gotB + Pending(now.ab) == now.sentA && now.gotA + Pending(now.ba) == now.sentB
            && (now.ab == now.ba == [] ==> now.gotB == now.sentA && now.gotA == now.sentB)
  {
    hide Run, Disciplined, Uncrossed;
    UncrossedDelivers(suite, sys, events);
  }

  // ------------------------------------------------------------ when no data crosses

  /** Data is sent by sides with nothing to catch up on, and rotation waits for an empty queue. */
  ghost predicate Cautious(suite: Suite, sys: System, action: Action) {
    match action
    case Send(plain, now) => Tokens(sys.ba) == 0
    case Rotation(salt, now) => sys.ba == []
    case Receive(now) => sys.ab != [] ==> TimestampFresh(now, sys.ab[0].sentAt, suite.tolerance)
  }

  ghost predicate CautiousRun(suite: Suite, sys: System, events: seq<Event>) {
    events != [] ==>
      && CautiousRun(suite, sys, Front(events))
      && Cautious(suite, View(Run(suite, sys, Front(events)), Last(events).swapped), Last(events).action)
  }

  /** Every item meets exactly the rotation it was sealed at. */
  ghost predicate Aligned(items: seq<Item>, c: int) {
    items == [] || (items[0].counter == c && Aligned(items[1..], if items[0].body.Token? then c + 1 else c))
  }

  lemma {:induction false} AlignedAppend(items: seq<Item>, c: int, item: Item)
    requires Aligned(items, c) && item.counter == c + Tokens(items)
    ensures Aligned(items + [item], c)
  {
    if items == [] {
      assert (items + [item])[1..] == [];
    } else {
      AlignedAppend(items[1..], if items[0].body.Token? then c + 1 else c, item);
      assert (items + [item])[1..] == items[1..] + [item];
    }
  }

  ghost predicate BothAligned(sys: System) {
    Aligned(sys.ab, sys.b.counter) && Aligned(sys.ba, sys.a.counter)
  }

  lemma AlignedStep(suite: Suite, first: Keys, sys: System, action: Action)
    requires Synced(suite, first, sys) && Allowed(suite, sys, action)
    requires BothAligned(sys) && Cautious(suite, sys, action)
    ensures Matched(suite, sys, action) && BothAligned(Act(suite, sys, action))
  {
    hide Side, Encrypt, Rekey, Decrypt, ApplyRekey, TimestampFresh;
    var sys' := Act(suite, sys, action);
    HoldsKeys(suite, first, sys);
    HoldsKeys(suite, first, Swap(sys));
    match action {
      case Receive(now) =>
        AlignedReceive(suite, first, sys, now);
      case Send(plain, now) =>
        SenderKeepsCounter(suite, sys.a, plain, now);
        AlignedAppend(sys.ab, sys.b.counter, sys'.ab[|sys.ab|]);
      case Rotation(salt, now) =>
        RotationSends(suite, sys.a, salt, now);
        AlignedAppend(sys.ab, sys.b.counter, sys'.ab[|sys.ab|]);
    }
  }

  lemma AlignedReceive(suite: Suite, first: Keys, sys: System, now: Millis)
    requires Synced(suite, first, sys) && BothAligned(sys) && Cautious(suite, sys, Receive(now))
    ensures Matched(suite, sys, Receive(now)) && BothAligned(Act(suite, sys, Receive(now)))
  {
    hide Side, Decrypt, ApplyRekey, TimestampFresh;
    if sys.ab != [] && sys.ab[0].body.Token? {
      TakeToken(suite, first, sys.salts, sys.b, sys.ab, sys.a.sendSeq, now);
    } else if sys.ab != [] {
      TakeData(suite, first, sys.salts, sys.b, sys.ab, sys.a.sendSeq, now);
    }
  }

  lemma SenderKeepsCounter(suite: Suite, s: Endpoint, plain: Bytes, now: Millis)
    requires s.keys.Some?
    ensures Encrypt(suite, s, plain, now).result.Ok? && Encrypt(suite, s, plain, now).state.counter == s.counter
  {
  }

  lemma RotationSends(suite: Suite, s: Endpoint, salt: Key, now: Millis)
    requires s.keys.Some?
    ensures Rekey(suite, s, salt, now).result.Ok?
  {
  }

  /** In cautious runs no data crosses a rotation, so everything sent is received. */
  lemma {:induction false} CautiousUncrossed(suite: Suite, sys: System, events: seq<Event>)
    requires Started(sys) && Disciplined(suite, sys, events) && CautiousRun(suite, sys, events)
    ensures Uncrossed(suite, sys, events) && BothAligned(Run(suite, sys, events))
  {
    hide Synced, Act, Allowed, Cautious, Matched;
    if events != [] {
      var before, event := Run(suite, sys, Front(events)), Last(events);
      CautiousUncrossed(suite, sys, Front(events));
      RunKeeps(suite, sys, Front(events));
      SwapKeeps(suite, sys.a.keys.value, before);
      AlignedStep(suite, sys.a.keys.value, View(before, event.swapped), event.action);
    }
  }

  // ------------------------------------------------------------ why rotations must not cross

  /**
   What becomes of a token sealed under `keys` at rotation c at a peer that has made rotation c
   itself meanwhile. With a bad tag under the peer's new keys it is refused by the MAC; if those
   keys are the ones it was sealed under, by its counter; and it is applied exactly when, read
   under the new keys, it passes for a token of rotation c + 1.
   */
  ghost predicate CrossedOutcome(suite: Suite, keys: Keys, c: nat, r: Endpoint, token: Bytes, now: Millis)
    requires r.keys.Some? && |token| >= 44
  {
    var result := ApplyRekey(suite, r, token, now).result;
    && (!Authentic(suite, r.keys.value, token) ==> result == Err(MacVerificationFailed))
    && (r.keys.value == keys ==> result == Err(RekeyCounterMismatch))
    && (result.Ok? <==>
          && Authentic(suite, r.keys.value, token)
          && var parsed := Parse(Crypt(suite, r.keys.value, token[..12], token[12..|token| - 32]));
          parsed.Fields? && parsed.counter == c + 1)
  }

  lemma CrossedToken(suite: Suite, keys: Keys, c: nat, salt: Key, r: Endpoint, ts: Millis, n: nat, now: Millis)
    requires c < WORD_RANGE && r.counter == c + 1 && r.keys.Some?
    requires n < WORD_RANGE && n !in r.received && TimestampFresh(now, ts, suite.tolerance)
    ensures CrossedOutcome(suite, keys, c, r, Seal(suite, keys, Metadata(ts, n), Payload(salt, c)), now)
  {
    hide Metadata, Payload, TimestampFresh, TimestampOf, SequenceOf, Crypt, Parse, Rotate, Tag, Insert;
    var token := Seal(suite, keys, Metadata(ts, n), Payload(salt, c));
    SealParts(suite, keys, Metadata(ts, n), Payload(salt, c));
    assert token == Metadata(ts, n) + token[12..];
    MetadataParts(ts, n, token[12..]);
    ApplyRekeySucceedsExactly(suite, r, token, now);
    ApplySealedToken(suite, r, salt, c, ts, n, now);
  }

  /** Both sides rotate before either has the other's token. */
  ghost function Crossing(suite: Suite, sys: System, saltA: Key, saltB: Key, now: Millis): System {
    Run(suite, sys, [Event(false, Rotation(saltA, now)), Event(true, Rotation(saltB, now))])
  }

  lemma CrossingState(suite: Suite, sys: System, saltA: Key, saltB: Key, now: Millis)
    requires Started(sys)
    ensures var crossed, keys := Crossing(suite, sys, saltA, saltB, now), sys.a.keys.value;
            && |crossed.ab| == |crossed.ba| == 1 && crossed.a.counter == crossed.b.counter == 1
            && crossed.a.keys == Some(RotatedKeys(suite, keys, saltA, 0))
            && crossed.b.keys == Some(RotatedKeys(suite, keys, saltB, 0))
            && crossed.ab[0].packet == Seal(suite, keys, Metadata(now, sys.a.sendSeq), Payload(saltA, 0))
            && crossed.ba[0].packet == Seal(suite, keys, Metadata(now, sys.b.sendSeq), Payload(saltB, 0))
            && sys.a.sendSeq !in crossed.b.received && sys.b.sendSeq !in crossed.a.received
  {
    hide Seal, Metadata, Payload, Wrap64, RotatedKeys;
    var rotateA, rotateB := Event(false, Rotation(saltA, now)), Event(true, Rotation(saltB, now));
    assert Front([rotateA, rotateB]) == [rotateA] && Front([rotateA]) == [];
    assert Run(suite, sys, [rotateA]) == Step(suite, sys, rotateA) by {
      assert Run(suite, sys, []) == sys;
    }
    WrapInRange(1);
  }

  /**
   Rotations must not cross: for every suite and any two salts, both tokens of a crossing meet
   that fate, whatever the tags.
   */
  lemma CrossedRotationsFail(suite: Suite, sys: System, saltA: Key, saltB: Key, now: Millis)
    requires Started(sys) && suite.tolerance >= 0
    ensures var crossed := Crossing(suite, sys, saltA, saltB, now);
            && |crossed.ab| == |crossed.ba| == 1 && crossed.a.keys.Some? && crossed.b.keys.Some?
            && |crossed.ab[0].packet| >= 44 && |crossed.ba[0].packet| >= 44
            && CrossedOutcome(suite, sys.a.keys.value, 0, crossed.b, crossed.ab[0].packet, now)
            && CrossedOutcome(suite, sys.a.keys.value, 0, crossed.a, crossed.ba[0].packet, now)
  {
    hide Metadata, Payload, TimestampFresh, CrossedOutcome, RotatedKeys, Crossing;
    var crossed := Crossing(suite, sys, saltA, saltB, now);
    CrossingState(suite, sys, saltA, saltB, now);
    FreshExactly(now, now, suite.tolerance);
    CrossedToken(suite, sys.a.keys.value, 0, saltA, crossed.b, now, sys.a.sendSeq, now);
    CrossedToken(suite, sys.a.keys.value, 0, saltB, crossed.a, now, sys.b.sendSeq, now);
  }

  /** An input for which the crossing certainly fails: keys that a rotation does not change. */
  lemma CrossingBreaksLockstep(suite: Suite, sys: System, material: Material, saltA: Key, saltB: Key, now: Millis)
    requires Started(sys) && suite.tolerance >= 0
    requires suite.kdf == ((ikm: Bytes, salt: Bytes, info: Bytes) => material)
    requires sys.a.keys == Some(SplitMaterial(material))
    ensures var crossed := Crossing(suite, sys, saltA, saltB, now);
            && |crossed.ab| == |crossed.ba| == 1
            && ApplyRekey(suite, crossed.b, crossed.ab[0].packet, now).result == Err(RekeyCounterMismatch)
            && ApplyRekey(suite, crossed.a, crossed.ba[0].packet, now).result == Err(RekeyCounterMismatch)
  {
    hide Crossing, ApplyRekey, Seal, Metadata, Payload, Authentic, Crypt;
    CrossingState(suite, sys, saltA, saltB, now);
    CrossedRotationsFail(suite, sys, saltA, saltB, now);
  }
}
