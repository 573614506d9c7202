/**
 The sliding replay window of checkMetadata in quarkdash.go, and what it means: the window
 holds the largest sequence numbers ever accepted.
 */
module ReplayWindow {
  import opened Modular
  import opened ByteStrings
  import opened KeyRotation
  import opened Keystream

  // ------------------------------------------------------------ the window's update

  ghost predicate IsMinimum(s: set<nat>, m: nat) {
    m in s && forall x :: x in s ==> m <= x
  }

  lemma {:induction false} MinimumExists(s: set<nat>, x: nat)
    requires x in s
    ensures exists m :: IsMinimum(s, m)
    decreases x
  {
    if y :| y in s && y < x {
      MinimumExists(s, y);
    } else {
      assert IsMinimum(s, x);
    }
  }

  ghost function Minimum(s: set<nat>): (m: nat)
    requires s != {}
    ensures IsMinimum(s, m)
  {
    var x :| x in s;
    MinimumExists(s, x);
    var m :| IsMinimum(s, m);
    m
  }

  /** The window after accepting a number it does not hold. */
  ghost function Insert(window: set<nat>, n: nat, max: int): set<nat> {
    var grown := window + {n};
    if |grown| > max then grown - {Minimum(grown)} else grown
  }

  /** The eviction loop: the least of a window of 32-bit numbers, starting from the largest one. */
  method Oldest(window: set<nat>) returns (oldest: nat)
    requires window != {} && forall x :: x in window ==> x < WORD_RANGE
    ensures oldest == Minimum(window)
  {
    oldest := WORD_RANGE - 1;
    var rest := window;
    while rest != {}
      invariant rest <= window
      invariant forall x :: x in window && x !in rest ==> oldest <= x
      invariant oldest in window || oldest == WORD_RANGE - 1
      decreases |rest|
    {
      var k := AnyElement(rest);
      if k < oldest {
        oldest := k;
      }
      rest := rest - {k};
    }
    assert oldest <= Minimum(window);
    assert IsMinimum(window, oldest);
  }

  // ------------------------------------------------------------ the largest accepted numbers

  function Max0(w: int): nat {
    if w > 0 then w else 0
  }

  /** window holds the w largest elements of accepted. */
  ghost predicate Largest(window: set<nat>, accepted: set<nat>, w: nat) {
    && window <= accepted
    && |window| == (if |accepted| < w then |accepted| else w)
    && forall x, y :: x in window && y in accepted && y !in window ==> y < x
  }

  function Above(accepted: set<nat>, n: nat): set<nat> {
    set x | x in accepted && x > n
  }

  lemma SubsetSize<T>(a: set<T>, b: set<T>)
    requires a <= b
    ensures |a| <= |b|
    ensures |a| == |b| ==> a == b
  {
    assert b == a + (b - a);
  }

  /** Membership, number by number: fewer than w accepted numbers are larger. */
  lemma LargestExactly(window: set<nat>, accepted: set<nat>, w: nat, n: nat)
    requires Largest(window, accepted, w) && n in accepted
    ensures n in window <==> |Above(accepted, n)| < w
  {
    if n in window {
      SubsetSize(Above(accepted, n), window - {n});
    } else {
      SubsetSize(window, Above(accepted, n));
      SubsetSize(window, accepted);
    }
  }

  /** The accepted numbers with fewer than w larger ones. */
  function Top(accepted: set<nat>, w: nat): set<nat> {
    set n | n in accepted && |Above(accepted, n)| < w
  }

  /** So holding the w largest accepted numbers determines the window. */
  lemma LargestIsTop(window: set<nat>, accepted: set<nat>, w: nat)
    requires Largest(window, accepted, w)
    ensures window == Top(accepted, w)
  {
    forall n | n in accepted
      ensures n in window <==> n in Top(accepted, w)
    {
      LargestExactly(window, accepted, w, n);
    }
  }

  /** One acceptance keeps the window largest, also when an evicted number comes back. */
  lemma LargestStep(window: set<nat>, accepted: set<nat>, n: nat, max: int)
    requires Largest(window, accepted, Max0(max)) && n !in window
    ensures Largest(Insert(window, n, max), accepted + {n}, Max0(max))
  {
    var w, grown := Max0(max), window + {n};
    SubsetSize(window, accepted);
    SubsetSize(grown, accepted + {n});
    if |grown| <= max {
      SubsetSize(accepted, accepted + {n});
    } else {
      var m := Minimum(grown);
      forall x, y | x in grown - {m} && y in accepted + {n} && y !in grown - {m}
        ensures y < x
      {
        assert m <= x && m != x;
        if y != m {
          assert y in accepted && y !in window;
        }
      }
    }
  }

  // ------------------------------------------------------------ timestamps

  /** A 64-bit millisecond clock. */
  type Millis = t: nat | t < CLOCK_RANGE

  /** The timestamp test as computed: a wrapping difference, negated with wrap-around when negative. */
  function TimestampFresh(now: Millis, ts: Millis, tolerance: Int64): bool {
    var diff := Wrap64(Wrap64(now) as int - Wrap64(ts) as int);
    var distance := if diff < 0 then Wrap64(0 - diff as int) else diff;
    distance <= tolerance
  }

  /** How far apart two clock readings are, on the circle of 64-bit values. */
  function ClockDistance(a: Millis, b: Millis): nat {
    var d := if a >= b then a - b else b - a;
    if 2 * d <= CLOCK_RANGE then d else CLOCK_RANGE - d
  }

  lemma WrapShift(x: int, j: int)
    ensures Wrap64(x + j * CLOCK_RANGE) == Wrap64(x)
  {
    assert x + j * CLOCK_RANGE - MIN_INT == j * CLOCK_RANGE + (x - MIN_INT);
    var q, r := (x - MIN_INT) / CLOCK_RANGE, (x - MIN_INT) % CLOCK_RANGE;
    ModIs(x + j * CLOCK_RANGE - MIN_INT, CLOCK_RANGE, q + j, r);
  }

  lemma SignedClock(t: Millis)
    ensures Wrap64(t) == if t <= MAX_INT then t else t - CLOCK_RANGE
  {
    if t <= MAX_INT {
      WrapInRange(t);
    } else {
      WrapInRange(t - CLOCK_RANGE);
      WrapShift(t - CLOCK_RANGE, 1);
    }
  }

  /** The wrapping difference of two readings. */
  lemma WrappedDifference(now: Millis, ts: Millis)
    ensures var d := now - ts;
            Wrap64(Wrap64(now) as int - Wrap64(ts) as int)
            == if d < MIN_INT then d + CLOCK_RANGE else if d > MAX_INT then d - CLOCK_RANGE else d
  {
    hide Wrap64;
    SignedClock(now);
    SignedClock(ts);
    var d := now - ts;
    var reduced := if d < MIN_INT then d + CLOCK_RANGE else if d > MAX_INT then d - CLOCK_RANGE else d;
    WrapInRange(reduced);
    WrapShift(reduced, 1);
    WrapShift(reduced, -1);
  }

  /**
   A packet passes the timestamp test exactly when its clock is within tolerance of the
   receiver's, or exactly half the clock range away: that one distance passes every tolerance.
   */
  lemma FreshExactly(now: Millis, ts: Millis, tolerance: Int64)
    ensures TimestampFresh(now, ts, tolerance)
       <==> ClockDistance(now, ts) <= tolerance || ClockDistance(now, ts) == CLOCK_RANGE / 2
  {
    hide Wrap64;
    WrappedDifference(now, ts);
    var diff := Wrap64(Wrap64(now) as int - Wrap64(ts) as int);
    if diff < 0 {
      WrapInRange(0 - diff as int);
    }
  }

  /** For clocks below 2^63 the test is the plain one. */
  lemma FreshBelowHalf(now: Millis, ts: Millis, tolerance: Int64)
    requires now <= MAX_INT && ts <= MAX_INT
    ensures TimestampFresh(now, ts, tolerance) <==> now - ts <= tolerance && ts - now <= tolerance
  {
    FreshExactly(now, ts, tolerance);
  }

  /** A timestamp 2^63 away from the clock is accepted under tolerance zero. */
  lemma HalfRangeAccepted()
    ensures TimestampFresh(0, CLOCK_RANGE / 2, 0) && ClockDistance(0, CLOCK_RANGE / 2) > 0
  {
    FreshExactly(0, CLOCK_RANGE / 2, 0);
  }
}
