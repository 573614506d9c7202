/**
 The bit-reversal permutation and the in-place loop of ringlwe.go that applies it.
 */
module BitReversal {
  import opened Modular
  import opened Polynomial

  /** The k-bit number whose binary digits are those of i in the opposite order. */
  function Rev(i: nat, k: nat): (r: nat)
    requires i < Pow2(k)
    ensures r < Pow2(k)
  {
    if k == 0 then 0 else if i % 2 == 1 then Pow2(k - 1) + Rev(i / 2, k - 1) else Rev(i / 2, k - 1)
  }

  /** Peeling off the top bit of i peels off the bottom bit of its reversal. */
  lemma {:induction false} RevTop(i: nat, k: nat)
    requires k > 0 && i < Pow2(k)
    ensures Rev(i, k) == if i < Pow2(k - 1) then 2 * Rev(i, k - 1) else 2 * Rev(i - Pow2(k - 1), k - 1) + 1
  {
    if k > 1 {
      RevTop(i / 2, k - 1);
      var h := Pow2(k - 2);
      assert Pow2(k - 1) == 2 * h;
      if i >= 2 * h {
        assert (i - 2 * h) / 2 == i / 2 - h && (i - 2 * h) % 2 == i % 2;
      }
    }
  }

  lemma {:induction false} RevInvolution(i: nat, k: nat)
    requires i < Pow2(k)
    ensures Rev(Rev(i, k), k) == i
  {
    if k > 0 {
      RevInvolution(i / 2, k - 1);
      RevTop(Rev(i, k), k);
    }
  }

  function Permuted(a: Poly, k: nat): (r: Poly)
    requires |a| == Pow2(k)
    ensures |r| == |a|
  {
    seq(|a|, i requires 0 <= i < |a| => a[Rev(i, k)])
  }

  /** The recursive shape of the permutation: evens first, odds second. */
  lemma PermutedSplit(a: Poly, k: nat)
    requires k > 0 && |a| == Pow2(k)
    ensures Permuted(a, k) == Permuted(Evens(a), k - 1) + Permuted(Odds(a), k - 1)
  {
    var halves := Permuted(Evens(a), k - 1) + Permuted(Odds(a), k - 1);
    forall i | 0 <= i < |a|
      ensures Permuted(a, k)[i] == halves[i]
    {
      RevTop(i, k);
    }
  }

  lemma PermutedTwice(a: Poly, k: nat)
    requires |a| == Pow2(k)
    ensures Permuted(Permuted(a, k), k) == a
  {
    forall i | 0 <= i < |a|
      ensures Permuted(Permuted(a, k), k)[i] == a[i]
    {
      RevInvolution(i, k);
    }
  }

  /** `j & bit != 0` for a power of two `bit` (and false once the shifted-out bit is 0). */
  predicate BitSet(j: nat, bit: nat) {
    bit > 0 && (j / bit) % 2 == 1
  }

  /** `j ^ bit` for a power of two `bit`. */
  function FlipBit(j: nat, bit: nat): nat {
    if BitSet(j, bit) then (if j >= bit then j - bit else 0) else j + bit
  }

  lemma TopBit(m: nat, k: nat)
    requires k > 0 && m < Pow2(k)
    ensures BitSet(Rev(m, k), Pow2(k - 1)) <==> m % 2 == 1
    ensures FlipBit(Rev(m, k), Pow2(k - 1)) == if m % 2 == 1 then Rev(m / 2, k - 1) else Pow2(k - 1) + Rev(m / 2, k - 1)
  {
    var h, low := Pow2(k - 1), Rev(m / 2, k - 1);
    if m % 2 == 1 {
      DivIs(h + low, h, 1, low);
    } else {
      DivIs(low, h, 0, low);
    }
  }

  /** Adding one to an even number sets its bottom bit; a carry moves to the next bit. */
  lemma RevSuccessor(m: nat, k: nat)
    requires k > 0 && m + 1 < Pow2(k)
    ensures m % 2 == 0 ==> Rev(m + 1, k) == Pow2(k - 1) + Rev(m / 2, k - 1)
    ensures m % 2 == 1 ==> k > 1 && m / 2 + 1 < Pow2(k - 1) && Rev(m + 1, k) == Rev(m / 2 + 1, k - 1)
  {
    if m % 2 == 0 {
      assert (m + 1) / 2 == m / 2 && (m + 1) % 2 == 1;
    } else {
      assert (m + 1) / 2 == m / 2 + 1 && (m + 1) % 2 == 0;
    }
  }

  /** The inner carry loop: from the reversal of i - 1 to the reversal of i. */
  method NextReversed(ghost i: nat, n: nat, j0: nat, ghost k: nat) returns (j: nat)
    requires n == Pow2(k) && 0 < i < n
    requires j0 == Rev(i - 1, k)
    ensures j == Rev(i, k)
  {
    j := j0;
    var bit := n / 2;
    ghost var m: nat, width: nat := i - 1, k;
    while BitSet(j, bit)
      invariant width > 0 && m + 1 < Pow2(width)
      invariant bit == Pow2(width - 1)
      invariant j == Rev(m, width)
      invariant Rev(m + 1, width) == Rev(i, k)
      decreases width
    {
      TopBit(m, width);
      RevSuccessor(m, width);
      j := FlipBit(j, bit);
      bit := bit / 2;
      m, width := m / 2, width - 1;
    }
    TopBit(m, width);
    RevSuccessor(m, width);
    j := FlipBit(j, bit);
  }

  ghost predicate SwappedBelow(res: Poly, a: Poly, k: nat, i: nat)
    requires |res| == |a| == Pow2(k)
  {
    forall p :: 0 <= p < |a| ==> res[p] == if p < i || Rev(p, k) < i then a[Rev(p, k)] else a[p]
  }

  lemma SwapStep(res: Poly, a: Poly, k: nat, i: nat, next: Poly)
    requires |res| == |a| == |next| == Pow2(k)
    requires i < |a|
    requires SwappedBelow(res, a, k, i)
    requires var j := Rev(i, k); next == if i < j then res[i := res[j]][j := res[i]] else res
    ensures SwappedBelow(next, a, k, i + 1)
  {
    var j := Rev(i, k);
    RevInvolution(i, k);
    forall p | 0 <= p < |a|
      ensures next[p] == if p < i + 1 || Rev(p, k) < i + 1 then a[Rev(p, k)] else a[p]
    {
      RevInvolution(p, k);
    }
  }

  /** bitReverse: a copy of a with every pair (i, reversed i) swapped exactly once. */
  method BitReverse(a: seq<int>, ghost k: nat) returns (res: array<int>)
    requires |a| == Pow2(k)
    ensures fresh(res)
    ensures res[..] == Permuted(a, k)
  {
    var n := |a|;
    res := new int[n](x requires 0 <= x < n => a[x]);
    var j := 0;
    RevOfZero(k);
    SwappedAtStart(a, k);
    assert res[..] == a;
    var i := 1;
    while i < n
      invariant 1 <= i <= n
      invariant fresh(res) && res.Length == n
      invariant j == Rev(i - 1, k)
      invariant SwappedBelow(res[..], a, k, i)
    {
      ghost var before := res[..];
      j := NextReversed(i, n, j, k);
      if i < j {
        res[i], res[j] := res[j], res[i];
      }
      assert res[..] == (if i < j then before[i := before[j]][j := before[i]] else before);
      SwapStep(before, a, k, i, res[..]);
      i := i + 1;
    }
    SwappedToEnd(res[..], a, k);
  }

  lemma SwappedToEnd(res: Poly, a: Poly, k: nat)
    requires |res| == |a| == Pow2(k)
    requires SwappedBelow(res, a, k, |a|)
    ensures res == Permuted(a, k)
  {
  }

  lemma {:induction false} RevOfZero(k: nat)
    ensures Rev(0, k) == 0
  {
    if k > 0 {
      RevOfZero(k - 1);
    }
  }

  lemma SwappedAtStart(a: Poly, k: nat)
    requires |a| == Pow2(k)
    ensures SwappedBelow(a, a, k, 1)
  {
    RevOfZero(k);
    forall p | 0 <= p < |a| && Rev(p, k) < 1
      ensures p == 0
    {
      RevInvolution(p, k);
    }
  }
}
