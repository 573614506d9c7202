/**
 The in-place loops of ringlwe.go: one butterfly pass over the array, and the twiddle
 factors of the successive passes. All dividends of `%` below are non-negative, where
 Go's remainder and Dafny's agree.
 */
module Ntt {
  import opened Modular
  import opened NumberTheory
  import opened Polynomial
  import opened Transform

  /** Moduli whose products stay far inside int64: q*q < 2^32. */
  const MAX_MODULUS := 65536

  /** The parameters newBaseRingLWE accepts: n = 2^k, an odd modulus and a root with root^(n/2) = -1. */
  ghost predicate ValidParams(k: nat, q: int, root: int) {
    2 < q <= MAX_MODULUS && q % 2 == 1 && root >= 0 && NegRoot(root, k, q)
  }

  /** wlen for the pass that builds blocks of 2^s: root^(n / 2^s). */
  function Twiddle(root: int, k: nat, s: nat, q: int): (w: int)
    requires s <= k && q > 0
    ensures 0 <= w < q
  {
    Pow(root, Pow2(k - s)) % q
  }

  lemma TwiddleSquare(root: int, k: nat, s: nat, q: int)
    requires s < k && q > 0
    ensures Twiddle(root, k, s, q) == (Twiddle(root, k, s + 1, q) * Twiddle(root, k, s + 1, q)) % q
  {
    var m := Pow2(k - s - 1);
    PowSquare(root, m);
    MulMods(Pow(root, m), Pow(root, m), q);
  }

  /** Every twiddle is a unit, because root^n = 1. */
  lemma TwiddleUnit(root: int, k: nat, s: nat, q: int)
    requires s <= k && k > 0 && ValidParams(k, q, root)
    ensures Gcd(Twiddle(root, k, s, q), q) == 1
  {
    var m, n := Pow2(k - s), Pow2(k);
    Pow2Monotone(k - s, k);
    RootOrder(root, k, q);
    PowAdd(root, m, n - m);
    MulMods(Pow(root, m), Pow(root, n - m), q);
    SmallMod(1, q);
    UnitIsCoprime(Twiddle(root, k, s, q), Pow(root, n - m), q);
  }

  /** 2 is a unit modulo an odd q, hence so is n = 2^k. */
  lemma SizeInverse(k: nat, q: int) returns (inv: int)
    requires q > 1 && q % 2 == 1
    ensures (Pow2(k) * inv) % q == 1
  {
    var half := (q + 1) / 2;
    inv := Pow(half, k);
    PowerOfTwoIsPow(k);
    PowProduct(2, half, k);
    ModIs(2 * half, q, 1, 1);
    SmallMod(1, q);
    PowCong(2 * half, 1, k, q);
    PowOne(k);
  }

  lemma SizeCoprime(k: nat, q: int)
    requires q > 1 && q % 2 == 1
    ensures Gcd(Pow2(k), q) == 1
  {
    var inv := SizeInverse(k, q);
    UnitIsCoprime(Pow2(k), inv, q);
  }

  lemma {:induction false} PowerOfTwoIsPow(k: nat)
    ensures Pow2(k) == Pow(2, k)
  {
    if k > 0 {
      PowerOfTwoIsPow(k - 1);
    }
  }

  lemma {:induction false} Pow2Monotone(s: nat, k: nat)
    requires s <= k
    ensures Pow2(s) <= Pow2(k)
    ensures s < k ==> 2 * Pow2(s) <= Pow2(k)
    decreases k
  {
    if s < k {
      Pow2Monotone(s, k - 1);
    }
  }

  lemma Pow2Quotient(k: nat, s: nat)
    requires s <= k
    ensures Pow2(k) / Pow2(s) == Pow2(k - s)
  {
    Pow2Add(k - s, s);
    DivIs(Pow2(k), Pow2(s), Pow2(k - s), 0);
  }

  lemma Pow2Divides(s: nat, k: nat)
    requires s <= k
    ensures Pow2(k) % Pow2(s) == 0
  {
    Pow2Add(k - s, s);
    ModIs(Pow2(k), Pow2(s), Pow2(k - s), 0);
  }

  /** The inverse of a twiddle is determined by being an inverse in [0, q). */
  lemma InverseTwiddleSquare(w: int, u: int, w2: int, u2: int, q: int)
    requires q > 1 && 0 <= u2 < q
    requires (w * u) % q == 1 && w2 == (w * w) % q && (w2 * u2) % q == 1
    ensures u2 == (u * u) % q
  {
    SmallMod(1, q);
    SquaresInverse(w, u, q);
    InverseUnique(w2, u2, (u * u) % q, q);
    SmallMod(u2, q);
    ModMod(u * u, q);
  }

  // ------------------------------------------------ the shipped parameters

  /** Repeated squaring: r[i] = w^(2^i). */
  lemma {:induction false} SquareChain(w: int, r: seq<int>, i: nat, q: int)
    requires q > 0 && i < |r| && w % q == r[0]
    requires forall t :: 0 < t < |r| ==> (r[t - 1] * r[t - 1]) % q == r[t]
    ensures Pow(w, Pow2(i)) % q == r[i]
  {
    if i == 0 {
      assert Pow(w, 1) == w;
    } else {
      SquareChain(w, r, i - 1, q);
      PowAdd(w, Pow2(i - 1), Pow2(i - 1));
      MulMods(Pow(w, Pow2(i - 1)), Pow(w, Pow2(i - 1)), q);
    }
  }

  /** NewRingLWE's root: 5685^128 = -1 modulo 7681. */
  lemma RingLweParams()
    ensures ValidParams(8, 7681, 5685) && Pow2(8) == 256
  {
    SquareChain(5685, [5685, 5258, 2645, 6315, 7154, 1213, 4298, 7680], 7, 7681);
  }

  /** NewRRLWE's root: 8340^128 = -1 modulo 12289. */
  lemma RrlweParams()
    ensures ValidParams(8, 12289, 8340) && Pow2(8) == 256
  {
    SquareChain(8340, [8340, 12149, 7311, 5860, 4134, 8246, 1479, 12288], 7, 12289);
  }

  // ------------------------------------------------ the loops

  lemma ProductBound(a: int, b: int, q: int)
    requires 0 <= a < q && 0 <= b < q <= MAX_MODULUS
    ensures 0 <= a * b < 0x1_0000_0000
  {
    MulMonotone(a, MAX_MODULUS - 1, b, MAX_MODULUS - 1);
  }

  /** The first j butterflies of the block x[i .. i + 2*half] hold r, the rest of x is as before. */
  ghost predicate BlockUpTo(x: Poly, before: Poly, r: Poly, i: nat, half: nat, j: nat)
    requires i + 2 * half <= |before| == |x| && |r| == 2 * half && j <= half
  {
    forall p :: 0 <= p < |x| ==>
      x[p] == if i <= p < i + j || i + half <= p < i + half + j then r[p - i] else before[p]
  }

  lemma BlockStart(before: Poly, r: Poly, i: nat, half: nat)
    requires i + 2 * half <= |before| && |r| == 2 * half
    ensures BlockUpTo(before, before, r, i, half, 0)
  {
  }

  lemma BlockStep(x: Poly, before: Poly, r: Poly, i: nat, half: nat, j: nat)
    requires i + 2 * half <= |before| == |x| && |r| == 2 * half && j < half
    requires BlockUpTo(x, before, r, i, half, j)
    ensures x[i + j] == before[i + j] && x[i + j + half] == before[i + j + half]
    ensures BlockUpTo(x[i + j := r[j]][i + j + half := r[j + half]], before, r, i, half, j + 1)
  {
  }

  lemma BlockDone(x: Poly, before: Poly, r: Poly, i: nat, half: nat)
    requires i + 2 * half <= |before| == |x| && |r| == 2 * half
    requires BlockUpTo(x, before, r, i, half, half)
    ensures x == before[..i] + r + before[i + 2 * half..]
  {
  }

  /** What one butterfly of the block computes. */
  lemma ButterflyValues(before: Poly, i: nat, half: nat, w: int, q: int, j: nat)
    requires q > 0 && i + 2 * half <= |before| && j < half
    ensures var r := Butterfly(before[i..i + half], before[i + half..i + 2 * half], w, q);
            && r[j] == SumHalf(before[i + j], before[i + j + half], Pow(w, j) % q, q)
            && r[j + half] == DiffHalf(before[i + j], before[i + j + half], Pow(w, j) % q, q)
  {
    hide SumHalf, DiffHalf, Pow;
  }

  lemma ReducedUpdate(x: Poly, q: int, p: nat, v: int)
    requires Reduced(x, q) && p < |x| && 0 <= v < q
    ensures Reduced(x[p := v], q)
  {
  }

  /** One butterfly of the innermost loop, on entries p and p + half. */
  method ButterflyStep(res: array<int>, p: nat, half: nat, w: int, q: int)
    requires 2 < q <= MAX_MODULUS && 0 <= w < q
    requires half > 0 && p + half < res.Length && Reduced(res[..], q)
    modifies res
    ensures res[..] == old(res[..])[p := SumHalf(old(res[p]), old(res[p + half]), w, q)]
                                   [p + half := DiffHalf(old(res[p]), old(res[p + half]), w, q)]
    ensures Reduced(res[..], q)
  {
    ghost var x := res[..];
    var u := res[p];
    ProductBound(res[p + half], w, q);
    var v := (res[p + half] * w) % q;
    res[p] := (u + v) % q;
    res[p + half] := (u - v + q) % q;
    ReducedUpdate(x, q, p, res[p]);
    ReducedUpdate(x[p := res[p]], q, p + half, res[p + half]);
    assert res[..] == x[p := res[p]][p + half := res[p + half]];
  }

  /** The innermost loop: the butterflies of the block res[i .. i + 2*half]. */
  method ButterflyBlock(res: array<int>, i: nat, half: nat, wlen: int, q: int)
    requires 2 < q <= MAX_MODULUS && 0 <= wlen < q
    requires i + 2 * half <= res.Length
    requires Reduced(res[..], q)
    modifies res
    ensures res[..] == old(res[..i]) + Butterfly(old(res[i..i + half]), old(res[i + half..i + 2 * half]), wlen, q)
                     + old(res[i + 2 * half..])
    ensures Reduced(res[..], q)
  {
    hide SumHalf, DiffHalf, ButterflyEntry, BlockUpTo;
    ghost var before := res[..];
    ghost var r := Butterfly(before[i..i + half], before[i + half..i + 2 * half], wlen, q);
    var w := 1;
    var j := 0;
    SmallMod(1, q);
    BlockStart(before, r, i, half);
    while j < half
      invariant 0 <= j <= half
      invariant w == Pow(wlen, j) % q
      invariant Reduced(res[..], q)
      invariant BlockUpTo(res[..], before, r, i, half, j)
    {
      BlockStep(res[..], before, r, i, half, j);
      ButterflyValues(before, i, half, wlen, q, j);
      ButterflyStep(res, i + j, half, w, q);
      NextPower(w, wlen, j, q);
      w := (w * wlen) % q;
      j := j + 1;
    }
    BlockDone(res[..], before, r, i, half);
  }

  lemma NextPower(w: int, wlen: int, j: nat, q: int)
    requires 0 < q <= MAX_MODULUS && 0 <= wlen < q && w == Pow(wlen, j) % q
    ensures 0 <= w * wlen < 0x1_0000_0000
    ensures (w * wlen) % q == Pow(wlen, j + 1) % q
  {
    ProductBound(w, wlen, q);
    MulMods(Pow(wlen, j), wlen, q);
  }

  /** The middle loop: every block of 2*half entries in turn. */
  method ButterflyPass(res: array<int>, half: nat, wlen: int, q: int)
    requires 2 < q <= MAX_MODULUS && 0 <= wlen < q
    requires half > 0 && res.Length % (2 * half) == 0
    requires Reduced(res[..], q)
    modifies res
    ensures res[..] == Pass(old(res[..]), half, wlen, q)
    ensures Reduced(res[..], q)
  {
    var i := 0;
    while i < res.Length
      invariant 0 <= i <= res.Length
      invariant (res.Length - i) % (2 * half) == 0
      invariant Reduced(res[..], q)
      invariant Pass(old(res[..]), half, wlen, q) == res[..i] + Pass(res[i..], half, wlen, q)
    {
      BlockFits(res.Length - i, 2 * half);
      ghost var before := res[..];
      ButterflyBlock(res, i, half, wlen, q);
      PassPeel(before, i, half, wlen, q, res[..]);
      i := i + 2 * half;
    }
  }

  lemma PassPeel(before: Poly, i: nat, half: nat, w: int, q: int, after: Poly)
    requires q > 0 && half > 0 && i + 2 * half <= |before| && (|before| - i) % (2 * half) == 0
    requires after == before[..i] + Butterfly(before[i..i + half], before[i + half..i + 2 * half], w, q)
                    + before[i + 2 * half..]
    ensures (|before| - i - 2 * half) % (2 * half) == 0
    ensures before[..i] + Pass(before[i..], half, w, q)
         == after[..i + 2 * half] + Pass(after[i + 2 * half..], half, w, q)
  {
    hide ButterflyEntry;
    BlockFits(|before| - i, 2 * half);
    var x := before[i..];
    assert x[..half] == before[i..i + half];
    assert x[half..2 * half] == before[i + half..i + 2 * half];
    assert x[2 * half..] == before[i + 2 * half..] == after[i + 2 * half..];
    assert after[..i + 2 * half] == before[..i] + Butterfly(x[..half], x[half..2 * half], w, q);
  }
}
