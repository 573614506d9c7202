/**
 The number theoretic transform: its definition as evaluation at the powers of a root,
 the recursive Cooley-Tukey form on bit-reversed input, inversion, and multiplicativity.
 Lengths are any power of two; the root w of order n satisfies w^(n/2) = -1 mod q.
 */
module Transform {
  import opened Modular
  import opened Polynomial
  import opened BitReversal

  /** w^(n/2) = -1 modulo q, for n = 2^k. (Nothing is asked of w when n = 1.) */
  ghost predicate NegRoot(w: int, k: nat, q: int)
    requires q > 0
  {
    k > 0 ==> Pow(w, Pow2(k - 1)) % q == (-1) % q
  }

  /** The transform: entry j is the value of a at w^j. */
  function Dft(a: Poly, w: int, q: int): (r: Poly)
    requires q > 0
    ensures |r| == |a|
  {
    seq(|a|, j requires 0 <= j < |a| => Eval(a, Pow(w, j)) % q)
  }

  /** The textbook double-indexed sum. */
  lemma DftIsSum(a: Poly, w: int, q: int, j: nat)
    requires q > 0 && j < |a|
    ensures forall i: nat :: j * i >= 0
    ensures Dft(a, w, q)[j] == Sum(|a|, i => if 0 <= i < |a| then a[i] * Pow(w, j * i) else 0) % q
  {
    EvalIsSum(a, Pow(w, j));
    forall i: nat
      ensures j * i >= 0 && Pow(Pow(w, j), i) == Pow(w, j * i)
    {
      PowMul(w, j, i);
    }
    SumExt(|a|, i => if 0 <= i < |a| then a[i] * Pow(Pow(w, j), i) else 0,
           i => if 0 <= i < |a| then a[i] * Pow(w, j * i) else 0);
  }

  lemma NegRootSquared(w: int, k: nat, q: int)
    requires q > 0 && k > 0 && NegRoot(w, k, q)
    ensures NegRoot(w * w, k - 1, q)
    ensures NegRoot((w * w) % q, k - 1, q)
  {
    if k > 1 {
      PowSquare(w, Pow2(k - 2));
      ModMod(w * w, q);
      PowCong((w * w) % q, w * w, Pow2(k - 2), q);
    }
  }

  /** The root has order n: w^n = 1. */
  lemma RootOrder(w: int, k: nat, q: int)
    requires q > 0 && NegRoot(w, k, q)
    requires k > 0
    ensures Pow(w, Pow2(k)) % q == 1 % q
  {
    var h := Pow2(k - 1);
    PowAdd(w, h, h);
    MulCong(Pow(w, h), -1, Pow(w, h), -1, q);
  }

  // ------------------------------------------------ the Cooley-Tukey recursion

  /** One butterfly of the source: the sum half and the difference half. */
  function SumHalf(u: int, x: int, tw: int, q: int): int
    requires q > 0
  {
    (u + (x * tw) % q) % q
  }

  function DiffHalf(u: int, x: int, tw: int, q: int): int
    requires q > 0
  {
    (u - (x * tw) % q + q) % q
  }

  function Butterfly(e: Poly, o: Poly, w: int, q: int): (r: Poly)
    requires q > 0 && |e| == |o|
    ensures |r| == 2 * |e|
  {
    seq(2 * |e|, i requires 0 <= i < 2 * |e| => ButterflyEntry(e, o, w, q, i))
  }

  function ButterflyEntry(e: Poly, o: Poly, w: int, q: int, i: nat): int
    requires q > 0 && |e| == |o| && i < 2 * |e|
  {
    if i < |e| then SumHalf(e[i], o[i], Pow(w, i) % q, q)
    else DiffHalf(e[i - |e|], o[i - |e|], Pow(w, i - |e|) % q, q)
  }

  /** The transform of x, given in bit-reversed order. */
  function Fft(x: Poly, k: nat, w: int, q: int): (r: Poly)
    requires q > 0 && |x| == Pow2(k)
    ensures |r| == |x|
  {
    if k == 0 then x
    else
      var h := Pow2(k - 1);
      Butterfly(Fft(x[..h], k - 1, (w * w) % q, q), Fft(x[h..], k - 1, (w * w) % q, q), w, q)
  }

  lemma SumHalfCong(u: int, x: int, tw: int, e: int, o: int, y: int, q: int)
    requires q > 0
    requires u % q == e % q && x % q == o % q && tw % q == y % q
    ensures SumHalf(u, x, tw, q) == (e + y * o) % q
    ensures DiffHalf(u, x, tw, q) == (e - y * o) % q
  {
    MulCong(x, o, tw, y, q);
    ModMod(x * tw, q);
    AddCong(u, e, (x * tw) % q, y * o, q);
    SubCong(u, e, (x * tw) % q, y * o, q);
    CongFromMultiple(u - (x * tw) % q + q, u - (x * tw) % q, 1, q);
  }

  /** The value at x from the values of the even and odd parts at y = x^2. */
  lemma EvalPairAt(a: Poly, x: int, y: int, q: int)
    requires q > 0 && |a| % 2 == 0
    requires (x * x) % q == y % q
    ensures Eval(a, x) % q == (Eval(Evens(a), y) + x * Eval(Odds(a), y)) % q
  {
    EvalEvenOdd(a, x);
    EvalCong(Evens(a), Evens(a), x * x, y, q);
    EvalCong(Odds(a), Odds(a), x * x, y, q);
    MulCong(x, x, Eval(Odds(a), x * x), Eval(Odds(a), y), q);
    AddCong(Eval(Evens(a), x * x), Eval(Evens(a), y), x * Eval(Odds(a), x * x), x * Eval(Odds(a), y), q);
  }

  lemma SquareOfPower(w: int, j: nat, q: int)
    requires q > 0
    ensures (Pow(w, j) * Pow(w, j)) % q == Pow((w * w) % q, j) % q
  {
    PowSquare(w, j);
    ModMod(w * w, q);
    PowCong((w * w) % q, w * w, j, q);
  }

  /** The transform's entries j and n/2 + j from entry j of the two half-size transforms. */
  lemma EvalPair(a: Poly, k: nat, w: int, q: int, j: nat)
    requires q > 0 && k > 0 && |a| == Pow2(k)
    requires NegRoot(w, k, q)
    ensures var y := Pow((w * w) % q, j);
            && Eval(a, Pow(w, j)) % q == (Eval(Evens(a), y) + Pow(w, j) * Eval(Odds(a), y)) % q
            && Eval(a, Pow(w, Pow2(k - 1) + j)) % q == (Eval(Evens(a), y) - Pow(w, j) * Eval(Odds(a), y)) % q
  {
    var h, x, y := Pow2(k - 1), Pow(w, j), Pow((w * w) % q, j);
    SquareOfPower(w, j, q);
    EvalPairAt(a, x, y, q);
    PowAdd(w, h, j);
    MulCong(Pow(w, h), -1, x, x, q);
    EvalCong(a, a, Pow(w, h + j), -x, q);
    NegateProduct(x, x);
    NegateProduct(x, Eval(Odds(a), y));
    EvalPairAt(a, -x, y, q);
  }

  lemma NegateProduct(x: int, y: int)
    ensures (-x) * y == -(x * y) && (-x) * (-y) == x * y
  {
  }

  ghost predicate HalvesAt(l: int, r: int, e: int, po: int, q: int)
    requires q > 0
  {
    l % q == (e + po) % q && r % q == (e - po) % q
  }

  lemma TransformHalvesAt(a: Poly, k: nat, w: int, q: int, j: nat)
    requires q > 0 && k > 0 && |a| == Pow2(k) && j < Pow2(k - 1)
    requires NegRoot(w, k, q)
    ensures var s := (w * w) % q;
            HalvesAt(Dft(a, w, q)[j], Dft(a, w, q)[Pow2(k - 1) + j],
                     Dft(Evens(a), s, q)[j], Pow(w, j) * Dft(Odds(a), s, q)[j], q)
  {
    var h, s := Pow2(k - 1), (w * w) % q;
    var e, o := Eval(Evens(a), Pow(s, j)), Eval(Odds(a), Pow(s, j));
    EvalPair(a, k, w, q, j);
    ModMod(Eval(a, Pow(w, j)), q);
    ModMod(Eval(a, Pow(w, h + j)), q);
    ModMod(e, q);
    ModMod(o, q);
    MulCong(Pow(w, j), Pow(w, j), o % q, o, q);
    AddCong(e % q, e, Pow(w, j) * (o % q), Pow(w, j) * o, q);
    SubCong(e % q, e, Pow(w, j) * (o % q), Pow(w, j) * o, q);
  }

  lemma ButterflyAt(a: Poly, k: nat, w: int, q: int, i: nat)
    requires q > 0 && k > 0 && |a| == Pow2(k) && i < |a|
    requires NegRoot(w, k, q)
    ensures ButterflyEntry(Dft(Evens(a), (w * w) % q, q), Dft(Odds(a), (w * w) % q, q), w, q, i) == Dft(a, w, q)[i]
  {
    var s, h := (w * w) % q, Pow2(k - 1);
    var j := if i < h then i else i - h;
    var e, o := Dft(Evens(a), s, q)[j], Dft(Odds(a), s, q)[j];
    TransformHalvesAt(a, k, w, q, j);
    ModMod(Pow(w, j), q);
    SumHalfCong(e, o, Pow(w, j) % q, e, o, Pow(w, j), q);
    ModMod(Eval(a, Pow(w, i)), q);
  }

  /** Combining the half-size transforms of the even and odd parts gives the transform. */
  lemma ButterflyDft(a: Poly, k: nat, w: int, q: int)
    requires q > 0 && k > 0 && |a| == Pow2(k)
    requires NegRoot(w, k, q)
    ensures Butterfly(Dft(Evens(a), (w * w) % q, q), Dft(Odds(a), (w * w) % q, q), w, q) == Dft(a, w, q)
  {
    var e, o := Dft(Evens(a), (w * w) % q, q), Dft(Odds(a), (w * w) % q, q);
    forall i | 0 <= i < |a|
      ensures ButterflyEntry(e, o, w, q, i) == Dft(a, w, q)[i]
    {
      ButterflyAt(a, k, w, q, i);
    }
  }

  lemma FftOfHalves(x: Poly, y: Poly, k: nat, w: int, q: int)
    requires q > 0 && k > 0 && |x| == |y| == Pow2(k - 1)
    ensures Fft(x + y, k, w, q)
         == Butterfly(Fft(x, k - 1, (w * w) % q, q), Fft(y, k - 1, (w * w) % q, q), w, q)
  {
    assert (x + y)[..Pow2(k - 1)] == x && (x + y)[Pow2(k - 1)..] == y;
  }

  /** The recursion on bit-reversed input computes the transform. */
  lemma {:induction false} FftIsDft(a: Poly, k: nat, w: int, q: int)
    requires q > 0 && |a| == Pow2(k) && Reduced(a, q)
    requires NegRoot(w, k, q)
    ensures Fft(Permuted(a, k), k, w, q) == Dft(a, w, q)
    decreases k
  {
    if k == 0 {
      SmallMod(a[0], q);
      assert Eval(a, Pow(w, 0)) == a[0];
    } else {
      NegRootSquared(w, k, q);
      FftIsDft(Evens(a), k - 1, (w * w) % q, q);
      FftIsDft(Odds(a), k - 1, (w * w) % q, q);
      FftStep(a, k, w, q);
    }
  }

  lemma FftStep(a: Poly, k: nat, w: int, q: int)
    requires q > 0 && k > 0 && |a| == Pow2(k) && NegRoot(w, k, q)
    requires Fft(Permuted(Evens(a), k - 1), k - 1, (w * w) % q, q) == Dft(Evens(a), (w * w) % q, q)
    requires Fft(Permuted(Odds(a), k - 1), k - 1, (w * w) % q, q) == Dft(Odds(a), (w * w) % q, q)
    ensures Fft(Permuted(a, k), k, w, q) == Dft(a, w, q)
  {
    FftOfHalves(Permuted(Evens(a), k - 1), Permuted(Odds(a), k - 1), k, w, q);
    PermutedSplit(a, k);
    ButterflyDft(a, k, w, q);
  }

  // ------------------------------------------------ the iterative form

  /** One pass of the source's middle loop: a butterfly on every block of 2*half entries. */
  function Pass(x: Poly, half: nat, w: int, q: int): (r: Poly)
    requires q > 0 && half > 0 && |x| % (2 * half) == 0
    ensures |r| == |x|
    decreases |x|
  {
    if x == [] then []
    else
      BlockFits(|x|, 2 * half);
      Butterfly(x[..half], x[half..2 * half], w, q) + Pass(x[2 * half..], half, w, q)
  }

  lemma BlockFits(n: nat, size: nat)
    requires size > 0 && n > 0 && n % size == 0
    ensures n >= size && (n - size) % size == 0
  {
    if n < size {
      SmallMod(n, size);
    }
    CongFromMultiple(n - size, n, -1, size);
  }

  /** The array after stage s: every block of 2^s entries transformed with the root w. */
  function Blocks(x: Poly, s: nat, w: int, q: int): (r: Poly)
    requires q > 0 && |x| % Pow2(s) == 0
    ensures |r| == |x|
    decreases |x|
  {
    if x == [] then []
    else
      BlockFits(|x|, Pow2(s));
      Fft(x[..Pow2(s)], s, w, q) + Blocks(x[Pow2(s)..], s, w, q)
  }

  lemma HalfDivides(n: nat, s: nat)
    requires n % Pow2(s + 1) == 0
    ensures n % Pow2(s) == 0
  {
    DivIs(n, Pow2(s), 2 * (n / Pow2(s + 1)), 0);
  }

  /** A pass with root w takes stage s to stage s + 1. */
  lemma {:induction false} PassAdvances(x: Poly, s: nat, w: int, q: int)
    requires q > 0 && |x| % Pow2(s + 1) == 0
    ensures |x| % Pow2(s) == 0
    ensures Pass(Blocks(x, s, (w * w) % q, q), Pow2(s), w, q) == Blocks(x, s + 1, w, q)
    decreases |x|
  {
    HalfDivides(|x|, s);
    if x != [] {
      var h, t := Pow2(s), (w * w) % q;
      BlockFits(|x|, 2 * h);
      PassAdvances(x[2 * h..], s, w, q);
      TwoBlocks(x, s, t, q);
      var y := Blocks(x, s, t, q);
      assert y[..h] == Fft(x[..h], s, t, q);
      assert y[h..2 * h] == Fft(x[h..2 * h], s, t, q);
      assert y[2 * h..] == Blocks(x[2 * h..], s, t, q);
      assert x[..2 * h][..h] == x[..h] && x[..2 * h][h..] == x[h..2 * h];
    }
  }

  lemma TwoBlocks(x: Poly, s: nat, t: int, q: int)
    requires q > 0 && |x| >= 2 * Pow2(s) && |x| % Pow2(s) == 0
    ensures (|x| - 2 * Pow2(s)) % Pow2(s) == 0
    ensures Blocks(x, s, t, q) == Fft(x[..Pow2(s)], s, t, q) + Fft(x[Pow2(s)..2 * Pow2(s)], s, t, q)
                                + Blocks(x[2 * Pow2(s)..], s, t, q)
  {
    var h := Pow2(s);
    BlockFits(|x|, h);
    BlockFits(|x| - h, h);
    assert x[h..][..h] == x[h..2 * h];
    assert x[h..][h..] == x[2 * h..];
  }

  /** Before the first pass the array is its own stage 0; after the last it is the transform. */
  lemma {:induction false} BlocksStart(x: Poly, w: int, q: int)
    requires q > 0
    ensures |x| % Pow2(0) == 0
    ensures Blocks(x, 0, w, q) == x
  {
    if x != [] {
      BlocksStart(x[1..], w, q);
    }
  }

  lemma BlocksEnd(x: Poly, k: nat, w: int, q: int)
    requires q > 0 && |x| == Pow2(k)
    ensures |x| % Pow2(k) == 0
    ensures Blocks(x, k, w, q) == Fft(x, k, w, q)
  {
    DivIs(|x|, Pow2(k), 1, 0);
    assert x[..Pow2(k)] == x;
    assert x[Pow2(k)..] == [];
  }

  // ------------------------------------------------ inversion

  lemma InverseIsNegRoot(w: int, v: int, k: nat, q: int)
    requires q > 0 && NegRoot(w, k, q)
    requires (w * v) % q == 1 % q
    ensures NegRoot(v, k, q)
  {
    if k > 0 {
      var h := Pow2(k - 1);
      PowProduct(w, v, h);
      PowCong(w * v, 1, h, q);
      PowOne(h);
      var p := Pow(v, h);
      MulCong(Pow(w, h), -1, p, p, q);
      SubCong(0, 0, -p, 1, q);
    }
  }

  /** The low and high halves of t are e + w^j o and e - w^j o. */
  ghost predicate Halves(t: Poly, e: Poly, o: Poly, w: int, q: int)
    requires q > 0
  {
    && |e| == |o| && |t| == 2 * |e|
    && forall j :: 0 <= j < |e| ==> HalvesAt(t[j], t[|e| + j], e[j], Pow(w, j) * o[j], q)
  }

  lemma HalvesAtSum(l: int, r: int, e: int, po: int, q: int)
    requires q > 0 && HalvesAt(l, r, e, po, q)
    ensures (l + r) % q == (2 * e) % q
    ensures (l - r) % q == (2 * po) % q
  {
    AddCong(l, e + po, r, e - po, q);
    SubCong(l, e + po, r, e - po, q);
  }

  lemma HalvesEntry(t: Poly, e: Poly, o: Poly, w: int, q: int, j: nat)
    requires q > 0 && Halves(t, e, o, w, q) && j < |e|
    ensures Plus(t[..|e|], t[|e|..])[j] % q == Scale(2, e)[j] % q
    ensures Minus(t[..|e|], t[|e|..])[j] % q == Scale(2, Twist(o, w))[j] % q
  {
    hide HalvesAt, Pow;
    var l, r := t[..|e|], t[|e|..];
    assert l[j] == t[j] && r[j] == t[|e| + j];
    HalvesAtSum(t[j], t[|e| + j], e[j], Pow(w, j) * o[j], q);
  }

  lemma HalvesPlus(t: Poly, e: Poly, o: Poly, w: int, q: int)
    requires q > 0 && Halves(t, e, o, w, q)
    ensures Congruent(Plus(t[..|e|], t[|e|..]), Scale(2, e), q)
  {
    forall j | 0 <= j < |e|
      ensures Plus(t[..|e|], t[|e|..])[j] % q == Scale(2, e)[j] % q
    {
      HalvesEntry(t, e, o, w, q, j);
    }
  }

  lemma HalvesMinus(t: Poly, e: Poly, o: Poly, w: int, q: int)
    requires q > 0 && Halves(t, e, o, w, q)
    ensures Congruent(Minus(t[..|e|], t[|e|..]), Scale(2, Twist(o, w)), q)
  {
    forall j | 0 <= j < |e|
      ensures Minus(t[..|e|], t[|e|..])[j] % q == Scale(2, Twist(o, w))[j] % q
    {
      HalvesEntry(t, e, o, w, q, j);
    }
  }

  lemma HalvesSum(t: Poly, e: Poly, o: Poly, w: int, x: int, q: int)
    requires q > 0 && Halves(t, e, o, w, q)
    ensures (Eval(t[..|e|], x) + Eval(t[|e|..], x)) % q == (2 * Eval(e, x)) % q
  {
    var l, r := t[..|e|], t[|e|..];
    HalvesPlus(t, e, o, w, q);
    EvalCong(Plus(l, r), Scale(2, e), x, x, q);
    EvalPlus(l, r, x);
    EvalScale(2, e, x);
  }

  lemma HalvesDiff(t: Poly, e: Poly, o: Poly, w: int, x: int, q: int)
    requires q > 0 && Halves(t, e, o, w, q)
    ensures (Eval(t[..|e|], x) - Eval(t[|e|..], x)) % q == (2 * Eval(o, w * x)) % q
  {
    var l, r := t[..|e|], t[|e|..];
    HalvesMinus(t, e, o, w, q);
    EvalCong(Minus(l, r), Scale(2, Twist(o, w)), x, x, q);
    EvalMinus(l, r, x);
    EvalScale(2, Twist(o, w), x);
    EvalTwistFrom(o, w, x);
  }

  lemma TransformHalves(a: Poly, t: Poly, k: nat, w: int, q: int)
    requires q > 0 && k > 0 && |a| == Pow2(k)
    requires NegRoot(w, k, q)
    requires Congruent(t, Dft(a, w, q), q)
    ensures Halves(t, Dft(Evens(a), (w * w) % q, q), Dft(Odds(a), (w * w) % q, q), w, q)
  {
    var h := Pow2(k - 1);
    forall j | 0 <= j < h
      ensures HalvesAt(t[j], t[h + j], Dft(Evens(a), (w * w) % q, q)[j],
                       Pow(w, j) * Dft(Odds(a), (w * w) % q, q)[j], q)
    {
      TransformHalvesAt(a, k, w, q, j);
    }
  }

  /** v^(m*h) is 1 for even m and -1 for odd m when v^h = -1. */
  lemma {:induction false} SignOfHalfTurn(v: int, h: nat, m: nat, q: int)
    requires q > 0 && Pow(v, h) % q == (-1) % q
    ensures Pow(Pow(v, m), h) % q == (if m % 2 == 0 then 1 else -1) % q
  {
    if m == 0 {
      PowOne(h);
    } else {
      SignOfHalfTurn(v, h, m - 1, q);
      PowProduct(v, Pow(v, m - 1), h);
      MulCong(Pow(v, h), -1, Pow(Pow(v, m - 1), h), if (m - 1) % 2 == 0 then 1 else -1, q);
    }
  }

  /**
   Inversion: evaluating a transform at the powers of the inverse root gives back n times
   the coefficients. Induction on log n; no primality is needed.
   */
  lemma {:induction false} InverseTransform(a: Poly, t: Poly, k: nat, w: int, v: int, q: int, m: nat)
    requires q > 0 && |a| == Pow2(k) && m < |a|
    requires NegRoot(w, k, q) && (k > 0 ==> (w * v) % q == 1 % q)
    requires Congruent(t, Dft(a, w, q), q)
    ensures Eval(t, Pow(v, m)) % q == (Pow2(k) * a[m]) % q
    decreases k
  {
    if k == 0 {
      assert Eval(t, Pow(v, 0)) == t[0];
      assert Eval(a, Pow(w, 0)) == a[0];
      ModMod(a[0], q);
    } else {
      var h, s, u := Pow2(k - 1), (w * w) % q, (v * v) % q;
      var e, o := Dft(Evens(a), s, q), Dft(Odds(a), s, q);
      NegRootSquared(w, k, q);
      SquaresInverse(w, v, q);
      if m % 2 == 0 {
        InverseTransform(Evens(a), e, k - 1, s, u, q, m / 2);
      } else {
        InverseTransform(Odds(a), o, k - 1, s, u, q, m / 2);
      }
      InverseStep(a, t, k, w, v, q, m);
    }
  }

  /** The inductive step: the half-size inverse of the right parity gives this coefficient. */
  lemma InverseStep(a: Poly, t: Poly, k: nat, w: int, v: int, q: int, m: nat)
    requires q > 0 && k > 0 && |a| == Pow2(k) && m < |a|
    requires NegRoot(w, k, q) && (w * v) % q == 1 % q
    requires Congruent(t, Dft(a, w, q), q)
    requires var part := if m % 2 == 0 then Evens(a) else Odds(a);
             Eval(Dft(part, (w * w) % q, q), Pow((v * v) % q, m / 2)) % q == (Pow2(k - 1) * a[m]) % q
    ensures Eval(t, Pow(v, m)) % q == (Pow2(k) * a[m]) % q
  {
    hide Eval, Halves, Dft, Evens, Odds;
    var h, s := Pow2(k - 1), (w * w) % q;
    var e, o := Dft(Evens(a), s, q), Dft(Odds(a), s, q);
    assert t == t[..h] + t[h..];
    EvalConcat(t[..h], t[h..], Pow(v, m));
    InverseIsNegRoot(w, v, k, q);
    SignOfHalfTurn(v, h, m, q);
    TransformHalves(a, t, k, w, q);
    if m % 2 == 0 {
      InverseEven(t, e, o, w, v, q, m / 2, a[m]);
    } else {
      InverseOdd(t, e, o, w, v, q, m / 2, a[m]);
    }
  }

  lemma InverseEven(t: Poly, e: Poly, o: Poly, w: int, v: int, q: int, i: nat, c: int)
    requires q > 0 && Halves(t, e, o, w, q)
    requires Pow(Pow(v, 2 * i), |e|) % q == 1 % q
    requires Eval(e, Pow((v * v) % q, i)) % q == (|e| * c) % q
    ensures (Eval(t[..|e|], Pow(v, 2 * i)) + Pow(Pow(v, 2 * i), |e|) * Eval(t[|e|..], Pow(v, 2 * i))) % q
         == (2 * |e| * c) % q
  {
    var x := Pow(v, 2 * i);
    HalvesSum(t, e, o, w, x, q);
    EvenPower(v, i, q);
    EvalCong(e, e, x, Pow((v * v) % q, i), q);
    EvenCase(Eval(t[..|e|], x), Eval(t[|e|..], x), Pow(x, |e|), Eval(e, x), |e|, c, q);
  }

  lemma InverseOdd(t: Poly, e: Poly, o: Poly, w: int, v: int, q: int, i: nat, c: int)
    requires q > 0 && Halves(t, e, o, w, q) && (w * v) % q == 1 % q
    requires Pow(Pow(v, 2 * i + 1), |e|) % q == (-1) % q
    requires Eval(o, Pow((v * v) % q, i)) % q == (|e| * c) % q
    ensures (Eval(t[..|e|], Pow(v, 2 * i + 1)) + Pow(Pow(v, 2 * i + 1), |e|) * Eval(t[|e|..], Pow(v, 2 * i + 1))) % q
         == (2 * |e| * c) % q
  {
    var x := Pow(v, 2 * i + 1);
    HalvesDiff(t, e, o, w, x, q);
    OddPower(w, v, i, q);
    EvalCong(o, o, w * x, Pow((v * v) % q, i), q);
    OddCase(Eval(t[..|e|], x), Eval(t[|e|..], x), Pow(x, |e|), Eval(o, w * x), |e|, c, q);
  }

  lemma SquaresInverse(w: int, v: int, q: int)
    requires q > 0 && (w * v) % q == 1 % q
    ensures (((w * w) % q) * ((v * v) % q)) % q == 1 % q
  {
    MulMods(w * w, v * v, q);
    MulCong(w * v, 1, w * v, 1, q);
    MulSwap(w, v, w, v);
  }

  lemma EvenPower(v: int, i: nat, q: int)
    requires q > 0
    ensures Pow(v, 2 * i) % q == Pow((v * v) % q, i) % q
  {
    PowSquare(v, i);
    ModMod(v * v, q);
    PowCong((v * v) % q, v * v, i, q);
  }

  lemma OddPower(w: int, v: int, i: nat, q: int)
    requires q > 0 && (w * v) % q == 1 % q
    ensures (w * Pow(v, 2 * i + 1)) % q == Pow((v * v) % q, i) % q
  {
    EvenPower(v, i, q);
    var p := Pow(v, 2 * i);
    MulAssoc(w, v, p);
    MulCong(w * v, 1, p, p, q);
  }

  lemma EvenCase(l: int, r: int, p: int, e: int, h: int, c: int, q: int)
    requires q > 0 && p % q == 1 % q
    requires (l + r) % q == (2 * e) % q && e % q == (h * c) % q
    ensures (l + p * r) % q == (2 * h * c) % q
  {
    MulCong(p, 1, r, r, q);
    AddCong(l, l, p * r, r, q);
    MulCong(2, 2, e, h * c, q);
    MulAssoc(2, h, c);
  }

  lemma OddCase(l: int, r: int, p: int, o: int, h: int, c: int, q: int)
    requires q > 0 && p % q == (-1) % q
    requires (l - r) % q == (2 * o) % q && o % q == (h * c) % q
    ensures (l + p * r) % q == (2 * h * c) % q
  {
    MulCong(p, -1, r, r, q);
    AddCong(l, l, p * r, -r, q);
    MulCong(2, 2, o, h * c, q);
    MulAssoc(2, h, c);
  }

  /** Two polynomials with the same transform are congruent: the transform is injective. */
  lemma DftInjective(a: Poly, b: Poly, k: nat, w: int, v: int, nInv: int, q: int)
    requires q > 0 && |a| == |b| == Pow2(k)
    requires NegRoot(w, k, q) && (k > 0 ==> (w * v) % q == 1 % q) && (Pow2(k) * nInv) % q == 1 % q
    requires Dft(a, w, q) == Dft(b, w, q)
    ensures Congruent(a, b, q)
  {
    var t := Dft(a, w, q);
    forall m | 0 <= m < |a|
      ensures a[m] % q == b[m] % q
    {
      InverseTransform(a, t, k, w, v, q, m);
      InverseTransform(b, t, k, w, v, q, m);
      CancelSize(Pow2(k), nInv, a[m], q);
      CancelSize(Pow2(k), nInv, b[m], q);
      MulCong(nInv, nInv, Pow2(k) * a[m], Pow2(k) * b[m], q);
    }
  }

  lemma CancelSize(n: int, nInv: int, c: int, q: int)
    requires q > 0 && (n * nInv) % q == 1 % q
    ensures (nInv * (n * c)) % q == c % q
    ensures (((n * c) % q) * nInv) % q == c % q
  {
    MulAssoc(nInv, n, c);
    MulCong(n * nInv, 1, c, c, q);
    MulMods(n * c, nInv, q);
  }

  /** The inverse of the root: w^(n - 1). */
  function RootInverse(w: int, k: nat, q: int): (v: int)
    requires q > 0
    ensures 0 <= v < q
  {
    Pow(w, Pow2(k) - 1) % q
  }

  lemma RootInverseCorrect(w: int, k: nat, q: int)
    requires q > 0 && k > 0 && NegRoot(w, k, q)
    ensures (w * RootInverse(w, k, q)) % q == 1 % q
  {
    RootOrder(w, k, q);
    MulMods(w, Pow(w, Pow2(k) - 1), q);
  }

  /** The inverse transform: evaluation at the powers of the inverse root, then division by n. */
  function InverseDft(t: Poly, k: nat, w: int, nInv: int, q: int): (r: Poly)
    requires q > 0
    ensures |r| == |t|
  {
    var v := RootInverse(w, k, q);
    seq(|t|, m requires 0 <= m < |t| => ((Eval(t, Pow(v, m)) % q) * nInv) % q)
  }

  /** Transforming and transforming back gives every coefficient, reduced. */
  lemma RoundTrip(a: Poly, k: nat, w: int, nInv: int, q: int)
    requires q > 0 && |a| == Pow2(k)
    requires NegRoot(w, k, q) && (Pow2(k) * nInv) % q == 1 % q
    ensures InverseDft(Dft(a, w, q), k, w, nInv, q) == Reduce(a, q)
  {
    var t, v := Dft(a, w, q), RootInverse(w, k, q);
    if k > 0 {
      RootInverseCorrect(w, k, q);
    }
    forall m | 0 <= m < |a|
      ensures InverseDft(t, k, w, nInv, q)[m] == Reduce(a, q)[m]
    {
      InverseTransform(a, t, k, w, v, q, m);
      CancelSize(Pow2(k), nInv, a[m], q);
    }
  }

  // ------------------------------------------------ products

  /** Every power of the root is an n-th root of unity. */
  lemma PowerOfRoot(w: int, k: nat, q: int, j: nat)
    requires q > 0 && NegRoot(w, k, q) && j < Pow2(k)
    ensures Pow(Pow(w, j), Pow2(k)) % q == 1 % q
  {
    var n := Pow2(k);
    if k == 0 {
      PowOne(n);
    } else {
      RootOrder(w, k, q);
      PowMul(w, j, n);
      PowMul(w, n, j);
      assert j * n == n * j;
      PowCong(Pow(w, n), 1, j, q);
      PowOne(j);
    }
  }

  /** The transform turns cyclic convolution into a pointwise product. */
  lemma DftOfConv(a: Poly, b: Poly, k: nat, w: int, q: int, j: nat)
    requires q > 0 && |a| == |b| == Pow2(k) && j < |a|
    requires NegRoot(w, k, q)
    ensures Dft(Conv(a, b), w, q)[j] == (Dft(a, w, q)[j] * Dft(b, w, q)[j]) % q
  {
    PowerOfRoot(w, k, q, j);
    EvalConv(a, b, Pow(w, j), q);
    MulMods(Eval(a, Pow(w, j)), Eval(b, Pow(w, j)), q);
  }

  /** Scaling one factor by c and the other by its inverse leaves the product alone. */
  lemma ScaledProduct(x: int, y: int, c: int, d: int, q: int)
    requires q > 0 && (c * d) % q == 1 % q
    ensures ((c * x) * (d * y)) % q == (x * y) % q
  {
    MulSwap(c, x, d, y);
    MulCong(c * d, 1, x * y, x * y, q);
  }

  /** The pointwise product of the transforms of c*a and a factor of b scaled by 1/c. */
  lemma BlindedDft(a: Poly, b: Poly, ae: Poly, be: Poly, c: int, d: int, k: nat, w: int, q: int, j: nat)
    requires q > 0 && |a| == |b| == Pow2(k) && j < |a|
    requires NegRoot(w, k, q) && (c * d) % q == 1 % q
    requires Congruent(ae, Scale(c, a), q) && Congruent(be, Scale(d, b), q)
    ensures (Dft(ae, w, q)[j] * Dft(be, w, q)[j]) % q == Dft(Conv(a, b), w, q)[j]
  {
    var x := Pow(w, j);
    PowerOfRoot(w, k, q, j);
    EvalConv(a, b, x, q);
    MulMods(Eval(ae, x), Eval(be, x), q);
    EvalCong(ae, Scale(c, a), x, x, q);
    EvalCong(be, Scale(d, b), x, x, q);
    EvalScale(c, a, x);
    EvalScale(d, b, x);
    MulCong(Eval(ae, x), c * Eval(a, x), Eval(be, x), d * Eval(b, x), q);
    ScaledProduct(Eval(a, x), Eval(b, x), c, d, q);
  }

  /** A root and its residue define the same transform. */
  lemma DftOfResidue(a: Poly, w: int, w': int, q: int)
    requires q > 0 && w % q == w' % q
    ensures Dft(a, w, q) == Dft(a, w', q)
  {
    forall j | 0 <= j < |a|
      ensures Dft(a, w, q)[j] == Dft(a, w', q)[j]
    {
      PowCong(w, w', j, q);
      EvalCong(a, a, Pow(w, j), Pow(w', j), q);
    }
  }
}
