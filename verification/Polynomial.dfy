/**
 Polynomials over the integers, as coefficient sequences: evaluation, the even/odd and
 low/high splits behind the Cooley-Tukey transform, and cyclic convolution.
 Nothing here is reduced modulo q except where a lemma says so.
 */
module Polynomial {
  import opened Modular

  type Poly = seq<int>

  /** The value of a at x, by Horner's rule: a[0] + a[1]*x + a[2]*x^2 + ... */
  function Eval(a: Poly, x: int): int {
    if a == [] then 0 else a[0] + x * Eval(a[1..], x)
  }

  function Sum(n: nat, f: int -> int): int {
    if n == 0 then 0 else Sum(n - 1, f) + f(n - 1)
  }

  function Evens(a: Poly): (r: Poly)
    requires |a| % 2 == 0
    ensures |r| == |a| / 2
  {
    seq(|a| / 2, i requires 0 <= i < |a| / 2 => a[2 * i])
  }

  function Odds(a: Poly): (r: Poly)
    requires |a| % 2 == 0
    ensures |r| == |a| / 2
  {
    seq(|a| / 2, i requires 0 <= i < |a| / 2 => a[2 * i + 1])
  }

  function Plus(a: Poly, b: Poly): (r: Poly)
    requires |a| == |b|
    ensures |r| == |a|
  {
    seq(|a|, i requires 0 <= i < |a| => a[i] + b[i])
  }

  function Minus(a: Poly, b: Poly): (r: Poly)
    requires |a| == |b|
    ensures |r| == |a|
  {
    seq(|a|, i requires 0 <= i < |a| => a[i] - b[i])
  }

  function Scale(c: int, a: Poly): (r: Poly)
    ensures |r| == |a|
  {
    seq(|a|, i requires 0 <= i < |a| => c * a[i])
  }

  /** a[j] * w^j: substituting w*x for x. */
  function Twist(a: Poly, w: int): (r: Poly)
    ensures |r| == |a|
  {
    seq(|a|, j requires 0 <= j < |a| => Pow(w, j) * a[j])
  }

  /** Coefficients reduced to [0, q). */
  function Reduce(a: Poly, q: int): (r: Poly)
    requires q > 0
    ensures |r| == |a|
  {
    seq(|a|, i requires 0 <= i < |a| => a[i] % q)
  }

  ghost predicate Congruent(a: Poly, b: Poly, q: int)
    requires q > 0
  {
    |a| == |b| && forall i :: 0 <= i < |a| ==> a[i] % q == b[i] % q
  }

  ghost predicate Reduced(a: Poly, q: int) {
    forall i :: 0 <= i < |a| ==> 0 <= a[i] < q
  }

  // ------------------------------------------------------------ evaluation

  /** Horner's rule computes the sum of a[i] * x^i. */
  lemma {:induction false} EvalIsSum(a: Poly, x: int)
    ensures Eval(a, x) == Sum(|a|, i => if 0 <= i < |a| then a[i] * Pow(x, i) else 0)
  {
    var f := i => if 0 <= i < |a| then a[i] * Pow(x, i) else 0;
    if a != [] {
      var n := |a| - 1;
      EvalConcat(a[..n], [a[n]], x);
      assert a == a[..n] + [a[n]];
      EvalIsSum(a[..n], x);
      SumExt(n, f, i => if 0 <= i < |a[..n]| then a[..n][i] * Pow(x, i) else 0);
      assert Eval([a[n]], x) == a[n];
    }
  }

  lemma {:induction false} SumExt(n: nat, f: int -> int, g: int -> int)
    requires forall i :: 0 <= i < n ==> f(i) == g(i)
    ensures Sum(n, f) == Sum(n, g)
  {
    if n > 0 {
      SumExt(n - 1, f, g);
    }
  }

  lemma {:induction false} SumCong(n: nat, f: int -> int, g: int -> int, q: int)
    requires q > 0
    requires forall i :: 0 <= i < n ==> f(i) % q == g(i) % q
    ensures Sum(n, f) % q == Sum(n, g) % q
  {
    if n > 0 {
      SumCong(n - 1, f, g, q);
      AddCong(Sum(n - 1, f), Sum(n - 1, g), f(n - 1), g(n - 1), q);
    }
  }

  lemma {:induction false} EvalConcat(l: Poly, r: Poly, x: int)
    ensures Eval(l + r, x) == Eval(l, x) + Pow(x, |l|) * Eval(r, x)
  {
    if l == [] {
      assert l + r == r;
    } else {
      EvalConcat(l[1..], r, x);
      assert (l + r)[1..] == l[1..] + r;
      MulAssoc(x, Pow(x, |l| - 1), Eval(r, x));
      Distribute(x, Eval(l[1..], x), Pow(x, |l| - 1) * Eval(r, x));
    }
  }

  lemma Distribute(x: int, a: int, b: int)
    ensures x * (a + b) == x * a + x * b
  {
  }

  lemma {:induction false} EvalPlus(a: Poly, b: Poly, x: int)
    requires |a| == |b|
    ensures Eval(Plus(a, b), x) == Eval(a, x) + Eval(b, x)
  {
    if a != [] {
      EvalPlus(a[1..], b[1..], x);
      assert Plus(a, b)[1..] == Plus(a[1..], b[1..]);
      Distribute(x, Eval(a[1..], x), Eval(b[1..], x));
    }
  }

  lemma {:induction false} EvalScale(c: int, a: Poly, x: int)
    ensures Eval(Scale(c, a), x) == c * Eval(a, x)
  {
    if a != [] {
      EvalScale(c, a[1..], x);
      assert Scale(c, a)[1..] == Scale(c, a[1..]);
      var e := Eval(a[1..], x);
      Distribute(c, a[0], x * e);
      MulAssoc(c, x, e);
      MulAssoc(x, c, e);
    }
  }

  lemma EvalMinus(a: Poly, b: Poly, x: int)
    requires |a| == |b|
    ensures Eval(Minus(a, b), x) == Eval(a, x) - Eval(b, x)
  {
    EvalScale(-1, b, x);
    EvalPlus(a, Scale(-1, b), x);
    assert Minus(a, b) == Plus(a, Scale(-1, b));
  }

  lemma {:induction false} EvalTwistFrom(a: Poly, w: int, x: int)
    ensures Eval(Twist(a, w), x) == Eval(a, w * x)
  {
    if a != [] {
      var t := a[1..];
      EvalTwistFrom(t, w, x);
      assert Twist(a, w)[1..] == Scale(w, Twist(t, w)) by {
        forall j | 0 <= j < |t|
          ensures Pow(w, j + 1) * a[j + 1] == w * (Pow(w, j) * t[j])
        {
          MulAssoc(w, Pow(w, j), t[j]);
        }
      }
      EvalScale(w, Twist(t, w), x);
      MulAssoc(x, w, Eval(t, w * x));
    }
  }

  lemma {:induction false} EvalCong(a: Poly, b: Poly, x: int, y: int, q: int)
    requires q > 0
    requires Congruent(a, b, q)
    requires x % q == y % q
    ensures Eval(a, x) % q == Eval(b, y) % q
  {
    if a != [] {
      EvalCong(a[1..], b[1..], x, y, q);
      MulCong(x, y, Eval(a[1..], x), Eval(b[1..], y), q);
      AddCong(a[0], b[0], x * Eval(a[1..], x), y * Eval(b[1..], y), q);
    }
  }

  /** a(x) = e(x^2) + x * o(x^2). */
  lemma {:induction false} EvalEvenOdd(a: Poly, x: int)
    requires |a| % 2 == 0
    ensures Eval(a, x) == Eval(Evens(a), x * x) + x * Eval(Odds(a), x * x)
  {
    if a != [] {
      var t := a[2..];
      EvalEvenOdd(t, x);
      assert a[1..][1..] == t;
      assert Evens(a)[1..] == Evens(t);
      assert Odds(a)[1..] == Odds(t);
      var e, o := Eval(Evens(t), x * x), Eval(Odds(t), x * x);
      assert Eval(a, x) == a[0] + x * (a[1] + x * (e + x * o));
      HornerStep(x, a[0], a[1], e, o);
    }
  }

  lemma HornerStep(x: int, a0: int, a1: int, e: int, o: int)
    ensures a0 + x * (a1 + x * (e + x * o)) == (a0 + (x * x) * e) + x * (a1 + (x * x) * o)
  {
    Distribute(x, e, x * o);
    MulAssoc(x, x, o);
    Distribute(x, a1, x * e + (x * x) * o);
    Distribute(x, x * e, (x * x) * o);
    MulAssoc(x, x, e);
    Distribute(x, a1, (x * x) * o);
  }

  // ----------------------------------------------------- cyclic convolution

  /** Coefficient m of the product of a and b modulo x^n - 1, by the schoolbook rule. */
  function ConvCoeff(a: Poly, b: Poly, m: int): int
    requires |a| == |b|
  {
    Sum(|a|, i => if 0 <= i < |a| then a[i] * b[(m - i) % |a|] else 0)
  }

  function Conv(a: Poly, b: Poly): (r: Poly)
    requires |a| == |b|
    ensures |r| == |a|
  {
    seq(|a|, m => ConvCoeff(a, b, m))
  }

  /** b shifted cyclically by i places: multiplication by x^i modulo x^n - 1. */
  function Rotate(b: Poly, i: int): (r: Poly)
    ensures |r| == |b|
  {
    seq(|b|, m requires 0 <= m < |b| => b[(m - i) % |b|])
  }

  /** Sum of the first t rows of the schoolbook tableau, row i being a[i] * (x^i b). */
  function Rows(a: Poly, b: Poly, t: nat): (r: Poly)
    requires t <= |a| == |b|
    ensures |r| == |a|
  {
    if t == 0 then seq(|a|, i => 0) else Plus(Rows(a, b, t - 1), Scale(a[t - 1], Rotate(b, t - 1)))
  }

  lemma {:induction false} RowsAt(a: Poly, b: Poly, t: nat, m: nat)
    requires t <= |a| == |b| && m < |a|
    ensures Rows(a, b, t)[m] == Sum(t, i => if 0 <= i < |a| then a[i] * b[(m - i) % |a|] else 0)
  {
    if t > 0 {
      RowsAt(a, b, t - 1, m);
    }
  }

  lemma ConvIsRows(a: Poly, b: Poly)
    requires |a| == |b|
    ensures Conv(a, b) == Rows(a, b, |a|)
  {
    forall m | 0 <= m < |a|
      ensures Conv(a, b)[m] == Rows(a, b, |a|)[m]
    {
      RowsAt(a, b, |a|, m);
    }
  }

  /** One cyclic shift multiplies the value by x at every n-th root of unity. */
  lemma EvalShift(b: Poly, x: int, q: int)
    requires q > 0 && |b| > 0
    requires Pow(x, |b|) % q == 1 % q
    ensures Eval([b[|b| - 1]] + b[..|b| - 1], x) % q == (x * Eval(b, x)) % q
  {
    var n := |b| - 1;
    var last, front := b[n], Eval(b[..n], x);
    assert b == b[..n] + [last];
    EvalConcat(b[..n], [last], x);
    assert Eval([last], x) == last;
    assert ([last] + b[..n])[1..] == b[..n];
    Distribute(x, front, Pow(x, n) * last);
    MulAssoc(x, Pow(x, n), last);
    assert x * Eval(b, x) == x * front + Pow(x, |b|) * last;
    MulCong(Pow(x, |b|), 1, last, last, q);
    AddCong(x * front, x * front, Pow(x, |b|) * last, last, q);
  }

  lemma RotateNext(b: Poly, i: nat)
    requires |b| > 0
    ensures Rotate(b, i + 1) == [Rotate(b, i)[|b| - 1]] + Rotate(b, i)[..|b| - 1]
  {
    var n := |b|;
    var shifted := [Rotate(b, i)[n - 1]] + Rotate(b, i)[..n - 1];
    forall m | 0 <= m < n
      ensures Rotate(b, i + 1)[m] == shifted[m]
    {
      if m == 0 {
        CongFromMultiple(n - 1 - i, -(i + 1), 1, n);
      } else {
        assert m - 1 - i == m - (i + 1);
      }
    }
  }

  lemma {:induction false} EvalRotate(b: Poly, i: nat, x: int, q: int)
    requires q > 0 && |b| > 0
    requires Pow(x, |b|) % q == 1 % q
    ensures Eval(Rotate(b, i), x) % q == (Pow(x, i) * Eval(b, x)) % q
  {
    if i == 0 {
      forall m | 0 <= m < |b|
        ensures m % |b| == m
      {
        SmallMod(m, |b|);
      }
      assert Rotate(b, 0) == b;
    } else {
      EvalRotate(b, i - 1, x, q);
      RotateNext(b, i - 1);
      EvalShift(Rotate(b, i - 1), x, q);
      MulCong(x, x, Eval(Rotate(b, i - 1), x), Pow(x, i - 1) * Eval(b, x), q);
      MulAssoc(x, Pow(x, i - 1), Eval(b, x));
    }
  }

  lemma {:induction false} EvalRows(a: Poly, b: Poly, t: nat, x: int, q: int)
    requires q > 0
    requires t <= |a| == |b|
    requires Pow(x, |b|) % q == 1 % q
    ensures Eval(Rows(a, b, t), x) % q == (Eval(a[..t], x) * Eval(b, x)) % q
  {
    if t == 0 {
      EvalZero(|a|, x);
    } else {
      var row := Rotate(b, t - 1);
      EvalRows(a, b, t - 1, x, q);
      EvalPlus(Rows(a, b, t - 1), Scale(a[t - 1], row), x);
      EvalScale(a[t - 1], row, x);
      EvalRotate(b, t - 1, x, q);
      MulCong(a[t - 1], a[t - 1], Eval(row, x), Pow(x, t - 1) * Eval(b, x), q);
      AddCong(Eval(Rows(a, b, t - 1), x), Eval(a[..t - 1], x) * Eval(b, x),
              a[t - 1] * Eval(row, x), a[t - 1] * (Pow(x, t - 1) * Eval(b, x)), q);
      EvalSnoc(a, t, x, Eval(b, x));
    }
  }

  lemma EvalSnoc(a: Poly, t: nat, x: int, y: int)
    requires 0 < t <= |a|
    ensures Eval(a[..t], x) * y == Eval(a[..t - 1], x) * y + a[t - 1] * (Pow(x, t - 1) * y)
  {
    assert a[..t] == a[..t - 1] + [a[t - 1]];
    EvalConcat(a[..t - 1], [a[t - 1]], x);
    assert Eval([a[t - 1]], x) == a[t - 1];
    SnocStep(Eval(a[..t - 1], x), Pow(x, t - 1), a[t - 1], y);
  }

  lemma SnocStep(e: int, p: int, c: int, y: int)
    ensures (e + p * c) * y == e * y + c * (p * y)
  {
    MulAssoc(c, p, y);
  }

  lemma {:induction false} EvalZero(n: nat, x: int)
    ensures Eval(seq(n, i => 0), x) == 0
  {
    if n > 0 {
      EvalZero(n - 1, x);
      assert seq(n, i => 0)[1..] == seq(n - 1, i => 0);
    }
  }

  /** At every n-th root of unity the convolution evaluates to the product of the values. */
  lemma EvalConv(a: Poly, b: Poly, x: int, q: int)
    requires q > 0 && |a| == |b|
    requires Pow(x, |b|) % q == 1 % q
    ensures Eval(Conv(a, b), x) % q == (Eval(a, x) * Eval(b, x)) % q
  {
    ConvIsRows(a, b);
    EvalRows(a, b, |a|, x, q);
    assert a[..|a|] == a;
  }
}
