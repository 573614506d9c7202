/**
 Integer arithmetic as Go computes it (truncated division and remainder), congruence
 modulo q, and powers. Every fact about `%` that the other modules use is proved here
 once, from the quotient-remainder identity.
 */
module Modular {

  /** Go's `/`: the quotient is truncated toward zero. */
  function Quo(a: int, m: int): int
    requires m != 0
  {
    if a >= 0 then a / m else -((-a) / m)
  }

  /** Go's `%` for a positive modulus: the remainder has the sign of the dividend. */
  function Rem(a: int, m: int): int
    requires m > 0
  {
    if a >= 0 then a % m else -((-a) % m)
  }

  lemma DivIs(a: int, q: int, k: int, r: int)
    requires 0 <= r < q
    requires a == k * q + r
    ensures a / q == k && a % q == r
  {
    var k', r' := a / q, a % q;
    assert (k - k') * q == r' - r;
    assert k - k' >= 1 ==> (k - k') * q >= q;
    assert k - k' <= -1 ==> (k - k') * q <= -q;
  }

  lemma ModIs(a: int, q: int, k: int, r: int)
    requires 0 <= r < q
    requires a == k * q + r
    ensures a % q == r
  {
    DivIs(a, q, k, r);
  }

  lemma CongFromMultiple(a: int, b: int, k: int, q: int)
    requires q > 0
    requires a == b + k * q
    ensures a % q == b % q
  {
    assert a == (b / q + k) * q + b % q;
    ModIs(a, q, b / q + k, b % q);
  }

  lemma CongMultiple(a: int, b: int, q: int) returns (k: int)
    requires q > 0
    requires a % q == b % q
    ensures a == b + k * q
  {
    k := a / q - b / q;
    assert a == b + k * q by {
      assert (a / q - b / q) * q == a / q * q - b / q * q;
    }
  }

  lemma AddCong(a: int, b: int, c: int, d: int, q: int)
    requires q > 0
    requires a % q == b % q && c % q == d % q
    ensures (a + c) % q == (b + d) % q
  {
    var k := CongMultiple(a, b, q);
    var l := CongMultiple(c, d, q);
    assert a + c == (b + d) + (k + l) * q by {
      assert (k + l) * q == k * q + l * q;
    }
    CongFromMultiple(a + c, b + d, k + l, q);
  }

  lemma SubCong(a: int, b: int, c: int, d: int, q: int)
    requires q > 0
    requires a % q == b % q && c % q == d % q
    ensures (a - c) % q == (b - d) % q
  {
    var k := CongMultiple(a, b, q);
    var l := CongMultiple(c, d, q);
    assert a - c == (b - d) + (k - l) * q by {
      assert (k - l) * q == k * q - l * q;
    }
    CongFromMultiple(a - c, b - d, k - l, q);
  }

  lemma MulCong(a: int, b: int, c: int, d: int, q: int)
    requires q > 0
    requires a % q == b % q && c % q == d % q
    ensures (a * c) % q == (b * d) % q
  {
    var k := CongMultiple(a, b, q);
    var l := CongMultiple(c, d, q);
    assert a * c == b * d + (k * c + b * l) * q by {
      assert a * c == b * c + k * q * c;
      assert b * c == b * d + b * (l * q);
      assert (k * c + b * l) * q == k * q * c + b * (l * q);
    }
    CongFromMultiple(a * c, b * d, k * c + b * l, q);
  }

  lemma ModMod(a: int, q: int)
    requires q > 0
    ensures (a % q) % q == a % q
  {
    ModIs(a % q, q, 0, a % q);
  }

  lemma SmallMod(a: int, q: int)
    requires 0 <= a < q
    ensures a % q == a
  {
    ModIs(a, q, 0, a);
  }

  /** Reducing both factors first does not change a reduced product. */
  lemma MulMods(a: int, b: int, q: int)
    requires q > 0
    ensures ((a % q) * (b % q)) % q == (a * b) % q
    ensures (a * (b % q)) % q == (a * b) % q
    ensures ((a % q) * b) % q == (a * b) % q
  {
    ModMod(a, q);
    ModMod(b, q);
    MulCong(a % q, a, b % q, b, q);
    MulCong(a, a, b % q, b, q);
    MulCong(a % q, a, b, b, q);
  }

  /** The idiom `((v % q) + q) % q` of the source is the Euclidean remainder. */
  lemma NormalizeIsMod(v: int, q: int)
    requires q > 0
    ensures Rem(Rem(v, q) + q, q) == v % q
  {
    if v >= 0 {
      CongFromMultiple(v % q + q, v % q, 1, q);
      ModMod(v, q);
    } else {
      var m := (-v) % q;
      assert v == (-((-v) / q) - 1) * q + (q - m) by {
        assert -v == (-v) / q * q + m;
        assert (-((-v) / q) - 1) * q == -((-v) / q * q) - q;
      }
      if m == 0 {
        CongFromMultiple(q, 0, 1, q);
        SmallMod(0, q);
        ModIs(v, q, -((-v) / q), 0);
      } else {
        ModIs(v, q, -((-v) / q) - 1, q - m);
        SmallMod(q - m, q);
      }
    }
  }

  lemma MulAssoc(a: int, b: int, c: int)
    ensures a * (b * c) == (a * b) * c
  {
  }

  lemma MulMonotone(a: nat, c: nat, b: nat, d: nat)
    requires a <= c && b <= d
    ensures 0 <= a * b <= c * d
  {
    assert a * b <= c * b;
    assert c * b <= c * d;
  }

  lemma MulSwap(a: int, b: int, c: int, d: int)
    ensures (a * b) * (c * d) == (a * c) * (b * d)
  {
    MulAssoc(a * b, c, d);
    assert a * b * c == a * c * b;
    MulAssoc(a * c, b, d);
  }

  // ---------------------------------------------------------------- powers

  function Pow(b: int, e: nat): int {
    if e == 0 then 1 else b * Pow(b, e - 1)
  }

  function Pow2(e: nat): (p: nat)
    ensures p >= 1
  {
    if e == 0 then 1 else 2 * Pow2(e - 1)
  }

  lemma {:induction false} Pow2Add(a: nat, b: nat)
    ensures Pow2(a + b) == Pow2(a) * Pow2(b)
  {
    if a > 0 {
      Pow2Add(a - 1, b);
      MulAssoc(2, Pow2(a - 1), Pow2(b));
    }
  }

  lemma {:induction false} PowAdd(b: int, m: nat, n: nat)
    ensures Pow(b, m + n) == Pow(b, m) * Pow(b, n)
  {
    if m > 0 {
      PowAdd(b, m - 1, n);
      assert Pow(b, m + n) == b * Pow(b, m - 1 + n);
    }
  }

  lemma {:induction false} PowProduct(a: int, b: int, e: nat)
    ensures Pow(a * b, e) == Pow(a, e) * Pow(b, e)
  {
    if e > 0 {
      PowProduct(a, b, e - 1);
      MulSwap(a, b, Pow(a, e - 1), Pow(b, e - 1));
    }
  }

  lemma {:induction false} PowMul(b: int, m: nat, n: nat)
    ensures m * n >= 0
    ensures Pow(b, m * n) == Pow(Pow(b, m), n)
  {
    if n > 0 {
      PowMul(b, m, n - 1);
      assert m * n == m + m * (n - 1);
      PowAdd(b, m, m * (n - 1));
    }
  }

  lemma {:induction false} PowOne(e: nat)
    ensures Pow(1, e) == 1
  {
    if e > 0 {
      PowOne(e - 1);
    }
  }

  lemma {:induction false} PowCong(a: int, b: int, e: nat, q: int)
    requires q > 0
    requires a % q == b % q
    ensures Pow(a, e) % q == Pow(b, e) % q
  {
    if e > 0 {
      PowCong(a, b, e - 1, q);
      MulCong(a, b, Pow(a, e - 1), Pow(b, e - 1), q);
    }
  }

  /** Squares commute with powers: (b^2)^e = (b^e)^2. */
  lemma PowSquare(b: int, e: nat)
    ensures Pow(b * b, e) == Pow(b, e) * Pow(b, e) == Pow(b, 2 * e)
  {
    PowProduct(b, b, e);
    PowAdd(b, e, e);
  }
}
