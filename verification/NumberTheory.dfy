/**
 Greatest common divisors, primes, and the two modular routines of ringlwe.go:
 the extended Euclidean inverse and square-and-multiply exponentiation.
 */
module NumberTheory {
  import opened Modular

  function Gcd(a: nat, b: nat): nat
    decreases b
  {
    if b == 0 then a else Gcd(b, a % b)
  }

  ghost predicate Prime(p: int) {
    p > 1 && forall d :: 1 < d < p ==> p % d != 0
  }

  lemma {:induction false} GcdDivides(a: nat, b: nat)
    requires a > 0 || b > 0
    ensures Gcd(a, b) > 0
    ensures a % Gcd(a, b) == 0 && b % Gcd(a, b) == 0
    decreases b
  {
    if b == 0 {
      DivIs(a, a, 1, 0);
      DivIs(0, a, 0, 0);
    } else {
      GcdDivides(b, a % b);
      var g := Gcd(b, a % b);
      DivIs(0, g, 0, 0);
      CombinationDivides(a, a / b, b, a % b, g);
    }
  }

  lemma CombinationDivides(a: int, q: int, b: int, r: int, g: int)
    requires g > 0 && b % g == 0 && r % g == 0
    requires a == q * b + r
    ensures a % g == 0
  {
    DivIs(0, g, 0, 0);
    MulCong(q, q, b, 0, g);
    AddCong(q * b, 0, r, 0, g);
  }

  /** A unit modulo m has no common factor with m. */
  lemma UnitIsCoprime(a: nat, x: int, m: int)
    requires m > 1
    requires (a * x) % m == 1
    ensures Gcd(a, m) == 1
  {
    GcdDivides(a, m);
    var g := Gcd(a, m);
    DivIs(0, g, 0, 0);
    SmallMod(1, m);
    var k := CongMultiple(a * x, 1, m);
    MulCong(a, 0, x, x, g);
    MulCong(k, k, m, 0, g);
    SubCong(a * x, 0, k * m, 0, g);
    assert 1 % g == 0;
    if g > 1 {
      SmallMod(1, g);
    }
  }

  lemma PrimeCoprime(a: nat, p: int)
    requires Prime(p) && 0 < a < p
    ensures Gcd(a, p) == 1
  {
    GcdDivides(a, p);
    var g := Gcd(a, p);
    if g > a {
      SmallMod(a, g);
    }
  }

  /** Inverses modulo m are unique. */
  lemma InverseUnique(a: int, x: int, y: int, m: int)
    requires m > 0
    requires (a * x) % m == 1 % m && (a * y) % m == 1 % m
    ensures x % m == y % m
  {
    MulCong(a * x, 1, y, y, m);
    MulCong(a * y, 1, x, x, m);
    assert (a * x) * y == (a * y) * x by {
      MulAssoc(a, x, y);
      MulAssoc(a, y, x);
    }
  }

  /** modInverse: whenever a is coprime to m, the inverse of a in [0, m). */
  method ModInverse(a: int, m: int) returns (x: int)
    requires a >= 0 && m > 1
    ensures 0 <= x < m
    ensures Gcd(a, m) == 1 ==> (a * x) % m == 1
  {
    var oldR, r := a, m;
    var oldS, s := 1, 0;
    CongFromMultiple(m, 0, 1, m);
    while r != 0
      invariant oldR >= 0 && r >= 0
      invariant Gcd(oldR, r) == Gcd(a, m)
      invariant (a * oldS) % m == oldR % m
      invariant (a * s) % m == r % m
      decreases r
    {
      var q := Quo(oldR, r);
      EuclidStep(oldR, r);
      BezoutStep(a, oldS, s, oldR, r, q, m);
      oldR, r := r, oldR - q * r;
      oldS, s := s, oldS - q * s;
    }
    x := Rem(Rem(oldS, m) + m, m);
    NormalizeIsMod(oldS, m);
    MulMods(a, oldS, m);
    if Gcd(a, m) == 1 {
      SmallMod(1, m);
    }
  }

  lemma EuclidStep(a: nat, b: nat)
    requires b > 0
    ensures 0 <= a - Quo(a, b) * b < b
    ensures Gcd(b, a - Quo(a, b) * b) == Gcd(a, b)
  {
    assert a - Quo(a, b) * b == a % b;
  }

  lemma BezoutStep(a: int, oldS: int, s: int, oldR: int, r: int, q: int, m: int)
    requires m > 0
    requires (a * oldS) % m == oldR % m && (a * s) % m == r % m
    ensures (a * (oldS - q * s)) % m == (oldR - q * r) % m
  {
    MulCong(q, q, a * s, r, m);
    SubCong(a * oldS, oldR, q * (a * s), q * r, m);
    assert a * (oldS - q * s) == a * oldS - q * (a * s) by {
      MulAssoc(a, q, s);
      MulAssoc(q, a, s);
    }
  }

  /** powMod: base^exp mod m, by square and multiply. */
  method PowMod(base: int, exp: nat, m: int) returns (result: int)
    requires m > 1
    ensures result % m == Pow(base, exp) % m
    ensures base >= 0 ==> result == Pow(base, exp) % m
  {
    result := 1;
    var bb := Rem(base, m);
    var e := exp;
    SmallMod(1, m);
    RemCong(base, m);
    PowCong(bb, base, exp, m);
    while e > 0
      invariant base >= 0 ==> 0 <= result < m && bb >= 0
      invariant (result * Pow(bb, e)) % m == Pow(base, exp) % m
    {
      PowSquare(bb, e / 2);
      RemCong(bb * bb, m);
      PowCong(Rem(bb * bb, m), bb * bb, e / 2, m);
      if e % 2 == 1 {
        RemCong(result * bb, m);
        OddStep(result, bb, e, m);
        result := Rem(result * bb, m);
      }
      assert (result * Pow(bb * bb, e / 2)) % m == Pow(base, exp) % m;
      MulCong(result, result, Pow(Rem(bb * bb, m), e / 2), Pow(bb * bb, e / 2), m);
      bb := Rem(bb * bb, m);
      e := e / 2;
    }
    if base >= 0 {
      SmallMod(result, m);
    }
  }

  lemma OddStep(result: int, bb: int, e: nat, m: int)
    requires m > 0 && e % 2 == 1
    requires Rem(result * bb, m) % m == (result * bb) % m
    ensures (Rem(result * bb, m) * Pow(bb * bb, e / 2)) % m == (result * Pow(bb, e)) % m
  {
    var p := Pow(bb * bb, e / 2);
    PowSquare(bb, e / 2);
    assert Pow(bb, e) == bb * p;
    MulAssoc(result, bb, p);
    MulCong(Rem(result * bb, m), result * bb, p, p, m);
  }

  lemma RemCong(a: int, m: int)
    requires m > 0
    ensures Rem(a, m) % m == a % m
  {
    if a >= 0 {
      ModMod(a, m);
    } else {
      ModMod(-a, m);
      SubCong(0, 0, (-a) % m, -a, m);
    }
  }

  // ------------------------------------------------------ the two moduli

  /** Trial division up to the square root decides primality. */
  lemma TrialDivision(p: nat, bound: nat)
    requires p > 1 && p < bound * bound
    requires forall d :: 2 <= d < bound ==> p % d != 0
    ensures Prime(p)
  {
    forall d | 1 < d < p
      ensures p % d != 0
    {
      if p % d == 0 && d >= bound {
        var c := p / d;
        assert p == c * d;
        CofactorSmall(c, d, bound);
        DivIs(p, c, d, 0);
        assert false;
      }
    }
  }

  lemma CofactorSmall(c: int, d: int, bound: nat)
    requires d >= bound && d < c * d < bound * bound
    ensures 1 < c < bound
  {
    assert c <= 1 ==> c * d <= d;
    assert c >= bound ==> c * d >= bound * d >= bound * bound;
  }

  lemma Prime7681()
    ensures Prime(7681)
  {
    assert forall d :: 2 <= d < 88 ==> 7681 % d != 0;
    TrialDivision(7681, 88);
  }

  lemma Prime12289()
    ensures Prime(12289)
  {
    assert forall d :: 2 <= d < 111 ==> 12289 % d != 0;
    TrialDivision(12289, 111);
  }
}
