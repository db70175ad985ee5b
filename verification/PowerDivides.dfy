/**
 When a modulus divides a power, read off prime factors, and with it the exact boundary of
 modular exponentiation for negative bases.
 */
module PowerDivides {
  import opened Arithmetic
  import opened MpiGcd
  import opened ExpMod

  // ---- divisibility ----

  lemma DividesIntro(d: nat, q: nat)
    requires d > 0
    ensures Divides(d, q * d)
  {
    MulPos(q, d);
    DivModUnique(q * d, d, q, 0);
  }

  lemma Quotient(d: nat, a: nat) returns (q: nat)
    requires Divides(d, a)
    ensures a == q * d
  {
    q := a / d;
    DivModIdentity(a, d);
  }

  lemma DividesMultiple(d: nat, a: nat, k: nat)
    requires Divides(d, a)
    ensures Divides(d, k * a)
  {
    var q := Quotient(d, a);
    Assoc(k, q, d);
    MulPos(k, q);
    DividesIntro(d, k * q);
  }

  lemma DividesTrans(c: nat, d: nat, a: nat)
    requires Divides(c, d) && Divides(d, a)
    ensures Divides(c, a)
  {
    var q := Quotient(d, a);
    DividesMultiple(c, d, q);
  }

  lemma CancelFactor(c: nat, d: nat, a: nat)
    requires c > 0 && d > 0 && Divides(d * c, a * c)
    ensures Divides(d, a)
  {
    var q := Quotient(d * c, a * c);
    Assoc(q, d, c);
    MulPos(q, d);
    SameFactor(a, q * d, c);
    DividesIntro(d, q);
  }

  lemma SameFactor(a: nat, b: nat, c: nat)
    requires c > 0 && a * c == b * c
    ensures a == b
  {
    if a < b { MulStrict(a, b, c); }
    if b < a { MulStrict(b, a, c); }
  }

  /** A divisor of b * c that has nothing in common with b divides c. */
  lemma {:induction false} CoprimeDivides(a: nat, b: nat, c: nat)
    requires a > 0 && Gcd(a, b) == 1 && Divides(a, b * c)
    ensures Divides(a, c)
  {
    if c > 0 {
      GcdScale(a, b, c);
      DividesIntro(a, c);
      assert c * a == a * c;
      GcdGreatest(a * c, b * c, a);
    } else {
      DividesIntro(a, 0);
    }
  }

  // ---- primes ----

  ghost predicate Prime(p: nat)
  {
    p >= 2 && forall d: nat :: Divides(d, p) ==> d == 1 || d == p
  }

  lemma {:induction false} PrimeCoprime(p: nat, b: nat)
    requires Prime(p) && !Divides(p, b)
    ensures Gcd(p, b) == 1 && Gcd(b, p) == 1
  {
    GcdGreatest(p, b, p);
    GcdSymmetric(p, b);
  }

  lemma {:induction false} PrimeOfPower(p: nat, a: nat, e: nat)
    requires Prime(p) && Divides(p, Pow(a, e))
    ensures Divides(p, a)
  {
    if e == 0 {
      ModSmall(1, p);
    } else if !Divides(p, a) {
      PrimeCoprime(p, a);
      CoprimeDivides(p, a, Pow(a, e - 1));
      PrimeOfPower(p, a, e - 1);
    }
  }

  /** The least divisor from d on is prime, when there is none below d. */
  lemma {:induction false} LeastDivisor(n: nat, d: nat) returns (p: nat)
    requires 2 <= d <= n && forall c: nat :: 2 <= c < d ==> !Divides(c, n)
    ensures Prime(p) && Divides(p, n)
    decreases n - d
  {
    if Divides(d, n) {
      p := d;
      forall c: nat | Divides(c, d) ensures c == 1 || c == d {
        DividesLeq(c, d);
        DividesTrans(c, d, n);
      }
    } else {
      if d == n { DividesIntro(n, 1); }
      p := LeastDivisor(n, d + 1);
    }
  }

  /** a without its factors p. */
  lemma {:induction false} Valuation(p: nat, a: nat) returns (v: nat, x: nat)
    requires Prime(p) && a > 0
    ensures a == x * Pow(p, v) && !Divides(p, x)
    decreases a
  {
    if Divides(p, a) {
      var q := Quotient(p, a);
      assert q > 0;
      MulStrict(1, p, q);
      v, x := Valuation(p, q);
      MulRotate(x, Pow(p, v), p);
      Assoc(x, p, Pow(p, v));
      v := v + 1;
    } else {
      v, x := 0, a;
    }
  }

  lemma {:induction false} PowerOfPower(p: nat, k: nat, m: nat)
    requires p > 0 && k <= m
    ensures Divides(Pow(p, k), Pow(p, m))
  {
    PowAdd(p, m - k, k);
    DividesIntro(Pow(p, k), Pow(p, m - k));
  }

  // ---- powers ----

  /** p^k divides a^e exactly when a holds enough factors p. */
  ghost predicate Supplies(a: nat, e: nat, p: nat, k: nat)
  {
    exists j: nat :: Divides(Pow(p, j), a) && k <= j * e
  }

  lemma {:induction false} SuppliesDivides(a: nat, e: nat, p: nat, k: nat)
    requires p > 0 && Supplies(a, e, p, k)
    ensures Divides(Pow(p, k), Pow(a, e))
  {
    var j: nat :| Divides(Pow(p, j), a) && k <= j * e;
    var x := Quotient(Pow(p, j), a);
    PowProduct(x, Pow(p, j), e);
    PowMul(p, j, e);
    MulPos(j, e);
    PowerOfPower(p, k, j * e);
    DividesMultiple(Pow(p, k), Pow(p, j * e), Pow(x, e));
  }

  lemma {:induction false} DividesSupplies(a: nat, e: nat, p: nat, k: nat)
    requires Prime(p) && e > 0 && Divides(Pow(p, k), Pow(a, e))
    ensures Supplies(a, e, p, k)
  {
    if a == 0 {
      DividesIntro(Pow(p, k), 0);
      MulMono(1, e, k);
      assert Divides(Pow(p, k), a) && k <= k * e;
    } else {
      var v, x := Valuation(p, a);
      DividesIntro(Pow(p, v), x);
      MulPos(v, e);
      if k > v * e {
        PowProduct(x, Pow(p, v), e);
        PowMul(p, v, e);
        var w := Pow(p, v * e);
        PowerOfPower(p, v * e + 1, k);
        PowSucc(p, v * e);
        DividesTrans(p * w, Pow(p, k), Pow(a, e));
        CancelFactor(w, p, Pow(x, e));
        PrimeOfPower(p, x, e);
        assert false;
      }
      assert Divides(Pow(p, v), a) && k <= v * e;
    }
  }

  /** n divides m when every prime power in n divides m. */
  lemma {:induction false} ByPrimePowers(n: nat, m: nat)
    requires n > 0 && forall p: nat, k: nat :: Prime(p) && Divides(Pow(p, k), n) ==> Divides(Pow(p, k), m)
    ensures Divides(n, m)
    decreases n
  {
    if n > 1 {
      var p := LeastDivisor(n, 2);
      var n1 := Quotient(p, n);
      PowOneFactor(p);
      var m1 := Quotient(p, m);
      assert n1 > 0;
      MulStrict(1, p, n1);
      forall q: nat, k: nat | Prime(q) && Divides(Pow(q, k), n1) ensures Divides(Pow(q, k), m1) {
        OnePrimePower(p, q, k, n1, m1, n, m);
      }
      ByPrimePowers(n1, m1);
      var c := Quotient(n1, m1);
      Assoc(c, n1, p);
      DividesIntro(n, c);
    }
  }

  lemma PowOneFactor(p: nat)
    ensures Pow(p, 1) == p
  {
    assert Pow(p, 1) == p * Pow(p, 0);
  }

  lemma {:induction false} OnePrimePower(p: nat, q: nat, k: nat, n1: nat, m1: nat, n: nat, m: nat)
    requires Prime(p) && Prime(q) && Divides(Pow(q, k), n1) && n == n1 * p && m == m1 * p
    requires forall c: nat, i: nat :: Prime(c) && Divides(Pow(c, i), n) ==> Divides(Pow(c, i), m)
    ensures Divides(Pow(q, k), m1)
  {
    if p == q {
      var x := Quotient(Pow(q, k), n1);
      PowSucc(q, k);
      Assoc(x, Pow(q, k), q);
      assert Pow(q, k) * q == q * Pow(q, k);
      DividesIntro(Pow(q, k + 1), x);
      CancelFactor(q, Pow(q, k), m1);
    } else {
      DividesMultiple(Pow(q, k), n1, p);
      assert p * n1 == n;
      if Divides(p, Pow(q, k)) {
        PrimeOfPower(p, q, k);
        assert false;
      }
      PrimeCoprime(p, Pow(q, k));
      assert p * m1 == m;
      CoprimeDivides(Pow(q, k), p, m1);
    }
  }

  /** Every prime power in n is in a^e already because of the factors of a. */
  ghost predicate Covered(a: nat, e: nat, n: nat)
  {
    forall p: nat, k: nat :: Prime(p) && Divides(Pow(p, k), n) ==> Supplies(a, e, p, k)
  }

  /** n divides a^e exactly when a has each prime factor of n with sufficient power. */
  lemma {:induction false} DividesPowerExact(a: nat, e: nat, n: nat)
    requires n > 0 && e > 0
    ensures Pow(a, e) % n == 0 <==> Covered(a, e, n)
  {
    if Divides(n, Pow(a, e)) {
      forall p: nat, k: nat | Prime(p) && Divides(Pow(p, k), n) ensures Supplies(a, e, p, k) {
        DividesTrans(Pow(p, k), n, Pow(a, e));
        DividesSupplies(a, e, p, k);
      }
    }
    if Covered(a, e, n) {
      forall p: nat, k: nat | Prime(p) && Divides(Pow(p, k), n) ensures Divides(Pow(p, k), Pow(a, e)) {
        SuppliesDivides(a, e, p, k);
      }
      ByPrimePowers(n, Pow(a, e));
    }
  }

  // ---- modular exponentiation ----

  function AbsOf(a: int): nat { if a < 0 then 0 - a else a }

  lemma {:induction false} PowerResidue(a: int, e: nat, n: nat)
    requires n > 0
    ensures PowInt(a, e) % n == 0 <==> Pow(AbsOf(a), e) % n == 0
  {
    if a < 0 { PowIntNeg(0 - a, e); } else { PowIntNat(a, e); }
    NegatedZero(Pow(AbsOf(a), e), n);
  }

  lemma NegatedZero(x: nat, n: nat)
    requires n > 0
    ensures (0 - x) % n == 0 <==> x % n == 0
  {
    DivModIdentity(x, n);
    if x % n == 0 {
      assert 0 - x == (0 - x / n) * n by { Distrib(n, 0, x / n); }
      DivModUnique(0 - x, n, 0 - x / n, 0);
    }
    if (0 - x) % n == 0 {
      DivModIdentity(0 - x, n);
      var q := (0 - x) / n;
      assert x == (0 - q) * n by { Distrib(n, 0, q); }
      DivModUnique(x, n, 0 - q, 0);
    }
  }

  /**
   The value exp_mod leaves is the residue for every base that is not negative and every even
   exponent; for a negative base and an odd exponent exactly when some prime power in N has no
   counterpart in A.
   */
  lemma {:induction false} ExpModBoundary(negative: bool, a: int, e: nat, n: nat)
    requires n > 0
    ensures ExpModValue(negative, a, e, n) == PowInt(a, e) % n
       <==> !(negative && e % 2 == 1) || !Covered(AbsOf(a), e, n)
  {
    ExpModExact(negative, a, e, n);
    PowerResidue(a, e, n);
    if e % 2 == 1 { DividesPowerExact(AbsOf(a), e, n); }
  }

  /** In particular for a base without a common factor with N. */
  lemma {:induction false} ExpModCoprime(negative: bool, a: int, e: nat, n: nat)
    requires n > 1 && Gcd(AbsOf(a), n) == 1
    ensures ExpModValue(negative, a, e, n) == PowInt(a, e) % n
  {
    ExpModBoundary(negative, a, e, n);
    if negative && e % 2 == 1 && Covered(AbsOf(a), e, n) {
      var p := LeastDivisor(n, 2);
      PowOneFactor(p);
      assert Divides(Pow(p, 1), n);
      assert Supplies(AbsOf(a), e, p, 1);
      var j: nat :| Divides(Pow(p, j), AbsOf(a)) && 1 <= j * e;
      PowerOfPower(p, 1, j);
      DividesTrans(p, Pow(p, j), AbsOf(a));
      GcdGreatest(AbsOf(a), n, p);
      DividesLeq(p, 1);
      assert false;
    }
  }
}
