/**
 Integer facts shared by the bignum modules: powers, Euclidean division and congruence.
 Every lemma takes explicit arguments, so that no proof rests on quantified arithmetic.
 */
module Arithmetic {

  function Pow(b: nat, e: nat): (r: nat)
    ensures b > 0 ==> r > 0
  {
    if e == 0 then 1 else b * Pow(b, e - 1)
  }

  lemma {:induction false} PowAdd(b: nat, m: nat, n: nat)
    ensures Pow(b, m + n) == Pow(b, m) * Pow(b, n)
  {
    if m == 0 {
    } else {
      PowAdd(b, m - 1, n);
      calc {
        Pow(b, m + n);
        b * Pow(b, m - 1 + n);
        b * (Pow(b, m - 1) * Pow(b, n));
        { Assoc(b, Pow(b, m - 1), Pow(b, n)); }
        Pow(b, m) * Pow(b, n);
      }
    }
  }

  lemma {:induction false} PowSucc(b: nat, m: nat)
    ensures Pow(b, m + 1) == b * Pow(b, m)
  {
  }

  lemma {:induction false} PowMono(b: nat, m: nat, n: nat)
    requires b > 0 && m <= n
    ensures Pow(b, m) <= Pow(b, n)
  {
    if m < n {
      PowMono(b, m, n - 1);
      MulMono(1, b, Pow(b, n - 1));
    }
  }

  lemma {:induction false} PowMul(b: nat, m: nat, n: nat)
    ensures Pow(Pow(b, m), n) == Pow(b, m * n)
  {
    if n == 0 {
      assert m * n == 0;
    } else {
      PowMul(b, m, n - 1);
      assert m * n == m + m * (n - 1) by { Distrib(m, 1, n - 1); }
      PowAdd(b, m, m * (n - 1));
    }
  }

  // ---- multiplication ----

  lemma Assoc(a: int, b: int, c: int)
    ensures a * (b * c) == (a * b) * c
  {
  }

  lemma MulSwap(a: int, b: int, c: int)
    ensures a * (b * c) == b * (a * c)
  {
  }

  lemma MulRotate(a: int, b: int, c: int)
    ensures (a * b) * c == (a * c) * b
  {
  }

  lemma ScaleSum(w: int, u: int, v: int, x: int, z: int, wz: int)
    requires u == v + x * z && wz == w * z
    ensures w * u == w * v + x * wz
  {
    MulSwap(w, x, z);
  }

  lemma Distrib(a: int, b: int, c: int)
    ensures a * (b + c) == a * b + a * c
    ensures (b + c) * a == b * a + c * a
    ensures a * (b - c) == a * b - a * c
    ensures (b - c) * a == b * a - c * a
  {
  }

  lemma MulMono(a: int, b: int, c: int)
    requires a <= b && 0 <= c
    ensures a * c <= b * c && c * a <= c * b
  {
    Distrib(c, b, a);
    assert (b - a) * c >= 0;
  }

  lemma MulStrict(a: int, b: int, c: int)
    requires a < b && 0 < c
    ensures a * c < b * c && c * a < c * b
  {
    Distrib(c, b, a);
    assert (b - a) * c > 0;
  }

  lemma MulPos(a: int, b: int)
    requires 0 <= a && 0 <= b
    ensures 0 <= a * b
    ensures 0 < a && 0 < b ==> 0 < a * b
  {
  }

  lemma MulCancelLess(a: int, b: int, c: int)
    requires 0 <= c && a * c < b * c
    ensures a < b
  {
    if a >= b { MulMono(b, a, c); }
  }

  // ---- Euclidean division ----

  lemma DivModUnique(a: int, n: int, q: int, r: int)
    requires 0 < n && a == q * n + r && 0 <= r < n
    ensures a / n == q && a % n == r
  {
    var q', r' := a / n, a % n;
    assert a == n * q' + r';
    Distrib(n, q', q);
    assert n * (q' - q) == r - r';
    if q' - q >= 1 {
      MulMono(1, q' - q, n);
    } else if q' - q <= -1 {
      MulMono(q' - q, -1, n);
    }
  }

  lemma DivModIdentity(a: int, n: int)
    requires 0 < n
    ensures a == (a / n) * n + a % n
    ensures 0 <= a % n < n
    ensures 0 <= a ==> 0 <= a / n <= a
  {
    if 0 <= a {
      if a / n < 0 { MulMono(a / n, -1, n); }
      MulMono(1, n, a / n);
    }
  }

  lemma ModSmall(a: int, n: int)
    requires 0 <= a < n
    ensures a % n == a && a / n == 0
  {
    DivModUnique(a, n, 0, a);
  }

  lemma ModAddMultiple(a: int, k: int, n: int)
    requires 0 < n
    ensures (a + k * n) % n == a % n
    ensures (a + k * n) / n == a / n + k
  {
    DivModIdentity(a, n);
    Distrib(n, a / n, k);
    DivModUnique(a + k * n, n, a / n + k, a % n);
  }

  lemma DivMono(a: int, b: int, n: int)
    requires 0 < n && a <= b
    ensures a / n <= b / n
  {
    DivModIdentity(a, n);
    DivModIdentity(b, n);
    if a / n > b / n {
      MulMono(b / n + 1, a / n, n);
      Distrib(n, b / n, 1);
    }
  }

  /** a < k * n exactly when the quotient of a by n stays below k. */
  lemma DivLess(a: int, n: int, k: int)
    requires 0 < n
    ensures a < k * n <==> a / n < k
  {
    DivModIdentity(a, n);
    if a / n < k {
      MulMono(a / n + 1, k, n);
      Distrib(n, a / n, 1);
    } else {
      MulMono(k, a / n, n);
    }
  }

  /** Dividing twice is dividing by the product. */
  lemma DivDiv(a: nat, m: nat, n: nat)
    requires 0 < m && 0 < n
    ensures m * n > 0 && a / (m * n) == a / m / n
  {
    MulPos(m, n);
    var q, r := a / m, a % m;
    var q2, r2 := q / n, q % n;
    DivModIdentity(a, m);
    DivModIdentity(q, n);
    calc {
      a;
      q * m + r;
      (q2 * n + r2) * m + r;
      { Distrib(m, q2 * n, r2); Assoc(q2, n, m); }
      q2 * (n * m) + (r2 * m + r);
    }
    MulMono(r2, n - 1, m);
    Distrib(m, n, 1);
    MulPos(r2, m);
    assert n * m == m * n;
    DivModUnique(a, m * n, q2, r2 * m + r);
  }

  // ---- congruence ----

  predicate Cong(a: int, b: int, n: int)
    requires 0 < n
  {
    (a - b) % n == 0
  }

  lemma CongIntro(a: int, b: int, n: int, k: int)
    requires 0 < n && a - b == k * n
    ensures Cong(a, b, n)
  {
    DivModUnique(a - b, n, k, 0);
  }

  lemma CongElim(a: int, b: int, n: int) returns (k: int)
    requires 0 < n && Cong(a, b, n)
    ensures a - b == k * n
  {
    k := (a - b) / n;
    DivModIdentity(a - b, n);
  }

  lemma CongRefl(a: int, n: int)
    requires 0 < n
    ensures Cong(a, a, n)
  {
    CongIntro(a, a, n, 0);
  }

  lemma CongSym(a: int, b: int, n: int)
    requires 0 < n && Cong(a, b, n)
    ensures Cong(b, a, n)
  {
    var k := CongElim(a, b, n);
    assert b - a == (-k) * n;
    CongIntro(b, a, n, -k);
  }

  lemma CongTrans(a: int, b: int, c: int, n: int)
    requires 0 < n && Cong(a, b, n) && Cong(b, c, n)
    ensures Cong(a, c, n)
  {
    var k := CongElim(a, b, n);
    var m := CongElim(b, c, n);
    Distrib(n, k, m);
    CongIntro(a, c, n, k + m);
  }

  lemma CongAdd(a: int, b: int, c: int, d: int, n: int)
    requires 0 < n && Cong(a, b, n) && Cong(c, d, n)
    ensures Cong(a + c, b + d, n) && Cong(a - c, b - d, n)
  {
    var k := CongElim(a, b, n);
    var m := CongElim(c, d, n);
    Distrib(n, k, m);
    CongIntro(a + c, b + d, n, k + m);
    CongIntro(a - c, b - d, n, k - m);
  }

  lemma CongMul(a: int, b: int, c: int, d: int, n: int)
    requires 0 < n && Cong(a, b, n) && Cong(c, d, n)
    ensures Cong(a * c, b * d, n)
  {
    var k := CongElim(a, b, n);
    var m := CongElim(c, d, n);
    calc {
      a * c - b * d;
      { Distrib(c, a, b); Distrib(b, c, d); }
      (a - b) * c + b * (c - d);
      (k * n) * c + b * (m * n);
      { Assoc(k, n, c); Assoc(k, c, n); Assoc(b, m, n); assert n * c == c * n; }
      (k * c) * n + (b * m) * n;
      { Distrib(n, k * c, b * m); }
      (k * c + b * m) * n;
    }
    CongIntro(a * c, b * d, n, k * c + b * m);
  }

  lemma CongMod(a: int, n: int)
    requires 0 < n
    ensures Cong(a % n, a, n) && Cong(a, a % n, n)
  {
    DivModIdentity(a, n);
    CongIntro(a, a % n, n, a / n);
    CongSym(a, a % n, n);
  }

  /** A congruent value inside [0, n) is the residue itself. */
  lemma CongResidue(x: int, a: int, n: int)
    requires 0 <= x < n && Cong(x, a, n)
    ensures x == a % n
  {
    var k := CongElim(x, a, n);
    assert a == (-k) * n + x;
    DivModUnique(a, n, -k, x);
  }

  /** Cancelling a factor that has an inverse modulo n. */
  lemma CongCancel(x: int, y: int, r: int, ri: int, n: int)
    requires 0 < n && Cong(r * ri, 1, n) && Cong(x * r, y * r, n)
    ensures Cong(x, y, n)
  {
    CongRefl(ri, n);
    CongMul(x * r, y * r, ri, ri, n);
    Assoc(x, r, ri);
    Assoc(y, r, ri);
    CongRefl(x, n);
    CongRefl(y, n);
    CongMul(x, x, r * ri, 1, n);
    CongMul(y, y, r * ri, 1, n);
    CongSym(x * (r * ri), x, n);
    CongTrans(x, x * (r * ri), y * (r * ri), n);
    CongTrans(x, y * (r * ri), y, n);
  }

  lemma {:induction false} CongPow(a: nat, b: nat, e: nat, n: int)
    requires 0 < n && Cong(a, b, n)
    ensures Cong(Pow(a, e), Pow(b, e), n)
  {
    if e == 0 {
      CongRefl(1, n);
    } else {
      CongPow(a, b, e - 1, n);
      CongMul(a, b, Pow(a, e - 1), Pow(b, e - 1), n);
    }
  }
}
