/**
 Montgomery multiplication: the per-modulus constant and the interleaved product.
 */
module Montgomery {
  import opened Arithmetic
  import opened Limbs
  import opened MpiCore
  import opened MpiArith

  /** mm is minus the inverse of the lowest limb of N modulo the limb base. */
  ghost predicate IsMontConstant(mm: nat, m0: nat)
  {
    mm < Base() && Cong(m0 * mm, -1, Base())
  }

  /** A congruence also holds modulo every divisor of the modulus. */
  lemma CongDivisor(a: int, b: int, n: int, m: int)
    requires 0 < n && 0 < m && n * m > 0 && Cong(a, b, n * m)
    ensures Cong(a, b, n)
  {
    var k := CongElim(a, b, n * m);
    assert k * (n * m) == (k * m) * n by { MulRotate(k, m, n); Assoc(k, m, n); }
    CongIntro(a, b, n, k * m);
  }

  /** Reducing modulo the limb base keeps residues modulo a smaller power of two. */
  lemma {:induction false} CongLimb(a: int, j: nat)
    requires j <= biL
    ensures Cong(a % Base(), a, Pow(2, j))
  {
    CongMod(a, Base());
    PowAdd(2, j, biL - j);
    CongDivisor(a % Base(), a, Pow(2, j), Pow(2, biL - j));
  }

  /** The starting value is an inverse modulo 16. */
  lemma StartInverse(m0: nat)
    requires m0 % 2 == 1
    ensures Cong(m0 * (m0 + 8 * (((m0 + 2) / 4) % 2)), 1, 16)
  {
    var k, r := m0 / 8, m0 % 8;
    assert m0 == 8 * k + r;
    assert r == 1 || r == 3 || r == 5 || r == 7;
    var bit := ((m0 + 2) / 4) % 2;
    assert bit == (if r == 3 || r == 5 then 1 else 0) by {
      assert (m0 + 2) / 4 == 2 * k + (r + 2) / 4;
    }
    var c := 8 * bit;
    calc {
      m0 * (m0 + c) - 1;
      (8 * k + r) * (8 * k + r + c) - 1;
      { SquareTerms(k, r, c); }
      16 * (4 * (k * k) + k * r) + 8 * (k * c) + r * (r + c) - 1;
    }
    var q := 4 * (k * k) + k * r;
    if bit == 0 {
      assert r * (r + c) - 1 == (if r == 1 then 0 else 48);
      CongIntro(m0 * (m0 + c), 1, 16, q + (if r == 1 then 0 else 3));
    } else {
      assert r * (r + c) - 1 == (if r == 3 then 32 else 64);
      CongIntro(m0 * (m0 + c), 1, 16, q + 4 * k + (if r == 3 then 2 else 4));
    }
  }

  lemma SquareTerms(k: int, r: int, c: int)
    ensures (8 * k + r) * (8 * k + r + c) == 16 * (4 * (k * k) + k * r) + 8 * (k * c) + r * (r + c)
  {
    Distrib(8 * k + r, 8 * k, r + c);
    assert (8 * k + r) * (8 * k) == 64 * (k * k) + 8 * (k * r);
    assert (8 * k + r) * (r + c) == 8 * (k * r) + 8 * (k * c) + r * (r + c);
  }

  /** One Newton step doubles the number of correct bits. */
  lemma {:induction false} NewtonStep(m0: nat, x: nat, j: nat)
    requires 2 * j <= biL && Cong(m0 * x, 1, Pow(2, j))
    ensures Cong(m0 * ((x * (2 - m0 * x)) % Base()), 1, Pow(2, 2 * j))
  {
    hide Base;
    var p := Pow(2, j);
    PowAdd(2, j, j);
    var n := Pow(2, 2 * j);
    var k := CongElim(m0 * x, 1, p);
    var y := x * (2 - m0 * x);
    assert m0 * y - 1 == (-(k * k)) * n by {
      Assoc(m0, x, 2 - m0 * x);
      var e := k * p;
      assert m0 * x == 1 + e;
      assert (1 + e) * (2 - (1 + e)) - 1 == -(e * e);
      assert e * e == (k * k) * (p * p) by { Assoc(k * p, k, p); MulRotate(k, p, k); Assoc(k * k, p, p); }
    }
    CongIntro(m0 * y, 1, n, -(k * k));
    CongLimb(y, 2 * j);
    CongRefl(m0, n);
    CongMul(m0, m0, y % Base(), y, n);
    CongTrans(m0 * (y % Base()), m0 * y, 1, n);
  }

  /** mpi_montg_init: limb-wide arithmetic that wraps modulo Base(). */
  method MontgInit(N: Mpi) returns (mm: nat)
    requires N.Valid() && N.p != [] && N.p[0] % 2 == 1
    ensures IsMontConstant(mm, N.p[0])
  {
    hide Base;
    var m0 := N.p[0];
    var x: nat := (m0 + 4 * (((m0 + 2) / 4) % 2) * 2) % Base();
    StartInverse(m0);
    StartWrapped(m0);
    var i: nat := biL;
    ghost var e: nat, j: nat := LIMB_LOG + 1, 4;
    FirstRound();
    while i >= 8
      invariant NewtonRound(i, e, j) && x < Base()
      invariant Cong(m0 * x, 1, Pow(2, j))
      decreases i
    {
      NextRound(i, e, j);
      NewtonStep(m0, x, j);
      x := (x * (2 - m0 * x)) % Base();
      i := i / 2;
      e, j := e - 1, 2 * j;
    }
    LastRound(i, e, j);
    mm := (0 - x) % Base();
    NegateInverse(m0, x);
  }

  /** i limb bits are left to halve e times more; j bits of the inverse are correct. */
  ghost predicate NewtonRound(i: nat, e: nat, j: nat)
  {
    i == 4 * Pow(2, e) && j * Pow(2, e) == biL && 4 <= j
  }

  lemma {:induction false} FirstRound()
    ensures NewtonRound(biL, LIMB_LOG + 1, 4)
  {
    PowSucc(2, LIMB_LOG);
  }

  lemma {:induction false} NextRound(i: nat, e: nat, j: nat)
    requires NewtonRound(i, e, j) && i >= 8
    ensures e > 0 && 2 * j <= biL && NewtonRound(i / 2, e - 1, 2 * j)
  {
    EvenPower(e);
    PowSucc(2, e - 1);
    DoubleBits(j, Pow(2, e - 1));
  }

  lemma {:induction false} LastRound(i: nat, e: nat, j: nat)
    requires NewtonRound(i, e, j) && i < 8
    ensures j == biL && Pow(2, j) == Base()
  {
    EvenPower(e);
  }

  lemma {:induction false} EvenPower(e: nat)
    ensures e == 0 ==> Pow(2, e) == 1
    ensures e > 0 ==> Pow(2, e) >= 2
  {
    if e > 0 {
      PowMono(2, 1, e);
    }
    assert Pow(2, 1) == 2;
  }

  lemma DoubleBits(j: nat, h: nat)
    requires j * (2 * h) == biL && h >= 1
    ensures (2 * j) * h == biL && 2 * j <= biL
  {
    MulRotate(j, 2, h);
    Assoc(j, 2, h);
    MulMono(1, h, 2 * j);
  }

  lemma {:induction false} StartWrapped(m0: nat)
    requires Cong(m0 * (m0 + 8 * (((m0 + 2) / 4) % 2)), 1, 16)
    ensures Cong(m0 * ((m0 + 4 * (((m0 + 2) / 4) % 2) * 2) % Base()), 1, Pow(2, 4))
  {
    var y := m0 + 8 * (((m0 + 2) / 4) % 2);
    assert Pow(2, 4) == 16;
    CongLimb(y, 4);
    CongRefl(m0, 16);
    CongMul(m0, m0, y % Base(), y, 16);
    CongTrans(m0 * (y % Base()), m0 * y, 1, 16);
  }

  lemma NegateInverse(m0: nat, x: nat)
    requires Cong(m0 * x, 1, Base())
    ensures IsMontConstant((0 - x) % Base(), m0)
  {
    var b := Base();
    CongMod(0 - x, b);
    CongRefl(m0, b);
    CongMul(m0, m0, (0 - x) % b, 0 - x, b);
    assert m0 * (0 - x) == 0 - m0 * x;
    CongRefl(0, b);
    CongAdd(0, 0, m0 * x, 1, b);
    CongTrans(m0 * ((0 - x) % b), m0 * (0 - x), -1, b);
  }

  // ---- interleaved multiplication and reduction ----

  /** The factor u1 clears the lowest limb of T + u0 * B + u1 * N. */
  lemma LowLimbClears(t: nat, d0: nat, u0: nat, B: nat, b0: nat, N: nat, n0: nat, mm: nat, u1: nat)
    requires IsMontConstant(mm, n0)
    requires Cong(t, d0, Base()) && Cong(B, b0, Base()) && Cong(N, n0, Base())
    requires u1 == ((d0 + u0 * b0) * mm) % Base()
    ensures (t + u0 * B + u1 * N) % Base() == 0
  {
    hide Base;
    var b := Base();
    var s := d0 + u0 * b0;
    CongRefl(u0, b);
    CongMul(u0, u0, B, b0, b);
    CongAdd(t, d0, u0 * B, u0 * b0, b);
    CongMod(s * mm, b);
    CongMul(u1, s * mm, N, n0, b);
    assert (s * mm) * n0 == s * (n0 * mm) by { Assoc(s, mm, n0); }
    CongRefl(s, b);
    CongMul(s, s, n0 * mm, -1, b);
    CongTrans(u1 * N, s * (n0 * mm), s * -1, b);
    CongAdd(t + u0 * B, s, u1 * N, -s, b);
    ModSmall(0, b);
  }

  /** The quantities of one round and what it establishes. */
  lemma {:induction false} RoundInvariant(t: nat, u0: nat, u1: nat, B: nat, N: nat, t': nat, i: nat, a: nat)
    requires 0 < N && u0 < Base() && u1 < Base() && t < N + B
    requires t' * Base() == t + u0 * B + u1 * N
    requires Cong(t * Weight(i), a * B, N)
    ensures t' < N + B
    ensures Cong(t' * Weight(i + 1), (a + u0 * Weight(i)) * B, N)
  {
    hide Base, Weight;
    var b, w := Base(), Weight(i);
    MulMono(u0, b - 1, B);
    MulMono(u1, b - 1, N);
    Distrib(B, b, 1);
    Distrib(N, b, 1);
    Distrib(b, N, B);
    MulCancelLess(t', N + B, b);
    WeightSucc(i);
    Assoc(t', b, w);
    Distrib(w, t, u0 * B + u1 * N);
    Distrib(w, u0 * B, u1 * N);
    MulRotate(u1, N, w);
    MulRotate(u0, B, w);
    CongIntro(u0 * B * w + (u1 * w) * N, u0 * B * w, N, u1 * w);
    CongAdd(t * w, a * B, u0 * B * w + (u1 * w) * N, u0 * B * w, N);
    Distrib(B, a, u0 * w);
  }

  /** Room for one round: everything fits below limb i + n + 2. */
  lemma {:induction false} RoundRoom(low: nat, t: nat, u0: nat, u1: nat, B: nat, N: nat, i: nat, n: nat, m: nat)
    requires low < Weight(i) && t < N + B && B <= N < Weight(n) && u0 < Base() && u1 < Base()
    requires i + n + 2 <= m
    ensures low + Weight(i) * t + (B * u0) * Weight(i) < Weight(m)
    ensures low + Weight(i) * (t + u0 * B) + (N * u1) * Weight(i) < Weight(m)
    ensures t + u0 * B + u1 * N < Weight(n + 2)
  {
    hide Base, Weight;
    var wn := Weight(n);
    RoundSum(t, u0, u1, B, N, Base(), wn);
    WeightSucc(n);
    WeightSucc(n + 1);
    MulMono(2, Base(), Weight(n + 1));
    WeightAdd(i, n + 2);
    WeightMono(i + n + 2, m);
    RoundFits(low, Weight(i), t, u0 * B, u1 * N, Weight(n + 2));
    Commute(B, u0, Weight(i));
    Commute(N, u1, Weight(i));
  }

  lemma RoundSum(t: nat, u0: nat, u1: nat, B: nat, N: nat, b: nat, wn: nat)
    requires t < N + B && B <= N < wn && u0 < b && u1 < b
    ensures t + u0 * B + u1 * N < 2 * (b * wn) && 0 <= u0 * B && 0 <= u1 * N
  {
    MulPos(u0, B);
    MulPos(u1, N);
    OneLess(u0, b, B);
    OneLess(u1, b, N);
    MulMono(B, wn, b);
    MulMono(N, wn, b);
  }

  lemma Commute(x: nat, u: nat, w: nat)
    ensures (x * u) * w == w * (u * x)
  {
  }

  lemma OneLess(u: nat, b: nat, x: nat)
    requires u < b
    ensures u * x <= b * x - x
  {
    MulMono(u + 1, b, x);
    Distrib(x, u, 1);
  }

  lemma RoundFits(low: nat, w: nat, t: nat, x: nat, y: nat, k: nat)
    requires low < w && t + x + y < k
    ensures low + w * t + w * x < w * k
    ensures low + w * (t + x) + w * y < w * k
  {
    var s := t + x + y;
    MulMono(s + 1, k, w);
    Distrib(w, s, 1);
    Distrib(w, t, x);
    Distrib(w, t + x, y);
    MulPos(w, y);
  }

  /** The running total T[i..] after adding v * Base^i. */
  lemma {:induction false} SuffixAdd(t: seq<nat>, t0: seq<nat>, i: nat, v: nat)
    requires |t| == |t0| && i <= |t| && t[..i] == t0[..i] && Val(t) == Val(t0) + v * Weight(i)
    ensures Val(t[i..]) == Val(t0[i..]) + v
  {
    hide Base, Weight, Val;
    ValSplit(t, i);
    ValSplit(t0, i);
    var w := Weight(i);
    Distrib(w, Val(t[i..]), Val(t0[i..]) + v);
    Distrib(w, Val(t0[i..]), v);
    if Val(t[i..]) < Val(t0[i..]) + v {
      MulStrict(Val(t[i..]), Val(t0[i..]) + v, w);
    } else if Val(t[i..]) > Val(t0[i..]) + v {
      MulStrict(Val(t0[i..]) + v, Val(t[i..]), w);
    }
  }

  lemma {:induction false} LowLimbCong(p: seq<nat>)
    requires p != []
    ensures Cong(Val(p), p[0], Base())
  {
    hide Base, Weight;
    ValCons(p);
    CongIntro(Val(p), p[0], Base(), Val(p[1..]));
  }

  /** What the low limbs of B contribute is all of B. */
  lemma {:induction false} LimbsUsed(B: seq<nat>, n: nat)
    requires IsLimbs(B) && Val(B) < Weight(n)
    ensures Val(B[..if |B| < n then |B| else n]) == Val(B)
  {
    if |B| < n {
      ValFull(B);
    } else {
      ValHighZero(B, n);
    }
  }

  /** T = (T + u0 * B + u1 * N) / Base, with T's window moving up one limb. */
  method MontRound(B: Mpi, N: Mpi, T: Mpi, mm: nat, i: nat, u0: nat, ghost a: nat)
    requires T != B && T != N && B.Valid() && N.Valid() && T.Valid() && u0 < Base()
    requires N.p != [] && B.p != [] && i < |N.p| && 2 * |N.p| + 2 <= |T.p|
    requires IsMontConstant(mm, N.p[0]) && B.Abs() <= N.Abs() && 0 < N.Abs()
    requires Val(T.p[i..]) < N.Abs() + B.Abs()
    requires Cong(Val(T.p[i..]) * Weight(i), a * B.Abs(), N.Abs())
    modifies T
    ensures T.Valid() && |T.p| == |old(T.p)|
    ensures Val(T.p[i + 1..]) < N.Abs() + B.Abs()
    ensures Cong(Val(T.p[i + 1..]) * Weight(i + 1), (a + u0 * Weight(i)) * B.Abs(), N.Abs())
  {
    hide Base, Weight, Val, Pow;
    var n := |N.p|;
    var m := if |B.p| < n then |B.p| else n;
    ghost var t, low := Val(T.p[i..]), Val(T.p[..i]);
    ghost var bv, nv := B.Abs(), N.Abs();
    ValBound(N.p);
    LimbsUsed(B.p, n);
    ValFull(N.p);
    ValSplit(T.p, i);
    ValBound(T.p[..i]);
    var u1 := ((T.p[i] + u0 * B.p[0]) * mm) % Base();
    RoundRoom(low, t, u0, u1, bv, nv, i, n, |T.p|);
    ghost var t0 := T.p;
    MulHlp(m, B, T, i, u0);
    SuffixAdd(T.p, t0, i, bv * u0);
    ValSplit(T.p, i);
    ghost var t1 := T.p;
    MulHlp(n, N, T, i, u1);
    SuffixAdd(T.p, t1, i, nv * u1);
    ghost var t2 := T.p;
    ghost var s := Val(t2[i..]);
    RoundEnd(t0, t2, B.p, N.p, i, n, u0, u1, mm, s);
    T.p := T.p[i := u0];
    T.p := T.p[i + n + 2 := 0];
    assert T.p[i + 1..] == t2[i..][1..];
    RoundInvariant(t, u0, u1, bv, nv, Val(T.p[i + 1..]), i, a);
  }

  lemma {:induction false} RoundEnd(t0: seq<nat>, t2: seq<nat>, B: seq<nat>, N: seq<nat>, i: nat, n: nat, u0: nat, u1: nat, mm: nat, s: nat)
    requires i + n + 2 < |t0| == |t2| && IsLimbs(t2) && B != [] && N != []
    requires IsMontConstant(mm, N[0]) && u1 == ((t0[i] + u0 * B[0]) * mm) % Base()
    requires s == Val(t2[i..]) == Val(t0[i..]) + u0 * Val(B) + u1 * Val(N) < Weight(n + 2)
    ensures t2[i..][1..] == t2[i + 1..] && t2[i + n + 2] == 0
    ensures Val(t2[i + 1..]) * Base() == s
  {
    hide Base, Weight, Val;
    LowLimbCong(t0[i..]);
    LowLimbCong(B);
    LowLimbCong(N);
    LowLimbClears(Val(t0[i..]), t0[i], u0, Val(B), B[0], Val(N), N[0], mm, u1);
    ValCons(t2[i..]);
    assert t2[i..][1..] == t2[i + 1..];
    DivModUnique(s, Base(), Val(t2[i + 1..]), t2[i..][0]);
    ValHighZero(t2[i..], n + 2);
    assert t2[i..][n + 2] == t2[i + n + 2];
  }

  /**
   A = A * B * R^-1 mod N with R = Base^n. The error code answers a scratch buffer that is
   visibly too short; otherwise the loop needs the 2n + 2 limbs every caller provides.
   */
  method MontMul(A: Mpi, B: Mpi, N: Mpi, mm: nat, T: Mpi) returns (ret: Status)
    requires T != A && T != B && T != N && A != N
    requires A.Valid() && B.Valid() && N.Valid() && T.Valid()
    requires N.p != [] && B.p != [] && |A.p| >= |N.p| + 1
    requires |T.p| < |N.p| + 1 || |T.p| >= 2 * |N.p| + 2
    requires IsMontConstant(mm, N.p[0]) && 0 < N.Abs()
    requires A.Abs() < Weight(|N.p|) && B.Abs() <= N.Abs()
    modifies A, T
    ensures A.Valid() && T.Valid() && A.s == old(A.s) && |A.p| == |old(A.p)| && |T.p| == |old(T.p)|
    ensures ret == if |T.p| < |N.p| + 1 then BadInput else Ok
    ensures ret == Ok ==> A.Abs() < N.Abs()
    ensures ret == Ok ==> Cong(A.Abs() * Weight(|N.p|), old(A.Abs()) * old(B.Abs()), N.Abs())
    ensures ret != Ok ==> A.p == old(A.p)
  {
    hide Base, Weight, Val, Pow;
    if |T.p| < |N.p| + 1 {
      return BadInput;
    }
    T.p := Zeros(|T.p|);
    var n := |N.p|;
    ghost var ap, bp, bv, nv := A.p, B.p, B.Abs(), N.Abs();
    ValZeros(T.p[0..]);
    MontStart(ap, bv, nv);
    var i := 0;
    while i < n
      invariant 0 <= i <= n && A.p == ap && B.p == bp && A.s == old(A.s)
      invariant T.Valid() && |T.p| == |old(T.p)|
      invariant Val(T.p[i..]) < nv + bv
      invariant Cong(Val(T.p[i..]) * Weight(i), Val(ap[..i]) * bv, nv)
    {
      var u0 := A.p[i];
      ValTake(ap, i);
      MontRound(B, N, T, mm, i, u0, Val(ap[..i]));
      i := i + 1;
    }
    ghost var t := Val(T.p[n..]);
    ValBound(N.p);
    CopyWindow(T.p, ap, n, nv + bv);
    ValHighZero(ap, n);
    A.p := T.p[n..2 * n + 1] + A.p[n + 1..];
    assert A.Abs() == t;
    FinalReduce(A, N, T, n, bv);
    MontEnd(t, A.Abs(), n, Val(ap) * bv, nv);
    return Ok;
  }

  lemma {:induction false} MontStart(a: seq<nat>, bv: nat, nv: nat)
    requires 0 < nv
    ensures 0 < nv + bv && Cong(0 * Weight(0), Val(a[..0]) * bv, nv)
  {
    assert a[..0] == [];
    CongRefl(0, nv);
  }

  /** The n + 1 limbs copied out of T hold the whole running total. */
  lemma {:induction false} CopyWindow(t: seq<nat>, a: seq<nat>, n: nat, bound: nat)
    requires IsLimbs(t) && IsLimbs(a) && 2 * n + 2 <= |t| && n + 1 <= |a|
    requires Val(t[n..]) < bound < 2 * Weight(n) && Val(a) < Weight(n)
    ensures IsLimbs(t[n..2 * n + 1] + a[n + 1..])
    ensures Val(t[n..2 * n + 1] + a[n + 1..]) == Val(t[n..])
  {
    WeightSucc(n);
    MulMono(2, Base(), Weight(n));
    ValHighZero(t[n..], n + 1);
    ValHighZero(a, n);
    var r := t[n..2 * n + 1] + a[n + 1..];
    assert t[n..][..n + 1] == t[n..2 * n + 1] == r[..n + 1];
    ValTrim(r, n + 1);
  }

  /** The conditional subtraction; the other branch only burns the same time on T. */
  method FinalReduce(A: Mpi, N: Mpi, T: Mpi, n: nat, ghost bv: nat)
    requires A != N && A != T && N != T && A.Valid() && N.Valid() && T.Valid()
    requires n == |N.p| && n <= |A.p| && n <= |T.p| && 0 < N.Abs() && bv <= N.Abs() && A.Abs() < N.Abs() + bv
    requires A.Abs() == Val(T.p[n..])
    modifies A, T
    ensures A.Valid() && T.Valid() && A.s == old(A.s) && |A.p| == |old(A.p)| && |T.p| == |old(T.p)|
    ensures A.Abs() < N.Abs()
    ensures A.Abs() == old(A.Abs()) || A.Abs() == old(A.Abs()) - N.Abs()
  {
    hide Base, Weight, Val, Pow;
    ValFull(N.p);
    var c := CmpAbs(A, N);
    if c >= 0 {
      SubHlp(n, N, A);
    } else {
      ValBound(N.p);
      ValHighZero(A.p, n);
      ValSplit(T.p, n);
      MulMono(1, Weight(n), A.Abs());
      SubHlp(n, A, T);
    }
  }

  lemma {:induction false} MontEnd(t: nat, a: nat, n: nat, v: int, nv: nat)
    requires 0 < nv && Cong(t * Weight(n), v, nv) && (a == t || a == t - nv)
    ensures Cong(a * Weight(n), v, nv)
  {
    hide Weight;
    if a == t - nv {
      Distrib(Weight(n), t, nv);
      assert a * Weight(n) - t * Weight(n) == (0 - Weight(n)) * nv;
      CongIntro(a * Weight(n), t * Weight(n), nv, 0 - Weight(n));
      CongTrans(a * Weight(n), t * Weight(n), v, nv);
    }
  }

  /** A = A * R^-1 mod N: a Montgomery product with 1. */
  method MontRed(A: Mpi, N: Mpi, mm: nat, T: Mpi) returns (ret: Status)
    requires T != A && T != N && A != N
    requires A.Valid() && N.Valid() && T.Valid()
    requires N.p != [] && |A.p| >= |N.p| + 1
    requires |T.p| < |N.p| + 1 || |T.p| >= 2 * |N.p| + 2
    requires IsMontConstant(mm, N.p[0]) && 0 < N.Abs() && A.Abs() < Weight(|N.p|)
    modifies A, T
    ensures A.Valid() && T.Valid() && A.s == old(A.s) && |A.p| == |old(A.p)| && |T.p| == |old(T.p)|
    ensures ret == if |T.p| < |N.p| + 1 then BadInput else Ok
    ensures ret == Ok ==> A.Abs() < N.Abs()
    ensures ret == Ok ==> Cong(A.Abs() * Weight(|N.p|), old(A.Abs()), N.Abs())
    ensures ret != Ok ==> A.p == old(A.p)
  {
    hide Base, Weight, Pow;
    var U := new Mpi();
    Lset(U, 1);
    ret := MontMul(A, U, N, mm, T);
  }
}
