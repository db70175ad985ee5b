/**
 Long division of multi-precision integers and reduction modulo an integer.
 */
module MpiDiv {
  import opened Arithmetic
  import opened Limbs
  import opened MpiCore
  import opened MpiArith
  import opened IntDiv

  // ---- what division means ----

  function AbsInt(x: int): nat { if x < 0 then -x else x }

  /** Quotient rounded towards zero. */
  function TruncQuotient(a: int, b: int): int
    requires b != 0
  {
    Sign(a) * Sign(b) * (AbsInt(a) / AbsInt(b))
  }

  /** Remainder with the sign of the dividend. */
  function TruncRemainder(a: int, b: int): int
    requires b != 0
  {
    Sign(a) * (AbsInt(a) % AbsInt(b))
  }

  /** The pair is the only one with A = Q * B + R, |R| < |B| and R zero or signed like A. */
  lemma TruncDivisionUnique(a: int, b: int, q: int, r: int)
    requires b != 0
    ensures a == q * b + r && AbsInt(r) < AbsInt(b) && (r == 0 || Sign(r) == Sign(a))
       <==> q == TruncQuotient(a, b) && r == TruncRemainder(a, b)
  {
    var m, n := AbsInt(a), AbsInt(b);
    DivModIdentity(m, n);
    SignedParts(a, b, m / n, m % n);
    if a == q * b + r && AbsInt(r) < AbsInt(b) && (r == 0 || Sign(r) == Sign(a)) {
      var sa, sb := Sign(a), Sign(b);
      if a == 0 {
        ZeroQuotient(q, b);
        ModSmall(0, n);
      } else {
        var q', r' := sa * sb * q, sa * r;
        assert m == q' * n + r' by {
          if sa == 1 && sb == -1 { assert (-q) * (-b) == q * b; }
          if sa == -1 && sb == 1 { assert (-q) * b == -(q * b); }
        }
        DivModUnique(m, n, q', r');
      }
    }
  }

  lemma ZeroQuotient(q: int, b: int)
    requires b != 0 && q * b == 0
    ensures q == 0
  {
    if q > 0 {
      if b > 0 { MulPos(q, b); } else { MulPos(q, -b); }
    } else if q < 0 {
      if b > 0 { MulPos(-q, b); } else { MulPos(-q, -b); }
    }
  }

  lemma SignedParts(a: int, b: int, q: int, r: int)
    requires b != 0 && AbsInt(a) == q * AbsInt(b) + r && 0 <= r < AbsInt(b)
    ensures a == (Sign(a) * Sign(b) * q) * b + Sign(a) * r
  {
    if a == 0 {
    } else if a > 0 {
      if b < 0 { assert (-q) * b == q * (-b); }
    } else {
      if b < 0 { assert q * b == -(q * (-b)); } else { assert (-q) * b == -(q * b); }
    }
  }

  // ---- quotient digit estimate ----

  /** The two top limbs of a number whose highest limb is number t (0 when there is no second one). */
  function TopTwo(p: seq<nat>, t: nat): nat
    requires t < |p|
  {
    (if t < 1 then 0 else p[t - 1]) + Base() * p[t]
  }

  function TopThree(p: seq<nat>, i: nat): nat
    requires i < |p|
  {
    (if i < 2 then 0 else p[i - 2]) + Base() * ((if i < 1 then 0 else p[i - 1]) + Base() * p[i])
  }

  lemma {:induction false} TopTwoBounds(p: seq<nat>, t: nat)
    requires IsLimbs(p) && t < |p| && Val(p) < Weight(t + 1)
    ensures TopTwo(p, t) * Weight(t) <= Val(p) * Base() < (TopTwo(p, t) + 1) * Weight(t)
  {
    hide Base;
    ValHighZero(p, t + 1);
    ValTake(p, t);
    if t < 1 {
      ValBound(p[..t]);
      assert p[..0] == [];
      assert Weight(0) == 1;
    } else {
      hide Weight, Val;
      ValTake(p, t - 1);
      ValBound(p[..t - 1]);
      WeightSucc(t - 1);
      TwoLimbs(Val(p[..t - 1]), p[t - 1], p[t], Weight(t - 1), Base());
    }
  }

  lemma TwoLimbs(low: nat, y: nat, x: nat, w: nat, b: nat)
    requires low < w && 0 < b
    ensures (y + b * x) * (b * w) <= (low + y * w + x * (b * w)) * b < (y + b * x + 1) * (b * w)
  {
    var v := y + b * x;
    assert low + y * w + x * (b * w) == low + v * w by {
      Distrib(w, y, b * x);
      Assoc(x, b, w);
    }
    Assoc(v, w, b);
    Distrib(b, low, v * w);
    MulPos(low, b);
    MulStrict(low, w, b);
    Distrib(b * w, v, 1);
  }

  lemma {:induction false} TopThreeBounds(p: seq<nat>, i: nat)
    requires IsLimbs(p) && i < |p| && Val(p) < Weight(i + 1)
    ensures TopThree(p, i) * Weight(i) <= Val(p) * Base() * Base() < (TopThree(p, i) + 1) * Weight(i)
  {
    hide Base, Weight, Val;
    var b := Base();
    ValHighZero(p, i + 1);
    ValTake(p, i);
    if i < 1 {
      NoLimbsBelow(p);
      assert p[0] * b * b == b * (b * p[0]) by { Assoc(b, b, p[0]); Assoc(p[0], b, b); }
    } else if i < 2 {
      ValTake(p, 0);
      NoLimbsBelow(p);
      WeightSucc(0);
      OneOverLimb(p[0], p[1], b);
    } else {
      ValTake(p, i - 1);
      ValTake(p, i - 2);
      ValBound(p[..i - 2]);
      WeightSucc(i - 1);
      WeightSucc(i - 2);
      ThreeLimbs(Val(p[..i - 2]), p[i - 2], p[i - 1], p[i], Weight(i - 2), b);
    }
  }

  lemma NoLimbsBelow(p: seq<nat>)
    ensures Val(p[..0]) == 0 && Weight(0) == 1
  {
  }

  lemma OneOverLimb(x0: nat, x1: nat, b: nat)
    requires 0 < b
    ensures (0 + b * (x0 + b * x1)) * (b * 1) <= (0 + x0 * 1 + x1 * (b * 1)) * b * b < (0 + b * (x0 + b * x1) + 1) * (b * 1)
  {
    var v := x0 + b * x1;
    assert (b * v) * b == (v * b) * b;
    Distrib(b, b * v, 1);
  }

  lemma ThreeLimbs(low: nat, z: nat, y: nat, x: nat, w: nat, b: nat)
    requires low < w && 0 < b
    ensures
      var v := z + b * (y + b * x);
      v * (b * (b * w)) <= (low + z * w + y * (b * w) + x * (b * (b * w))) * b * b < (v + 1) * (b * (b * w))
  {
    var v := z + b * (y + b * x);
    assert low + z * w + y * (b * w) + x * (b * (b * w)) == low + v * w by {
      Distrib(w, z, b * (y + b * x));
      Assoc(b, y + b * x, w);
      Distrib(w, y, b * x);
      Distrib(b, y * w, (b * x) * w);
      MulSwap(b, y, w);
      MulSwap(x, b, b * w);
      Assoc(b, x, w);
      MulSwap(x, b, w);
    }
    var c := b * b;
    MulPos(b, b);
    assert (low + v * w) * b * b == low * c + (v * w) * c by {
      Assoc(low + v * w, b, b);
      Distrib(c, low, v * w);
    }
    assert b * (b * w) == c * w by { Assoc(b, b, w); }
    assert (v * w) * c == v * (c * w) by { Assoc(v, w, c); }
    MulPos(low, c);
    MulStrict(low, w, c);
    Distrib(c * w, v, 1);
  }

  /** The digit the long division is looking for at position i. */
  ghost function TrueDigit(x: nat, y: nat, k: nat): nat
    requires 0 < y
  {
    MulPos(y, Weight(k));
    DivModIdentity(x, y * Weight(k));
    x / (y * Weight(k))
  }

  /**
   A guess q that passes the test of two divisor limbs against three dividend limbs is at
   most one too big; the true digit always passes.
   */
  lemma {:induction false} EstimateBounds(x: nat, y: nat, i: nat, t: nat, x3: nat, y2: nat, q: nat)
    requires t < i && Weight(t) <= y
    requires x3 * Weight(i) <= x * Base() * Base() < (x3 + 1) * Weight(i)
    requires y2 * Weight(t) <= y * Base() < (y2 + 1) * Weight(t)
    ensures TrueDigit(x, y, i - t - 1) * y2 <= x3
    ensures q < Base() && q * y2 <= x3 ==> q <= TrueDigit(x, y, i - t - 1) + 1
  {
    hide Base, Weight, Pow;
    var b, w, k := Base(), Weight(t), Weight(i - t - 1);
    var d := y * k;
    MulPos(y, k);
    var digit := TrueDigit(x, y, i - t - 1);
    DivModIdentity(x, d);
    assert Weight(i) == (w * k) * b by {
      WeightAdd(t, i - t - 1);
      WeightSucc(i - 1);
    }
    EstimateLow(x, y, b, w, k, x3, y2, digit);
    if q < b && q * y2 <= x3 && q >= digit + 2 {
      Distrib(d, digit, 1);
      MulMono(digit + 1, q - 1, d);
      assert b <= y2 + 1 by {
        MulMono(w, y, b);
        MulCancelLess(b, y2 + 1, w);
      }
      EstimateHigh(x, y, b, w, k, x3, y2, q);
    }
  }

  lemma EstimateLow(x: nat, y: nat, b: nat, w: nat, k: nat, x3: nat, y2: nat, q: nat)
    requires 0 < b && 0 < w && 0 < k
    requires x * b * b < (x3 + 1) * ((w * k) * b) && y2 * w <= y * b && q * (y * k) <= x
    ensures q * y2 <= x3
  {
    calc <= {
      (q * y2) * ((w * k) * b);
      { Rearrange(q, y2, w, k, b); }
      (q * (y2 * w)) * (k * b);
      { MulMono(y2 * w, y * b, q); MulPos(k, b); MulMono(q * (y2 * w), q * (y * b), k * b); }
      (q * (y * b)) * (k * b);
      { Rearrange(q, y, b, k, b); Rearrange2(q, y, k, b); }
      (q * (y * k)) * b * b;
      { MulMono(q * (y * k), x, b); MulMono((q * (y * k)) * b, x * b, b); }
      x * b * b;
    }
    MulPos(w * k, b);
    MulPos(w, k);
    MulCancelLess(q * y2, x3 + 1, (w * k) * b);
  }

  lemma Rearrange(q: int, y: int, w: int, k: int, b: int)
    ensures (q * y) * ((w * k) * b) == (q * (y * w)) * (k * b)
  {
    Assoc(w, k, b);
    Assoc(q * y, w, k * b);
    Assoc(q, y, w);
  }

  lemma Rearrange2(q: int, y: int, k: int, b: int)
    ensures (q * (y * b)) * (k * b) == (q * (y * k)) * b * b
  {
    Assoc(q, y, b);
    Assoc(q, y, k);
    var u := q * y;
    Assoc(u, b, k * b);
    assert b * (k * b) == k * (b * b) by { MulSwap(b, k, b); }
    Assoc(u, k, b * b);
    Assoc(u * k, b, b);
  }

  lemma EstimateHigh(x: nat, y: nat, b: nat, w: nat, k: nat, x3: nat, y2: nat, q: nat)
    requires 2 <= q < b <= y2 + 1 && 0 < w && 0 < k
    requires x3 * ((w * k) * b) <= x * b * b && y * b < (y2 + 1) * w && q * y2 <= x3
    ensures x >= (q - 1) * (y * k)
  {
    if x < (q - 1) * (y * k) {
      EstimateHighStrict(x, y, b, w, k, x3, y2, q);
      Distrib(y2 + 1, q, 1);
      Distrib(q, y2, 1);
    }
  }

  lemma EstimateHighStrict(x: nat, y: nat, b: nat, w: nat, k: nat, x3: nat, y2: nat, q: nat)
    requires 2 <= q && 0 < b && 0 < w && 0 < k
    requires x3 * ((w * k) * b) <= x * b * b && y * b < (y2 + 1) * w && q * y2 <= x3
    requires x < (q - 1) * (y * k)
    ensures q * y2 < (q - 1) * (y2 + 1)
  {
    var g := (w * k) * b;
    MulPos(w, k);
    MulPos(w * k, b);
    MulPos(k, b);
    var r := q - 1;
    assert x * b * b < r * (y2 + 1) * g by {
      MulStrict(x, r * (y * k), b);
      MulStrict(x * b, r * (y * k) * b, b);
      Rearrange2(r, y, k, b);
      MulMono(y * b, (y2 + 1) * w, r);
      MulMono(r * (y * b), r * ((y2 + 1) * w), k * b);
      Rearrange(r, y2 + 1, w, k, b);
    }
    MulMono(q * y2, x3, g);
    MulCancelLess(q * y2, r * (y2 + 1), g);
  }

  lemma {:induction false} ValTwo(p: seq<nat>)
    requires |p| >= 2 && forall j :: 2 <= j < |p| ==> p[j] == 0
    ensures Val(p) == p[0] + Base() * p[1]
  {
    ValTrim(p, 2);
    ValTake(p, 1);
    ValTake(p, 0);
    assert p[..0] == [];
    WeightSucc(0);
    assert Weight(0) == 1;
  }

  lemma {:induction false} ValThree(p: seq<nat>)
    requires |p| >= 3 && forall j :: 3 <= j < |p| ==> p[j] == 0
    ensures Val(p) == p[0] + Base() * (p[1] + Base() * p[2])
  {
    ValCons(p);
    ValTwo(p[1..]);
  }

  /** After lset(T, 0), storing limbs 0..k-1. */
  lemma {:induction false} ZeroLimbs(p: seq<nat>)
    requires Val(p) == 0
    ensures forall j :: 0 <= j < |p| ==> p[j] == 0
  {
    ValZeroInv(p);
  }

  /** T1 = (top two limbs of Y) * q and T2 = top three limbs of X; true when q is too big. */
  method GuessTooBig(X: Mpi, Y: Mpi, T1: Mpi, T2: Mpi, i: nat, t: nat, q: nat) returns (big: bool)
    requires T1 != X && T1 != Y && T2 != X && T2 != Y && T1 != T2
    requires X.Valid() && Y.Valid() && T1.Valid() && T2.Valid() && |T1.p| >= 2 && |T2.p| >= 3
    requires i < |X.p| && t < |Y.p| && q < Base()
    modifies T1, T2
    ensures T1.Valid() && T2.Valid() && |T1.p| >= 2 && |T2.p| >= 3
    ensures big == (q * TopTwo(Y.p, t) > TopThree(X.p, i))
  {
    hide Base, Weight, Val, Pow;
    LoadTwo(T1, Y, t);
    MulInt(T1, T1, q);
    LoadThree(T2, X, i);
    var c := CmpMpi(T1, T2);
    assert T1.Value() == TopTwo(Y.p, t) * q && T2.Value() == TopThree(X.p, i);
    big := c > 0;
  }

  method LoadTwo(T: Mpi, Y: Mpi, t: nat)
    requires T != Y && T.Valid() && Y.Valid() && |T.p| >= 2 && t < |Y.p|
    modifies T
    ensures T.Valid() && |T.p| == |old(T.p)| && T.s == 1 && T.Abs() == TopTwo(Y.p, t)
  {
    hide Base, Weight, Val, Pow;
    Lset(T, 0);
    ZeroLimbs(T.p);
    T.p := T.p[0 := if t < 1 then 0 else Y.p[t - 1]];
    T.p := T.p[1 := Y.p[t]];
    ValTwo(T.p);
  }

  method LoadThree(T: Mpi, X: Mpi, i: nat)
    requires T != X && T.Valid() && X.Valid() && |T.p| >= 3 && i < |X.p|
    modifies T
    ensures T.Valid() && |T.p| == |old(T.p)| && T.s == 1 && T.Abs() == TopThree(X.p, i)
  {
    hide Base, Weight, Val, Pow;
    Lset(T, 0);
    ZeroLimbs(T.p);
    T.p := T.p[0 := if i < 2 then 0 else X.p[i - 2]];
    T.p := T.p[1 := if i < 1 then 0 else X.p[i - 1]];
    T.p := T.p[2 := X.p[i]];
    ValThree(T.p);
  }

  /** Guess from the top limbs, then the do-while correction. */
  method EstimateDigit(X: Mpi, Y: Mpi, T1: Mpi, T2: Mpi, i: nat, t: nat) returns (q: nat)
    requires T1 != X && T1 != Y && T2 != X && T2 != Y && T1 != T2
    requires X.Valid() && Y.Valid() && T1.Valid() && T2.Valid() && |T1.p| >= 2 && |T2.p| >= 3
    requires t < i < |X.p| && t < |Y.p| && Y.p[t] > 0
    requires Y.Abs() < Weight(t + 1) && Weight(t) <= Y.Abs()
    requires X.Abs() < Y.Abs() * Weight(i - t)
    modifies T1, T2
    ensures T1.Valid() && T2.Valid() && |T1.p| >= 2 && |T2.p| >= 3
    ensures q < Base()
    ensures TrueDigit(X.Abs(), Y.Abs(), i - t - 1) <= q <= TrueDigit(X.Abs(), Y.Abs(), i - t - 1) + 1
  {
    hide Base, Weight, Val, Pow;
    ghost var x, y := X.Abs(), Y.Abs();
    ghost var digit := TrueDigit(x, y, i - t - 1);
    ghost var x3, y2 := TopThree(X.p, i), TopTwo(Y.p, t);
    InRange(x, y, i, t);
    TopThreeBounds(X.p, i);
    TopTwoBounds(Y.p, t);
    EstimateBounds(x, y, i, t, x3, y2, 0);
    if X.p[i] >= Y.p[t] {
      q := Base() - 1;
    } else {
      var r;
      q, r := IntDivInt(X.p[i], X.p[i - 1], Y.p[t]);
      FirstGuess(X.p, Y.p, i, t, digit, q, r);
    }
    ghost var bound := q;
    WrapBack(bound);
    q := (q + 1) % Base();
    var more := true;
    while more
      invariant T1.Valid() && T2.Valid() && |T1.p| >= 2 && |T2.p| >= 3
      invariant q < Base() && digit <= bound < Base()
      invariant more ==> q == (bound + 1) % Base()
      invariant !more ==> q == bound && q * y2 <= x3
      decreases more, bound
    {
      q := (q - 1) % Base();
      WrapBack(bound);
      more := GuessTooBig(X, Y, T1, T2, i, t, q);
      if more {
        TooBig(digit, bound, y2, x3);
        bound := bound - 1;
        WrapBack(bound);
      }
    }
    EstimateBounds(x, y, i, t, x3, y2, q);
  }

  lemma WrapBack(q: nat)
    requires q < Base()
    ensures (q + 1) % Base() == if q + 1 == Base() then 0 else q + 1
    ensures ((q + 1) % Base() - 1) % Base() == q
    ensures q > 0 ==> q == ((q - 1) + 1) % Base()
  {
    var b := Base();
    if q + 1 == b {
      DivModUnique(q + 1, b, 1, 0);
      DivModUnique(-1, b, -1, b - 1);
    } else {
      ModSmall(q + 1, b);
      ModSmall(q, b);
    }
    ModSmall(q, b);
  }

  lemma TooBig(digit: nat, q: nat, y2: nat, x3: nat)
    requires digit <= q && digit * y2 <= x3 && q * y2 > x3
    ensures digit < q
  {
  }

  lemma {:induction false} InRange(x: nat, y: nat, i: nat, t: nat)
    requires t < i && 0 < y < Weight(t + 1) && x < y * Weight(i - t)
    ensures x < Weight(i + 1)
    ensures TrueDigit(x, y, i - t - 1) < Base()
  {
    hide Base, Weight, Pow;
    WeightAdd(t + 1, i - t);
    MulMono(y, Weight(t + 1), Weight(i - t));
    var k := Weight(i - t - 1);
    WeightSucc(i - t - 1);
    MulSwap(y, Base(), k);
    MulPos(y, k);
    DivLess(x, y * k, Base());
  }

  lemma {:induction false} FirstGuess(X: seq<nat>, Y: seq<nat>, i: nat, t: nat, digit: nat, q: nat, r: nat)
    requires IsLimbs(X) && IsLimbs(Y) && 0 < i < |X| && t < |Y|
    requires digit * TopTwo(Y, t) <= TopThree(X, i)
    requires Divides2(X[i] * Base() + X[i - 1], Y[t], q, r)
    ensures digit <= q
  {
    hide Base, Val, Weight;
    var u := X[i] * Base() + X[i - 1];
    GuessCovers(Base(), digit, if t < 1 then 0 else Y[t - 1], Y[t], if i < 2 then 0 else X[i - 2], u);
    if digit > q {
      MulMono(q + 1, digit, Y[t]);
      Distrib(Y[t], q, 1);
    }
  }

  lemma GuessCovers(b: nat, digit: nat, second: nat, y: nat, low: nat, u: nat)
    requires low < b && digit * (second + b * y) <= low + b * u
    ensures digit * y < u + 1
  {
    MulPos(digit, second);
    Distrib(digit, second, b * y);
    MulSwap(digit, b, y);
    Distrib(b, u, 1);
    MulCancelLess(digit * y, u + 1, b);
  }

  // ---- one row ----

  lemma {:induction false} AbsOfValue(X: Mpi)
    requires X.Valid() && X.Value() >= 0
    ensures X.Abs() == X.Value()
  {
  }

  /** X -= q * Y * Base^k, adding one Y back when q was one too big. */
  method SubtractRow(X: Mpi, Y: Mpi, T1: Mpi, k: nat, q: nat) returns (digit: nat)
    requires T1 != X && T1 != Y && X != Y && X.Valid() && Y.Valid() && T1.Valid() && q < Base()
    requires X.Value() >= 0 && X.p != [] && Y.s == 1 && Y.Abs() > 0
    requires TrueDigit(X.Abs(), Y.Abs(), k) <= q <= TrueDigit(X.Abs(), Y.Abs(), k) + 1
    requires |T1.p| >= 2
    modifies X, T1
    ensures X.Valid() && T1.Valid() && |T1.p| >= 2 && |X.p| >= |old(X.p)|
    ensures digit < Base() && X.Value() == old(X.Value()) - digit * (Y.Abs() * Weight(k))
    ensures 0 <= X.Value() < Y.Abs() * Weight(k)
  {
    hide Base, Weight, Val, Pow;
    AbsOfValue(X);
    ghost var x, d := X.Abs(), Y.Abs() * Weight(k);
    RowArithmetic(x, Y.Abs(), k, q);
    ScaledDivisor(T1, Y, k, q);
    SubMpi(X, X, T1);
    digit := q;
    var c := CmpInt(X, 0);
    if c < 0 {
      CopyDivisor(T1, Y, k);
      NonEmpty(X);
      AddMpi(X, X, T1);
      digit := q - 1;
    }
  }

  /** T1 = q * Y * Base^k */
  method ScaledDivisor(T1: Mpi, Y: Mpi, k: nat, q: nat)
    requires T1 != Y && T1.Valid() && Y.Valid() && q < Base() && Y.s == 1
    modifies T1
    ensures T1.Valid() && |T1.p| >= |old(T1.p)| && T1.Value() == q * (Y.Abs() * Weight(k))
  {
    hide Base, Weight, Val, Pow;
    MulInt(T1, Y, q);
    ShiftLimbs(T1, k);
    MulRotate(Y.Abs(), q, Weight(k));
  }

  /** T1 = Y * Base^k */
  method CopyDivisor(T1: Mpi, Y: Mpi, k: nat)
    requires T1 != Y && T1.Valid() && Y.Valid() && Y.s == 1 && Y.Abs() > 0 && |T1.p| >= 2
    modifies T1
    ensures T1.Valid() && |T1.p| >= 2 && T1.Value() == Y.Abs() * Weight(k)
  {
    hide Base, Weight, Val, Pow;
    NonEmpty(Y);
    Copy(T1, Y);
    ShiftLimbs(T1, k);
  }

  lemma {:induction false} NonEmpty(R: Mpi)
    ensures R.Value() != 0 ==> R.p != []
  {
  }

  /** ShiftL by a whole number of limbs. */
  method ShiftLimbs(X: Mpi, k: nat)
    requires X.Valid()
    modifies X
    ensures X.Valid() && X.s == old(X.s) && X.Abs() == old(X.Abs()) * Weight(k)
    ensures |X.p| >= |old(X.p)|
  {
    hide Base, Weight, Val, Pow, RoomFor, BitLength;
    WeightBits(k);
    MulPos(biL, k);
    var count: nat := biL * k;
    RoomGrows(|X.p|, BitLength(X.Abs()) + count);
    ShiftL(X, count);
  }

  lemma RoomGrows(n: nat, bits: nat)
    ensures RoomFor(n, bits) >= n
  {
    if n * biL < bits {
      LimbsForRoom(bits);
      if LimbsFor(bits) < n {
        MulMono(LimbsFor(bits), n, biL);
      }
    }
  }

  lemma {:induction false} RowArithmetic(x: nat, y: nat, k: nat, q: nat)
    requires 0 < y && TrueDigit(x, y, k) <= q <= TrueDigit(x, y, k) + 1
    ensures var d := y * Weight(k);
            && x - q * d < d
            && -d <= x - q * d
            && (x - q * d < 0 ==> q > 0 && 0 <= x - (q - 1) * d < d && x - q * d + d == x - (q - 1) * d)
  {
    hide Weight;
    var d := y * Weight(k);
    MulPos(y, Weight(k));
    DivModIdentity(x, d);
    var digit := TrueDigit(x, y, k);
    Distrib(d, q, 1);
    Distrib(d, digit, 1);
    if q == digit {
    } else {
      assert q == digit + 1;
    }
  }

  // ---- the whole division ----

  /** The main loop: one quotient digit for each i from n down to t + 1. */
  method DivRows(X: Mpi, Y: Mpi, Z: Mpi, T1: Mpi, T2: Mpi, n: nat, t: nat, ghost total: nat)
    requires X != Y && X != Z && X != T1 && X != T2 && Y != Z && Y != T1 && Y != T2
    requires Z != T1 && Z != T2 && T1 != T2
    requires X.Valid() && Y.Valid() && Z.Valid() && T1.Valid() && T2.Valid()
    requires |T1.p| >= 2 && |T2.p| >= 3 && t <= n < |X.p| && t < |Y.p| && n - t < |Z.p|
    requires Y.s == 1 && Y.p[t] > 0 && Weight(t) <= Y.Abs() < Weight(t + 1)
    requires 0 <= X.Value() < Y.Abs() * Weight(n - t)
    requires Z.s == 1 && forall j :: 0 <= j < n - t ==> Z.p[j] == 0
    requires Z.Abs() * Y.Abs() + X.Value() == total
    modifies X, Z, T1, T2
    ensures X.Valid() && Z.Valid() && Z.s == 1
    ensures 0 <= X.Value() < Y.Abs() && Z.Abs() * Y.Abs() + X.Value() == total
  {
    hide Base, Weight, Val, Pow;
    var i := n;
    ghost var y, yp := Y.Abs(), Y.p;
    while i > t
      invariant t <= i <= n && Y.p == yp && Y.s == 1
      invariant X.Valid() && Z.Valid() && T1.Valid() && T2.Valid()
      invariant |T1.p| >= 2 && |T2.p| >= 3 && n < |X.p| && |Z.p| > n - t && Z.s == 1
      invariant 0 <= X.Value() < y * Weight(i - t)
      invariant forall j :: 0 <= j < i - t ==> Z.p[j] == 0
      invariant Z.Abs() * y + X.Value() == total
    {
      AbsOfValue(X);
      var q := EstimateDigit(X, Y, T1, T2, i, t);
      ghost var x := X.Value();
      q := SubtractRow(X, Y, T1, i - t - 1, q);
      RowTotal(Z.p, i - t - 1, q, y, x, X.Value(), total);
      Z.p := Z.p[i - t - 1 := q];
      i := i - 1;
    }
    WeightZero(y);
  }

  lemma WeightZero(y: nat)
    ensures y * Weight(0) == y
  {
    assert Weight(0) == 1;
  }

  lemma {:induction false} RowTotal(z: seq<nat>, j: nat, q: nat, y: nat, x: int, x': int, total: nat)
    requires j < |z| && z[j] == 0 && Val(z) * y + x == total && x' == x - q * (y * Weight(j))
    ensures Val(z[j := q]) * y + x' == total
  {
    hide Weight, Val;
    ValUpdate(z, j, q);
    Distrib(y, Val(z), q * Weight(j));
    assert (q * Weight(j)) * y == q * (y * Weight(j)) by { MulRotate(q, Weight(j), y); Assoc(q, y, Weight(j)); }
  }

  /** The limb buffer is exactly as long as its number needs. */
  ghost predicate Tight(p: seq<nat>)
  {
    |p| > 0 && biL * (|p| - 1) < BitLength(Val(p)) <= biL * |p|
  }

  lemma {:induction false} TightWeights(p: seq<nat>)
    requires IsLimbs(p) && Tight(p)
    ensures Weight(|p| - 1) <= Val(p) < Weight(|p|)
    ensures p[|p| - 1] > 0
  {
    var n := |p| - 1;
    var b := BitLength(Val(p));
    WeightBits(n);
    PowMono(2, biL * n, b - 1);
    ValBound(p);
    if p[n] == 0 {
      ValTrim(p, n);
      ValBound(p[..n]);
    }
  }

  lemma {:induction false} TightFromTop(p: seq<nat>)
    requires IsLimbs(p) && |p| > 0 && p[|p| - 1] > 0
    ensures Tight(p)
  {
    var n := |p| - 1;
    ValBound(p);
    ValTake(p, n);
    ValFull(p);
    MulMono(1, p[n], Weight(n));
    var b := BitLength(Val(p));
    MulPos(biL, n);
    MulPos(biL, n + 1);
    WeightBits(n);
    WeightBits(n + 1);
    if b <= biL * n { PowMono(2, b, biL * n); }
    if b > biL * (n + 1) { PowMono(2, biL * (n + 1), b - 1); }
  }

  lemma {:induction false} TightShift(p: seq<nat>, t: seq<nat>, k: nat)
    requires IsLimbs(p) && Tight(p) && k < biL && Val(t) == Val(p) * Pow(2, k)
    requires |t| == RoomFor(|p|, BitLength(Val(p)) + k)
    ensures Tight(t) && |p| <= |t| <= |p| + 1
  {
    TightWeights(p);
    BitLengthShift(Val(p), k);
    var b := BitLength(Val(p)) + k;
    LimbsForRoom(b);
    Distrib(biL, |p|, 1);
    Distrib(biL, |p| - 1, 1);
    if |p| * biL < b {
      if LimbsFor(b) <= |p| { MulMono(LimbsFor(b), |p|, biL); }
      if LimbsFor(b) >= |p| + 2 {
        Distrib(biL, LimbsFor(b), 1);
        MulMono(|p| + 1, LimbsFor(b) - 1, biL);
      }
    }
  }

  lemma {:induction false} TightMono(p: seq<nat>, t: seq<nat>)
    requires Tight(p) && Tight(t) && Val(t) <= Val(p)
    ensures |t| <= |p|
  {
    BitLengthMono(BitLength(Val(t)), Val(t), BitLength(Val(p)), Val(p));
    if |t| > |p| {
      MulMono(|p|, |t| - 1, biL);
    }
  }

  /** The first digit: subtract the aligned divisor as often as it fits. */
  method FirstDigit(X: Mpi, Y: Mpi, Z: Mpi, n: nat, t: nat, ghost y: nat)
    requires X != Y && X != Z && Y != Z && X.Valid() && Y.Valid() && Z.Valid()
    requires t <= n < |X.p| && n - t < |Z.p| && X.s == 1 && Y.s == 1 && Z.s == 1 && Z.Abs() == 0
    requires Weight(t) <= y && Y.Abs() == y * Weight(n - t) && X.Abs() < Weight(n + 1)
    modifies X, Z
    ensures X.Valid() && Z.Valid() && Z.s == 1 && |Z.p| == |old(Z.p)| && |X.p| >= |old(X.p)|
    ensures 0 <= X.Value() < y * Weight(n - t)
    ensures forall j :: 0 <= j < n - t ==> Z.p[j] == 0
    ensures Z.Abs() * y + X.Value() == old(X.Abs())
  {
    hide Base, Weight, Val, Pow;
    ghost var x0, d := X.Abs(), Y.Abs();
    var j := n - t;
    ZeroLimbs(Z.p);
    var c := CmpMpi(X, Y);
    while c >= 0
      invariant X.Valid() && Z.Valid() && Z.s == 1 && |Z.p| == |old(Z.p)| && |X.p| >= |old(X.p)|
      invariant c == Sign(X.Value() - Y.Value()) && X.Value() >= 0
      invariant forall k :: 0 <= k < |Z.p| && k != j ==> Z.p[k] == 0
      invariant Z.p[j] * d + X.Value() == x0
      decreases X.Value()
    {
      DigitFits(y, n, t, x0, Z.p[j]);
      Z.p := Z.p[j := (Z.p[j] + 1) % Base()];
      SubMpi(X, X, Y);
      c := CmpMpi(X, Y);
    }
    SingleLimb(Z.p, j, y);
  }

  lemma {:induction false} DigitFits(y: nat, n: nat, t: nat, x0: nat, z: nat)
    requires t <= n && Weight(t) <= y && x0 < Weight(n + 1) && z * (y * Weight(n - t)) + y * Weight(n - t) <= x0
    ensures (z + 1) % Base() == z + 1 < Base()
    ensures y * Weight(n - t) > 0 && (z + 1) * (y * Weight(n - t)) == z * (y * Weight(n - t)) + y * Weight(n - t)
  {
    hide Base, Weight, Pow;
    var d := y * Weight(n - t);
    WeightAdd(t, n - t);
    MulMono(Weight(t), y, Weight(n - t));
    WeightSucc(n);
    Distrib(d, z, 1);
    MulMono(Weight(n), d, Base());
    MulCancelLess(z + 1, Base(), d);
    ModSmall(z + 1, Base());
  }

  lemma {:induction false} SingleLimb(z: seq<nat>, j: nat, y: nat)
    requires j < |z| && forall k :: 0 <= k < |z| && k != j ==> z[k] == 0
    ensures Val(z) * y == z[j] * (y * Weight(j))
  {
    ValTrim(z, j + 1);
    ValTake(z, j);
    ValZeros(z[..j]);
    MulRotate(z[j], Weight(j), y);
    Assoc(z[j], y, Weight(j));
  }

  /** Copies of |A| and |B|, both shifted left so that the divisor fills its top limb but one bit. */
  method NormalizedCopies(A: Mpi, B: Mpi) returns (X: Mpi, Y: Mpi, k: nat)
    requires A.Valid() && B.Valid() && 0 < B.Abs() <= A.Abs()
    ensures fresh(X) && fresh(Y) && X != Y && X.Valid() && Y.Valid() && X.s == 1 && Y.s == 1
    ensures Tight(X.p) && Tight(Y.p) && |Y.p| <= |X.p| <= |A.p| + 1
    ensures X.Abs() == A.Abs() * Pow(2, k) && Y.Abs() == B.Abs() * Pow(2, k)
  {
    hide Base, Weight, Val, Pow, RoomFor, BitLength, Tight;
    X := TightCopy(A);
    Y := TightCopy(B);
    k := Bitlen(Y);
    k := k % biL;
    if k < biL - 1 {
      k := biL - 1 - k;
      ScaleTight(X, k);
      ScaleTight(Y, k);
    } else {
      k := 0;
      PowZero(A.Abs());
      PowZero(B.Abs());
    }
    MulMono(B.Abs(), A.Abs(), Pow(2, k));
    TightMono(X.p, Y.p);
  }

  method TightCopy(A: Mpi) returns (X: Mpi)
    requires A.Valid() && A.Abs() > 0
    ensures fresh(X) && X.Valid() && X.s == 1 && Tight(X.p) && |X.p| <= |A.p| && X.Abs() == A.Abs()
  {
    hide Base, Weight, Pow, RoomFor, BitLength, Tight;
    X := new Mpi();
    Copy(X, A);
    CopyTight(X.p, A.p);
    X.s := 1;
  }

  /** |A| and |B| divided: Z is the quotient, X the remainder times 2^k. */
  method DivMagnitudes(A: Mpi, B: Mpi) returns (X: Mpi, Z: Mpi, k: nat)
    requires A.Valid() && B.Valid() && 0 < B.Abs() <= A.Abs()
    ensures fresh(X) && fresh(Z) && X != Z && X.Valid() && Z.Valid() && Z.s == 1
    ensures Z.Abs() == A.Abs() / B.Abs()
    ensures X.Abs() == (A.Abs() % B.Abs()) * Pow(2, k)
  {
    hide Base, Weight, Val, Pow, RoomFor, BitLength, Tight;
    Z := new Mpi();
    var T1 := new Mpi();
    var T2 := new Mpi();
    var Y;
    X, Y, k := NormalizedCopies(A, B);
    Grow(Z, |A.p| + 2);
    Lset(Z, 0);
    Grow(T1, 2);
    Grow(T2, 3);
    TightWeights(X.p);
    TightWeights(Y.p);
    TightNonempty(X.p);
    TightNonempty(Y.p);
    DivAligned(X, Y, Z, T1, T2, |X.p| - 1, |Y.p| - 1);
    AbsOfValue(X);
    Quotients(A.Abs(), B.Abs(), k, Z.Abs(), X.Abs());
  }

  lemma TightNonempty(p: seq<nat>)
    requires Tight(p)
    ensures |p| > 0
  {
  }

  /** ShiftL by less than a limb keeps the buffer exactly as long as needed. */
  method ScaleTight(X: Mpi, k: nat)
    requires X.Valid() && Tight(X.p) && k < biL
    modifies X
    ensures X.Valid() && X.s == old(X.s) && Tight(X.p) && X.Abs() == old(X.Abs()) * Pow(2, k)
    ensures |X.p| <= |old(X.p)| + 1
  {
    hide Base, Weight, Val, Pow, RoomFor, BitLength, Tight;
    ghost var xp := X.p;
    ShiftL(X, k);
    TightShift(xp, X.p, k);
  }

  lemma PowZero(v: nat)
    ensures v * Pow(2, 0) == v
  {
  }

  lemma {:induction false} CopyTight(x: seq<nat>, a: seq<nat>)
    requires IsLimbs(a) && IsLimbs(x) && Val(a) > 0 && (a != [] ==> CopyOf(x, a, 0)) && Val(x) == Val(a)
    ensures Tight(x) && |x| <= |a|
  {
    SignificantVal(a);
    assert x[|x| - 1] == a[|x| - 1];
    TightFromTop(x);
  }

  /** First digit with the divisor shifted up, then the rows with it shifted back. */
  method DivAligned(X: Mpi, Y: Mpi, Z: Mpi, T1: Mpi, T2: Mpi, n: nat, t: nat)
    requires X != Y && X != Z && X != T1 && X != T2 && Y != Z && Y != T1 && Y != T2
    requires Z != T1 && Z != T2 && T1 != T2
    requires X.Valid() && Y.Valid() && Z.Valid() && T1.Valid() && T2.Valid()
    requires |T1.p| >= 2 && |T2.p| >= 3 && t <= n && |X.p| == n + 1 && |Y.p| == t + 1 && n - t < |Z.p|
    requires X.s == 1 && Y.s == 1 && Z.s == 1 && Z.Abs() == 0
    requires Weight(t) <= Y.Abs() < Weight(t + 1)
    modifies X, Y, Z, T1, T2
    ensures X.Valid() && Z.Valid() && Z.s == 1
    ensures 0 <= X.Value() < old(Y.Abs())
    ensures Z.Abs() * old(Y.Abs()) + X.Value() == old(X.Abs())
  {
    hide Base, Weight, Val, Pow;
    ghost var x0, y := X.Abs(), Y.Abs();
    ValBound(X.p);
    ShiftLimbs(Y, n - t);
    FirstDigit(X, Y, Z, n, t, y);
    WeightBits(n - t);
    DivModUnique(Y.Abs(), Weight(n - t), y, 0);
    ShiftR(Y, biL * (n - t));
    TopLimbPositive(Y.p, t);
    DivRows(X, Y, Z, T1, T2, n, t, x0);
  }

  lemma {:induction false} TopLimbPositive(p: seq<nat>, t: nat)
    requires IsLimbs(p) && t < |p| && Weight(t) <= Val(p) < Weight(t + 1)
    ensures p[t] > 0
  {
    ValHighZero(p, t + 1);
    if p[t] == 0 {
      ValTrim(p, t);
      ValBound(p[..t]);
    }
  }

  lemma {:induction false} Quotients(a: nat, b: nat, k: nat, z: nat, x: nat)
    requires 0 < b && z * (b * Pow(2, k)) + x == a * Pow(2, k) && x < b * Pow(2, k)
    ensures z == a / b && x == (a % b) * Pow(2, k)
  {
    hide Pow;
    var h := Pow(2, k);
    Assoc(z, b, h);
    Distrib(h, a, z * b);
    var r := a - z * b;
    assert x == r * h;
    MulCancelLess(r, b, h);
    if r < 0 { MulMono(r, -1, h); }
    DivModUnique(a, b, z, r);
  }

  /** What is left in Q: where Q is A or B, the sign of that operand is lost before it is read. */
  function QuotientLeft(a: int, b: int, isA: bool, isB: bool): int
    requires b != 0
  {
    TruncQuotient(if isA then AbsInt(a) else a, if isB then AbsInt(b) else b)
  }

  /** What is left in R: where Q is A, the quotient has taken the place of the dividend's sign. */
  function RemainderLeft(a: int, b: int, isA: bool, isB: bool): int
    requires b != 0
  {
    if !isA then TruncRemainder(a, b)
    else if AbsInt(a) < AbsInt(b) then 0
    else (if isB then 1 else Sign(b)) * (AbsInt(a) % AbsInt(b))
  }

  /** A quotient stored over an operand is right exactly when that operand is positive, or it is 0, or both are overwritten. */
  lemma QuotientLeftExact(a: int, b: int, isA: bool, isB: bool)
    requires b != 0 && (isA && isB ==> a == b)
    ensures QuotientLeft(a, b, isA, isB) == TruncQuotient(a, b)
       <==> AbsInt(a) < AbsInt(b) || (isA && isB) || ((isA ==> a > 0) && (isB ==> b > 0))
  {
    var m, n := AbsInt(a), AbsInt(b);
    if m < n {
      SmallDividend(a, b);
      SmallDividend(if isA then m else a, if isB then n else b);
    } else {
      BigQuotient(m, n);
    }
  }

  lemma BigQuotient(m: nat, n: nat)
    requires 0 < n <= m
    ensures m / n > 0
  {
    DivMono(n, m, n);
    DivModUnique(n, n, 1, 0);
  }

  /** With the quotient stored over the dividend, the remainder is right exactly when it is 0 or both signs agree and there was something to divide. */
  lemma RemainderLeftExact(a: int, b: int)
    requires b != 0
    ensures RemainderLeft(a, b, true, false) == TruncRemainder(a, b)
       <==> TruncRemainder(a, b) == 0 || (AbsInt(a) >= AbsInt(b) && (a < 0 <==> b < 0))
  {
    if AbsInt(a) < AbsInt(b) { SmallDividend(a, b); }
  }

  /**
   A = Q * B + R. Either output may be absent and any two of the numbers may be the same; the signs
   of A and B are read again after Q has been written.
   */
  method DivMpi(Q: Mpi?, R: Mpi?, A: Mpi, B: Mpi) returns (ret: Status)
    requires A.Valid() && B.Valid() && (Q != null ==> Q.Valid()) && (R != null ==> R.Valid())
    modifies Q, R
    ensures (Q != null ==> Q.Valid()) && (R != null ==> R.Valid())
    ensures ret == if old(B.Value()) == 0 then DivisionByZero else Ok
    ensures ret == Ok && Q != null && Q != R ==> Q.Value() == QuotientLeft(old(A.Value()), old(B.Value()), Q == A, Q == B)
    ensures ret == Ok && R != null ==> R.Value() == RemainderLeft(old(A.Value()), old(B.Value()), Q == A, Q == B)
    ensures ret == Ok && R != null && R.Value() == 0 && old(A.Abs()) >= old(B.Abs()) ==> R.s == 1
    ensures ret == Ok && R != null && old(A.s) == 1 && Q != A ==> R.s == 1
    ensures ret == Ok && R != null && old(A.p) != [] ==> R.p != []
    ensures ret == Ok && R != null && R != A && Q != R && old(A.p) != [] ==> |R.p| >= |old(R.p)|
    ensures ret != Ok ==> (Q != null ==> Q.p == old(Q.p) && Q.s == old(Q.s))
                          && (R != null ==> R.p == old(R.p) && R.s == old(R.s))
  {
    hide Base, Weight, Val, Pow;
    ghost var a, b := A.Value(), B.Value();
    AbsValue(A);
    AbsValue(B);
    var z := CmpInt(B, 0);
    if z == 0 {
      return DivisionByZero;
    }
    var c := CmpAbs(A, B);
    if c < 0 {
      SmallDividend(a, b);
      SmallDividend(if Q == A then AbsInt(a) else a, if Q == B then AbsInt(b) else b);
      if Q != null {
        Lset(Q, 0);
      }
      if R != null {
        Copy(R, A);
      }
      return Ok;
    }
    ghost var m := A.Abs() % B.Abs();
    var X, Z, k := DivMagnitudes(A, B);
    if Q != null {
      StoreQuotient(Q, Z, A, B);
    }
    if R != null {
      StoreRemainder(R, X, A, m, k);
      SignOfDividend(a, b);
    }
    return Ok;
  }

  /** The signs are read after the copy. */
  method StoreQuotient(Q: Mpi, Z: Mpi, A: Mpi, B: Mpi)
    requires Q.Valid() && Z.Valid() && A.Valid() && B.Valid() && Z != Q && Z != A && Z != B && Z.s == 1
    requires B.Abs() > 0 && A.Abs() >= B.Abs() && Z.Abs() == A.Abs() / B.Abs()
    modifies Q
    ensures Q.Valid() && Q.Value() == QuotientLeft(old(A.Value()), old(B.Value()), Q == A, Q == B)
    ensures Q == A ==> A.s == if Q == B then 1 else old(B.s)
  {
    hide Base, Weight, Val, Pow;
    ghost var a, b := A.Value(), B.Value();
    AbsValue(A);
    AbsValue(B);
    Copy(Q, Z);
    QuotientSign(A.s, B.s, if Q == A then AbsInt(a) else a, if Q == B then AbsInt(b) else b, Q.Abs());
    Q.s := A.s * B.s;
  }

  /** A number that is not smaller than another in magnitude has a sign of its own. */
  lemma SignOfDividend(a: int, b: int)
    requires b != 0 && AbsInt(a) >= AbsInt(b)
    ensures Sign(a) != 0 && Sign(b) != 0 && TruncRemainder(a, b) == Sign(a) * (AbsInt(a) % AbsInt(b))
  {
  }

  lemma {:induction false} AbsValue(X: Mpi)
    requires X.Valid()
    ensures AbsInt(X.Value()) == X.Abs()
  {
  }

  lemma SmallDividend(a: int, b: int)
    requires AbsInt(a) < AbsInt(b)
    ensures TruncQuotient(a, b) == 0 && TruncRemainder(a, b) == a
  {
    ModSmall(AbsInt(a), AbsInt(b));
  }

  lemma QuotientSign(s: int, t: int, a: int, b: int, q: nat)
    requires (s == 1 || s == -1) && (t == 1 || t == -1) && b != 0
    requires a == s * AbsInt(a) && b == t * AbsInt(b) && q == AbsInt(a) / AbsInt(b)
    ensures (s * t) * q == TruncQuotient(a, b)
    ensures s * t == 1 || s * t == -1
  {
    if a == 0 {
      ModSmall(0, AbsInt(b));
    } else {
      assert Sign(a) == s;
    }
    assert Sign(b) == t;
  }

  method StoreRemainder(R: Mpi, X: Mpi, A: Mpi, ghost m: nat, k: nat)
    requires R.Valid() && X.Valid() && A.Valid() && X != R && X != A && X.Abs() == m * Pow(2, k)
    modifies R, X
    ensures R.Valid() && R.Value() == old(A.s) * m
    ensures R.Value() == 0 || old(A.s) == 1 ==> R.s == 1
    ensures R.p != [] && (R != A ==> |R.p| >= |old(R.p)|)
  {
    hide Base, Weight, Val, Pow;
    DivModUnique(X.Abs(), Pow(2, k), m, 0);
    ShiftR(X, k);
    X.s := A.s;
    if |X.p| == 0 {
      Grow(X, 1);
    }
    Copy(R, X);
    var z := CmpInt(R, 0);
    if z == 0 {
      R.s := 1;
    }
  }

  /** R = A mod B in [0, B); a negative B is refused. */
  method ModMpi(R: Mpi, A: Mpi, B: Mpi) returns (ret: Status)
    requires R.Valid() && A.Valid() && B.Valid() && R != B
    modifies R
    ensures R.Valid()
    ensures ret == if B.Value() < 0 then NegativeValue else if B.Value() == 0 then DivisionByZero else Ok
    ensures ret == Ok ==> R.Value() == old(A.Value()) % B.Value()
    ensures ret == Ok && old(A.s) == 1 ==> R.s == 1
    ensures ret == Ok && old(A.p) != [] ==> R.p != []
    ensures ret == Ok && R != A && old(A.p) != [] ==> |R.p| >= |old(R.p)|
    ensures ret != Ok ==> R.p == old(R.p) && R.s == old(R.s)
  {
    hide Base, Weight, Val, Pow;
    ghost var a, b := A.Value(), B.Value();
    var c := CmpInt(B, 0);
    if c < 0 {
      return NegativeValue;
    }
    ret := DivMpi(null, R, A, B);
    if ret != Ok {
      return;
    }
    RemainderCong(a, b);
    RemainderBelow(a, b);
    ghost var n := |R.p|;
    c := CmpInt(R, 0);
    while c < 0
      invariant R.Valid() && c == Sign(R.Value()) && Cong(R.Value(), a, b)
      invariant old(A.s) == 1 ==> R.s == 1 && R.Value() < b
      invariant |R.p| >= n && (old(A.p) != [] ==> R.p != [])
      decreases -R.Value()
    {
      NonEmpty(R);
      CongShift(R.Value(), a, b, 1);
      AddMpi(R, R, B);
      c := CmpInt(R, 0);
    }
    c := CmpMpi(R, B);
    while c >= 0
      invariant R.Valid() && c == Sign(R.Value() - b) && Cong(R.Value(), a, b) && R.Value() >= 0
      invariant old(A.s) == 1 ==> R.s == 1 && R.Value() < b
      invariant |R.p| >= n && (old(A.p) != [] ==> R.p != [])
      decreases R.Value()
    {
      NonEmpty(R);
      CongShift(R.Value(), a, b, -1);
      SubMpi(R, R, B);
      c := CmpMpi(R, B);
    }
    CongResidue(R.Value(), a, b);
  }

  lemma RemainderBelow(a: int, b: int)
    requires b > 0
    ensures TruncRemainder(a, b) < b
  {
    DivModIdentity(AbsInt(a), b);
  }

  lemma CongShift(x: int, a: int, b: int, k: int)
    requires 0 < b && Cong(x, a, b)
    ensures Cong(x + k * b, a, b)
    ensures k == 1 ==> Cong(x + b, a, b)
    ensures k == -1 ==> Cong(x - b, a, b)
  {
    CongIntro(x + k * b, x, b, k);
    CongTrans(x + k * b, x, a, b);
  }

  lemma RemainderCong(a: int, b: int)
    requires 0 < b
    ensures Cong(TruncRemainder(a, b), a, b) && -b < TruncRemainder(a, b) < b
  {
    TruncDivisionUnique(a, b, TruncQuotient(a, b), TruncRemainder(a, b));
    assert TruncRemainder(a, b) - a == (-TruncQuotient(a, b)) * b;
    CongIntro(TruncRemainder(a, b), a, b, -TruncQuotient(a, b));
  }
}
