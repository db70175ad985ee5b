/**
 Binary greatest common divisor and modular inverse.
 */
module MpiGcd {
  import opened Arithmetic
  import opened Limbs
  import opened MpiCore
  import opened MpiArith
  import opened MpiDiv

  // ---- greatest common divisor ----

  predicate Divides(d: nat, a: nat)
  {
    d > 0 && a % d == 0
  }

  /** Euclid's definition; Gcd(0, 0) is 0. */
  function Gcd(a: nat, b: nat): nat
    decreases b
  {
    if b == 0 then a else
    DivModIdentity(a, b);
    Gcd(b, a % b)
  }

  lemma DividesCombination(d: nat, a: nat, b: nat, k: int)
    requires Divides(d, a) && Divides(d, b) && a + k * b >= 0
    ensures Divides(d, a + k * b)
  {
    var x, y := a / d, b / d;
    DivModIdentity(a, d);
    DivModIdentity(b, d);
    Assoc(k, y, d);
    Distrib(d, x, k * y);
    DivModUnique(a + k * b, d, x + k * y, 0);
  }

  /** Gcd(a, b) is a common divisor, and every common divisor divides it. */
  lemma {:induction false} GcdGreatest(a: nat, b: nat, d: nat)
    ensures a > 0 || b > 0 ==> Divides(Gcd(a, b), a) && Divides(Gcd(a, b), b)
    ensures Divides(d, a) && Divides(d, b) ==> Divides(d, Gcd(a, b))
    decreases b
  {
    if b == 0 {
      if a > 0 {
        DivModUnique(a, a, 1, 0);
        ModSmall(0, a);
      }
    } else {
      DivModIdentity(a, b);
      var q, r := a / b, a % b;
      var g := Gcd(b, r);
      GcdGreatest(b, r, d);
      DividesCombination(g, r, b, q);
      if Divides(d, a) && Divides(d, b) {
        assert a + (-q) * b == r;
        DividesCombination(d, a, b, -q);
      }
    }
  }

  lemma DividesAntisymmetric(x: nat, y: nat)
    requires Divides(x, y) && Divides(y, x)
    ensures x == y
  {
    DividesLeq(x, y);
    DividesLeq(y, x);
  }

  lemma DividesLeq(d: nat, a: nat)
    requires Divides(d, a) && a > 0
    ensures d <= a
  {
    if d > a {
      ModSmall(a, d);
    }
  }

  /** Pairs with the same common divisors have the same Gcd. */
  lemma {:induction false} GcdSame(a: nat, b: nat, c: nat, e: nat)
    requires (a > 0 || b > 0) && (c > 0 || e > 0)
    requires forall d :: Divides(d, a) && Divides(d, b) <==> Divides(d, c) && Divides(d, e)
    ensures Gcd(a, b) == Gcd(c, e)
  {
    var g, h := Gcd(a, b), Gcd(c, e);
    GcdGreatest(a, b, h);
    GcdGreatest(c, e, g);
    GcdGreatest(a, b, g);
    GcdGreatest(c, e, h);
    DividesAntisymmetric(g, h);
  }

  lemma {:induction false} GcdSymmetric(a: nat, b: nat)
    ensures Gcd(a, b) == Gcd(b, a)
  {
    if a > 0 || b > 0 {
      GcdSame(a, b, b, a);
    }
  }

  lemma {:induction false} GcdZero(b: nat)
    ensures Gcd(0, b) == b
  {
    GcdSymmetric(0, b);
  }

  lemma {:induction false} GcdSubtract(a: nat, b: nat)
    requires 0 < b <= a
    ensures Gcd(a - b, b) == Gcd(a, b)
  {
    forall d ensures Divides(d, a - b) && Divides(d, b) <==> Divides(d, a) && Divides(d, b) {
      if Divides(d, b) && Divides(d, a - b) {
        DividesCombination(d, a - b, b, 1);
      }
      if Divides(d, b) && Divides(d, a) {
        DividesCombination(d, a, b, -1);
      }
    }
    GcdSame(a - b, b, a, b);
  }

  /** A factor two of one argument is no common divisor when the other is odd. */
  lemma {:induction false} GcdHalf(a: nat, b: nat)
    requires b % 2 == 1
    ensures Gcd(2 * a, b) == Gcd(a, b)
  {
    forall d: nat ensures Divides(d, 2 * a) && Divides(d, b) <==> Divides(d, a) && Divides(d, b) {
      if Divides(d, a) {
        DividesCombination(d, a, a, 1);
      }
      if Divides(d, 2 * a) && Divides(d, b) {
        var h := b / 2;
        var y := b / d;
        DivModIdentity(b, d);
        // a = a * b - h * (2 * a), and both terms are multiples of d
        assert Divides(d, a * b) by {
          Assoc(a, y, d);
          DivModUnique(a * b, d, a * y, 0);
        }
        assert a * b + (-h) * (2 * a) == a by {
          assert b == 2 * h + 1;
          assert a * b == a * (2 * h) + a;
        }
        DividesCombination(d, a * b, 2 * a, -h);
      }
    }
    GcdSame(2 * a, b, a, b);
  }

  lemma {:induction false} GcdOddPart(a: nat, b: nat, k: nat)
    requires b % 2 == 1
    ensures Gcd(a * Pow(2, k), b) == Gcd(a, b)
  {
    if k > 0 {
      PowSucc(2, k - 1);
      MulSwap(2, a, Pow(2, k - 1));
      GcdHalf(a * Pow(2, k - 1), b);
      GcdOddPart(a, b, k - 1);
    }
  }

  /** Scaling both arguments scales the Gcd. */
  lemma {:induction false} GcdScale(a: nat, b: nat, m: nat)
    requires m > 0
    ensures Gcd(a * m, b * m) == Gcd(a, b) * m
    decreases b
  {
    if b > 0 {
      DivModIdentity(a, b);
      MulPos(b, m);
      Distrib(m, (a / b) * b, a % b);
      Assoc(a / b, b, m);
      MulStrict(a % b, b, m);
      MulPos(a % b, m);
      DivModUnique(a * m, b * m, a / b, (a % b) * m);
      GcdScale(b, a % b, m);
    }
  }

  // ---- binary gcd ----

  /** Shift out all trailing zero bits. */
  method MakeOdd(X: Mpi)
    requires X.Valid()
    modifies X
    ensures X.Valid() && X.s == old(X.s) && X.Abs() <= old(X.Abs())
    ensures old(X.Abs()) == 0 ==> X.Abs() == 0
    ensures old(X.Abs()) > 0 ==> X.Abs() % 2 == 1
    ensures exists k: nat :: old(X.Abs()) == X.Abs() * Pow(2, k)
    ensures old(X.p) != [] ==> X.p != []
  {
    hide Base, Weight, Val, Pow;
    ghost var v := X.Abs();
    var k := Lsb(X);
    ShiftOut(v, k);
    var s := X.s;
    ShiftR(X, k);
    X.s := s;
    assert v == X.Abs() * Pow(2, k);
  }

  lemma {:induction false} ShiftOut(v: nat, k: nat)
    requires IsLowestBit(k, v)
    ensures v == (v / Pow(2, k)) * Pow(2, k) && v / Pow(2, k) <= v
    ensures v > 0 ==> (v / Pow(2, k)) % 2 == 1
  {
    DivModIdentity(v, Pow(2, k));
    if v == 0 {
      ModSmall(0, Pow(2, k));
    }
  }

  /** TA and TB with the same factor 2^lz shifted out, at least one of them odd. */
  ghost predicate CommonTwos(a: nat, b: nat, lz: nat, ta: nat, tb: nat)
  {
    && a == ta * Pow(2, lz) && b == tb * Pow(2, lz)
    && (a > 0 && b > 0 ==> ta % 2 == 1 || tb % 2 == 1)
    && (a == 0 || b == 0 ==> lz == 0)
  }

  lemma {:induction false} ShiftCommon(a: nat, b: nat, la: nat, lb: nat)
    requires IsLowestBit(la, a) && IsLowestBit(lb, b)
    ensures
      var lz := if lb < la then lb else la;
      CommonTwos(a, b, lz, a / Pow(2, lz), b / Pow(2, lz))
  {
    var lz := if lb < la then lb else la;
    LowerShift(a, la, lz);
    LowerShift(b, lb, lz);
  }

  lemma {:induction false} LowerShift(v: nat, l: nat, k: nat)
    requires IsLowestBit(l, v) && k <= l
    ensures v == (v / Pow(2, k)) * Pow(2, k)
  {
    ShiftOut(v, l);
    PowAdd(2, l - k, k);
    var m := v / Pow(2, l);
    Assoc(m, Pow(2, l - k), Pow(2, k));
    DivModUnique(v, Pow(2, k), m * Pow(2, l - k), 0);
  }

  /** What the binary algorithm returns: 0 instead of |A| when B is 0. */
  function BinaryGcdValue(a: nat, b: nat): nat
  {
    if b == 0 then 0 else Gcd(a, b)
  }

  /** The routine is the true greatest common divisor exactly when B is not 0 or A is 0. */
  lemma {:induction false} BinaryGcdExact(a: nat, b: nat)
    ensures BinaryGcdValue(a, b) == Gcd(a, b) <==> b != 0 || a == 0
  {
  }

  /** A concrete input on which it is wrong: A = 4, B = 0 gives 0, not 4. */
  lemma BinaryGcdOfZero()
    ensures Gcd(4, 0) == 4 && BinaryGcdValue(4, 0) == 0
  {
  }

  /** G = gcd(A, B) */
  method GcdMpi(G: Mpi, A: Mpi, B: Mpi)
    requires G.Valid() && A.Valid() && B.Valid()
    modifies G
    ensures G.Valid() && G.Value() == BinaryGcdValue(old(A.Abs()), old(B.Abs()))
    ensures G.Value() == Gcd(old(A.Abs()), old(B.Abs())) <==> old(B.Abs()) != 0 || old(A.Abs()) == 0
  {
    hide Base, Weight, Val, Pow, Gcd;
    var TA := new Mpi();
    var TB := new Mpi();
    Copy(TA, A);
    Copy(TB, B);
    ghost var a, b := A.Abs(), B.Abs();
    var lz := Lsb(TA);
    var lzt := Lsb(TB);
    ShiftCommon(a, b, lz, lzt);
    if lzt < lz {
      lz := lzt;
    }
    ShiftR(TA, lz);
    ShiftR(TB, lz);
    TA.s, TB.s := 1, 1;
    BinaryLoop(TA, TB, a, b, lz);
    ShiftL(TB, lz);
    Copy(G, TB);
    BinaryGcdExact(a, b);
  }

  /** The subtract-and-halve loop. */
  method BinaryLoop(TA: Mpi, TB: Mpi, ghost a: nat, ghost b: nat, ghost lz: nat)
    requires TA != TB && TA.Valid() && TB.Valid() && TA.s == 1 && TB.s == 1
    requires CommonTwos(a, b, lz, TA.Abs(), TB.Abs())
    modifies TA, TB
    ensures TB.Valid() && TB.s == 1 && TB.Abs() * Pow(2, lz) == BinaryGcdValue(a, b)
  {
    hide Base, Weight, Val, Pow, Gcd;
    ghost var g := Gcd(TA.Abs(), TB.Abs());
    LoopStart(a, b, lz, TA.Abs(), TB.Abs());
    var c := CmpInt(TA, 0);
    while c != 0
      invariant TA.Valid() && TB.Valid() && TA.s == 1 && TB.s == 1 && c == Sign(TA.Abs())
      invariant b == 0 <==> TB.Abs() == 0
      invariant b > 0 ==> Gcd(TA.Abs(), TB.Abs()) == g
      invariant b > 0 && TA.Abs() > 0 ==> TA.Abs() % 2 == 1 || TB.Abs() % 2 == 1
      decreases TA.Abs() + TB.Abs()
    {
      BinaryStep(TA, TB);
      c := CmpInt(TA, 0);
    }
    LoopEnd(a, b, lz, TB.Abs());
  }

  /** Make both odd, then replace the larger one by half the difference. */
  method BinaryStep(TA: Mpi, TB: Mpi)
    requires TA != TB && TA.Valid() && TB.Valid() && TA.s == 1 && TB.s == 1 && TA.Abs() > 0
    requires TB.Abs() > 0 ==> TA.Abs() % 2 == 1 || TB.Abs() % 2 == 1
    modifies TA, TB
    ensures TA.Valid() && TB.Valid() && TA.s == 1 && TB.s == 1
    ensures TB.Abs() == 0 <==> old(TB.Abs()) == 0
    ensures TB.Abs() > 0 ==> Gcd(TA.Abs(), TB.Abs()) == Gcd(old(TA.Abs()), old(TB.Abs()))
    ensures TB.Abs() > 0 ==> TA.Abs() % 2 == 1 || TB.Abs() % 2 == 1
    ensures TA.Abs() + TB.Abs() < old(TA.Abs()) + old(TB.Abs())
  {
    hide Base, Weight, Val, Pow, Gcd;
    ghost var x, y := TA.Abs(), TB.Abs();
    MakeOdd(TA);
    MakeOdd(TB);
    OddParts(x, y, TA.Abs(), TB.Abs());
    ghost var x1, y1 := TA.Abs(), TB.Abs();
    var d := CmpMpi(TA, TB);
    if d >= 0 {
      HalfDifference(TA, TB);
    } else {
      GcdSymmetric(x1, y1);
      HalfDifference(TB, TA);
      GcdSymmetric(x1, TB.Abs());
      DifferenceAlive(y1, x1);
    }
  }

  /** X = (X - Y) / 2 for odd X >= Y. */
  method HalfDifference(X: Mpi, Y: Mpi)
    requires X != Y && X.Valid() && Y.Valid() && X.s == 1 && Y.Abs() <= X.Abs()
    requires X.Abs() % 2 == 1 && (Y.Abs() == 0 || Y.Abs() % 2 == 1)
    modifies X
    ensures X.Valid() && X.s == 1 && X.Abs() == (old(X.Abs()) - Y.Abs()) / 2 < old(X.Abs())
    ensures Y.Abs() > 0 ==> Gcd(X.Abs(), Y.Abs()) == Gcd(old(X.Abs()), Y.Abs())
  {
    hide Base, Weight, Val, Gcd;
    HalveDifference(X.Abs(), Y.Abs());
    var r := SubAbs(X, X, Y);
    ShiftOne(X);
  }

  lemma DifferenceAlive(x: nat, y: nat)
    requires x > y && x % 2 == 1 && y % 2 == 1
    ensures (x - y) / 2 > 0
  {
  }

  lemma {:induction false} LoopStart(a: nat, b: nat, lz: nat, ta: nat, tb: nat)
    requires CommonTwos(a, b, lz, ta, tb)
    ensures b == 0 <==> tb == 0
    ensures a == 0 <==> ta == 0
    ensures b > 0 && ta > 0 ==> ta % 2 == 1 || tb % 2 == 1
    ensures b > 0 ==> Gcd(ta, tb) * Pow(2, lz) == Gcd(a, b)
  {
    MulPos(ta, Pow(2, lz));
    MulPos(tb, Pow(2, lz));
    GcdScale(ta, tb, Pow(2, lz));
  }

  lemma {:induction false} LoopEnd(a: nat, b: nat, lz: nat, tb: nat)
    requires b == 0 <==> tb == 0
    requires b > 0 ==> Gcd(0, tb) * Pow(2, lz) == Gcd(a, b)
    ensures tb * Pow(2, lz) == BinaryGcdValue(a, b)
  {
    GcdZero(tb);
  }

  lemma {:induction false} OddParts(x: nat, y: nat, x1: nat, y1: nat)
    requires exists k: nat :: x == x1 * Pow(2, k)
    requires exists k: nat :: y == y1 * Pow(2, k)
    requires x > 0 && x1 % 2 == 1 && (y > 0 ==> y1 % 2 == 1) && (y == 0 ==> y1 == 0)
    requires y > 0 ==> x % 2 == 1 || y % 2 == 1
    ensures y > 0 ==> Gcd(x1, y1) == Gcd(x, y)
  {
    var k: nat :| x == x1 * Pow(2, k);
    var l: nat :| y == y1 * Pow(2, l);
    if y > 0 {
      if x % 2 == 1 {
        OddShift(x1, k);
        GcdSymmetric(x1, y);
        GcdSymmetric(x1, y1);
        GcdOddPart(y1, x1, l);
      } else {
        OddShift(y1, l);
        GcdOddPart(x1, y1, k);
      }
    }
  }

  lemma {:induction false} OddShift(x: nat, k: nat)
    requires (x * Pow(2, k)) % 2 == 1
    ensures x * Pow(2, k) == x
  {
    if k > 0 {
      EvenShift(x, k);
    }
  }

  lemma {:induction false} EvenShift(x: nat, k: nat)
    requires k > 0
    ensures (x * Pow(2, k)) % 2 == 0
  {
    PowSucc(2, k - 1);
    MulSwap(2, x, Pow(2, k - 1));
    DivModUnique(2 * (x * Pow(2, k - 1)), 2, x * Pow(2, k - 1), 0);
  }

  lemma {:induction false} HalveDifference(x: nat, y: nat)
    requires x >= y && x % 2 == 1 && (y == 0 || y % 2 == 1)
    ensures 0 <= (x - y) / 2 < x
    ensures y > 0 ==> Gcd((x - y) / 2, y) == Gcd(x, y)
  {
    hide Gcd;
    if y > 0 {
      var h := (x - y) / 2;
      assert 2 * h == x - y;
      GcdSubtract(x, y);
      GcdHalf(h, y);
    }
  }

  /** ShiftR by one bit, sign kept. */
  method ShiftOne(X: Mpi)
    requires X.Valid() && X.s == 1
    modifies X
    ensures X.Valid() && X.s == 1 && X.Abs() == old(X.Abs()) / 2
  {
    hide Base, Weight, Val;
    ghost var v := X.Abs();
    assert Pow(2, 1) == 2;
    ShiftR(X, 1);
    X.s := 1;
  }

  // ---- modular inverse ----

  lemma {:induction false} ParityLimb(X: Mpi)
    requires X.Valid() && X.p != []
    ensures X.p[0] % 2 == X.Value() % 2 == X.Abs() % 2
  {
    var p := X.p;
    ValCons(p);
    var b, high := Base(), Val(p[1..]);
    hide Base, Val;
    EvenMultiple(p[0], b, high);
    SignParity(X.s, Val(p));
  }

  lemma EvenMultiple(low: nat, b: nat, high: nat)
    requires b % 2 == 0
    ensures (low + b * high) % 2 == low % 2
  {
    var h := b / 2;
    Assoc(2, h, high);
    AddEven(low, h * high);
  }

  lemma AddEven(low: int, m: int)
    ensures (low + 2 * m) % 2 == low % 2
  {
  }

  lemma SameParity(a: int, b: int)
    requires a % 2 == b % 2
    ensures (a + b) % 2 == 0 && (a - b) % 2 == 0
  {
  }

  lemma SignParity(s: int, v: nat)
    requires s == 1 || s == -1
    ensures (s * v) % 2 == v % 2
  {
  }

  /** Shifting an even number right by one bit halves its value, whatever its sign. */
  method HalveEven(X: Mpi)
    requires X.Valid() && X.p != [] && X.Value() % 2 == 0
    modifies X
    ensures X.Valid() && X.p != [] && 2 * X.Value() == old(X.Value())
  {
    hide Base, Weight, Val;
    ParityLimb(X);
    ghost var v := X.Abs();
    assert Pow(2, 1) == 2;
    ShiftR(X, 1);
  }

  /** One row of the invariant: c1 * ta + c2 * tb = t. */
  ghost predicate Row(t: int, c1: int, c2: int, ta: int, tb: int)
  {
    c1 * ta + c2 * tb == t
  }

  lemma HalveRow(t: int, c1: int, c2: int, ta: int, tb: int)
    requires Row(t, c1, c2, ta, tb) && t % 2 == 0 && (ta % 2 == 1 || tb % 2 == 1)
    ensures c1 % 2 != 0 || c2 % 2 != 0 ==>
              (c1 + tb) % 2 == 0 && (c2 - ta) % 2 == 0 && Row(t, c1 + tb, c2 - ta, ta, tb)
  {
    Distrib(ta, c1, tb);
    Distrib(tb, c2, ta);
    assert ta * tb == tb * ta;
    if c1 % 2 != 0 || c2 % 2 != 0 {
      ParityOfSum(c1, ta, c2, tb);
    }
  }

  lemma ParityOfSum(c1: int, ta: int, c2: int, tb: int)
    requires (c1 * ta + c2 * tb) % 2 == 0 && (ta % 2 == 1 || tb % 2 == 1)
    ensures c1 % 2 != 0 || c2 % 2 != 0 ==> (c1 + tb) % 2 == 0 && (c2 - ta) % 2 == 0
  {
    ParityOfProduct(c1, ta);
    ParityOfProduct(c2, tb);
    ParityCases(c1 * ta, c2 * tb, c1 % 2, ta % 2, c2 % 2, tb % 2);
    if c1 % 2 != 0 || c2 % 2 != 0 {
      SameParity(c1, tb);
      SameParity(c2, ta);
    }
  }

  lemma ParityCases(p: int, q: int, a: nat, b: nat, c: nat, d: nat)
    requires a < 2 && b < 2 && c < 2 && d < 2 && p % 2 == a * b && q % 2 == c * d
    requires (p + q) % 2 == 0 && (b == 1 || d == 1)
    ensures a != 0 || c != 0 ==> a == d && c == b
  {
    assert a * b == if a == 1 then b else 0;
    assert c * d == if c == 1 then d else 0;
  }

  lemma BitProduct(r: int, s: int)
    requires 0 <= r < 2 && 0 <= s < 2
    ensures (r * s) % 2 == r * s
  {
    assert r * s == if r == 1 then s else 0;
  }

  lemma ProductParts(x: int, r: int, y: int, s: int)
    ensures (2 * x + r) * (2 * y + s) == 2 * (x * (2 * y + s) + r * y) + r * s
  {
    var b := 2 * y + s;
    Distrib(b, 2 * x, r);
    Distrib(r, 2 * y, s);
    Assoc(2, x, b);
    MulSwap(r, 2, y);
  }

  lemma ParityOfProduct(a: int, b: int)
    ensures (a * b) % 2 == (a % 2) * (b % 2)
  {
    var x, y := a / 2, b / 2;
    var r, s := a % 2, b % 2;
    ProductParts(x, r, y, s);
    AddEven(r * s, x * (2 * y + s) + r * y);
    BitProduct(r, s);
  }

  lemma HalvedRow(t: int, c1: int, c2: int, ta: int, tb: int)
    requires Row(2 * t, 2 * c1, 2 * c2, ta, tb)
    ensures Row(t, c1, c2, ta, tb)
  {
    Assoc(2, c1, ta);
    Assoc(2, c2, tb);
  }

  lemma SubtractRows(t: int, c1: int, c2: int, u: int, d1: int, d2: int, ta: int, tb: int)
    requires Row(t, c1, c2, ta, tb) && Row(u, d1, d2, ta, tb)
    ensures Row(t - u, c1 - d1, c2 - d2, ta, tb)
  {
    Distrib(ta, c1, d1);
    Distrib(tb, c2, d2);
  }

  /** while T is even: halve it, first making both coefficients even. */
  method HalveWhileEven(T: Mpi, C1: Mpi, C2: Mpi, TA: Mpi, TB: Mpi, ghost other: nat)
    requires T != C1 && T != C2 && C1 != C2
    requires TA != T && TA != C1 && TA != C2 && TB != T && TB != C1 && TB != C2
    requires T.Valid() && C1.Valid() && C2.Valid() && TA.Valid() && TB.Valid()
    requires T.p != [] && C1.p != [] && C2.p != []
    requires Row(T.Value(), C1.Value(), C2.Value(), TA.Value(), TB.Value()) && T.Value() > 0
    requires TA.Value() % 2 == 1 || TB.Value() % 2 == 1
    requires T.Value() % 2 == 1 || other % 2 == 1
    modifies T, C1, C2
    ensures T.Valid() && C1.Valid() && C2.Valid() && T.p != [] && C1.p != [] && C2.p != []
    ensures Row(T.Value(), C1.Value(), C2.Value(), TA.Value(), TB.Value())
    ensures 0 < T.Value() <= old(T.Value()) && T.Value() % 2 == 1
    ensures Gcd(T.Value(), other) == Gcd(old(T.Value()), other)
  {
    hide Base, Weight, Val, Pow, Gcd, Row;
    ghost var ta, tb := TA.Value(), TB.Value();
    ParityLimb(T);
    while T.p[0] % 2 == 0
      invariant T.Valid() && C1.Valid() && C2.Valid() && T.p != [] && C1.p != [] && C2.p != []
      invariant Row(T.Value(), C1.Value(), C2.Value(), ta, tb)
      invariant 0 < T.Value() <= old(T.Value()) && T.p[0] % 2 == T.Value() % 2
      invariant T.Value() % 2 == 1 || other % 2 == 1
      invariant Gcd(T.Value(), other) == Gcd(old(T.Value()), other)
      decreases T.Value()
    {
      ghost var t := T.Value();
      HalveRow(t, C1.Value(), C2.Value(), ta, tb);
      HalveEven(T);
      GcdHalf(T.Value(), other);
      ParityLimb(C1);
      ParityLimb(C2);
      if C1.p[0] % 2 != 0 || C2.p[0] % 2 != 0 {
        AddMpi(C1, C1, TB);
        SubMpi(C2, C2, TA);
      }
      assert Row(t, C1.Value(), C2.Value(), ta, tb);
      StillAllocated(C1);
      StillAllocated(C2);
      HalveEven(C1);
      HalveEven(C2);
      HalvedRow(T.Value(), C1.Value(), C2.Value(), ta, tb);
      ParityLimb(T);
    }
  }

  lemma StillAllocated(X: Mpi)
    ensures |X.p| >= 1 ==> X.p != []
  {
  }

  /** T -= S together with both coefficients. */
  method SubtractInto(T: Mpi, C1: Mpi, C2: Mpi, S: Mpi, D1: Mpi, D2: Mpi, ghost ta: int, ghost tb: int)
    requires T != C1 && T != C2 && C1 != C2
    requires S != T && S != C1 && S != C2 && D1 != T && D1 != C1 && D1 != C2 && D2 != T && D2 != C1 && D2 != C2
    requires T.Valid() && C1.Valid() && C2.Valid() && S.Valid() && D1.Valid() && D2.Valid()
    requires T.p != [] && C1.p != [] && C2.p != []
    requires Row(T.Value(), C1.Value(), C2.Value(), ta, tb) && Row(S.Value(), D1.Value(), D2.Value(), ta, tb)
    modifies T, C1, C2
    ensures T.Valid() && C1.Valid() && C2.Valid() && T.p != [] && C1.p != [] && C2.p != []
    ensures T.Value() == old(T.Value()) - S.Value()
    ensures Row(T.Value(), C1.Value(), C2.Value(), ta, tb)
  {
    hide Base, Weight, Val, Row;
    SubtractRows(T.Value(), C1.Value(), C2.Value(), S.Value(), D1.Value(), D2.Value(), ta, tb);
    SubMpi(T, T, S);
    SubMpi(C1, C1, D1);
    SubMpi(C2, C2, D2);
  }

  /** One pass of the loop: make both odd, then subtract the smaller row from the larger. */
  method InverseStep(TU: Mpi, U1: Mpi, U2: Mpi, TV: Mpi, V1: Mpi, V2: Mpi, TA: Mpi, TB: Mpi)
    requires TU != U1 && TU != U2 && U1 != U2 && TV != V1 && TV != V2 && V1 != V2
    requires TU != TV && TU != V1 && TU != V2 && U1 != TV && U1 != V1 && U1 != V2
    requires U2 != TV && U2 != V1 && U2 != V2
    requires TA != TU && TA != U1 && TA != U2 && TA != TV && TA != V1 && TA != V2
    requires TB != TU && TB != U1 && TB != U2 && TB != TV && TB != V1 && TB != V2
    requires TA.Valid() && TB.Valid()
    requires TU.Valid() && U1.Valid() && U2.Valid() && TU.p != [] && U1.p != [] && U2.p != []
    requires TV.Valid() && V1.Valid() && V2.Valid() && TV.p != [] && V1.p != [] && V2.p != []
    requires Row(TU.Value(), U1.Value(), U2.Value(), TA.Value(), TB.Value())
    requires Row(TV.Value(), V1.Value(), V2.Value(), TA.Value(), TB.Value())
    requires TU.Value() > 0 && TV.Value() > 0 && Gcd(TU.Value(), TV.Value()) == 1
    requires TA.Value() % 2 == 1 || TB.Value() % 2 == 1
    modifies TU, U1, U2, TV, V1, V2
    ensures TU.Valid() && U1.Valid() && U2.Valid() && TU.p != [] && U1.p != [] && U2.p != []
    ensures TV.Valid() && V1.Valid() && V2.Valid() && TV.p != [] && V1.p != [] && V2.p != []
    ensures Row(TU.Value(), U1.Value(), U2.Value(), TA.Value(), TB.Value())
    ensures Row(TV.Value(), V1.Value(), V2.Value(), TA.Value(), TB.Value())
    ensures TU.Value() >= 0 && TV.Value() > 0 && Gcd(TU.Value(), TV.Value()) == 1
    ensures TU.Value() + TV.Value() < old(TU.Value()) + old(TV.Value())
  {
    hide Base, Weight, Val, Pow, Gcd, Row;
    ghost var ta, tb, v0 := TA.Value(), TB.Value(), TV.Value();
    GcdParity(TU.Value(), v0);
    HalveWhileEven(TU, U1, U2, TA, TB, v0);
    GcdSymmetric(TU.Value(), v0);
    HalveWhileEven(TV, V1, V2, TA, TB, TU.Value());
    GcdSymmetric(TU.Value(), TV.Value());
    var c := CmpMpi(TU, TV);
    if c >= 0 {
      GcdSubtract(TU.Value(), TV.Value());
      SubtractInto(TU, U1, U2, TV, V1, V2, ta, tb);
    } else {
      GcdSubtract(TV.Value(), TU.Value());
      SubtractInto(TV, V1, V2, TU, U1, U2, ta, tb);
      GcdSymmetric(TU.Value(), TV.Value());
    }
  }

  /** The do-while loop of the inverse; it ends with V1 * TA + V2 * TB = 1. */
  method InverseLoop(TA: Mpi, TB: Mpi) returns (V1: Mpi, ghost v2: int)
    requires TA.Valid() && TB.Valid() && TA != TB
    requires 0 < TA.Value() < TB.Value() && Gcd(TA.Value(), TB.Value()) == 1
    ensures fresh(V1) && V1.Valid() && V1.p != []
    ensures Row(1, V1.Value(), v2, TA.Value(), TB.Value())
  {
    hide Base, Weight, Val, Pow, Gcd, Row;
    ghost var ta, tb := TA.Value(), TB.Value();
    var TU, U1, U2 := StartRow(TA, 1, 0);
    var TV, V2;
    TV, V1, V2 := StartRow(TB, 0, 1);
    FirstRows(ta, tb);
    GcdParity(ta, tb);
    var more := true;
    while more
      invariant TA.Value() == ta && TB.Value() == tb && TA.Valid() && TB.Valid()
      invariant TU.Valid() && TV.Valid() && U1.Valid() && U2.Valid() && V1.Valid() && V2.Valid()
      invariant TU.p != [] && TV.p != [] && U1.p != [] && U2.p != [] && V1.p != [] && V2.p != []
      invariant Row(TU.Value(), U1.Value(), U2.Value(), ta, tb)
      invariant Row(TV.Value(), V1.Value(), V2.Value(), ta, tb)
      invariant TU.Value() >= 0 && TV.Value() > 0 && (more <==> TU.Value() > 0)
      invariant Gcd(TU.Value(), TV.Value()) == 1
      decreases TU.Value() + TV.Value()
    {
      InverseStep(TU, U1, U2, TV, V1, V2, TA, TB);
      var c := CmpInt(TU, 0);
      more := c != 0;
    }
    GcdZero(TV.Value());
    v2 := V2.Value();
  }

  /** A row (T, C1, C2) with T a copy of A and constant coefficients. */
  method StartRow(A: Mpi, c1: nat, c2: nat) returns (T: Mpi, C1: Mpi, C2: Mpi)
    requires A.Valid() && A.Value() > 0 && c1 <= 1 && c2 <= 1
    ensures fresh(T) && fresh(C1) && fresh(C2) && T != C1 && T != C2 && C1 != C2
    ensures T.Valid() && C1.Valid() && C2.Valid() && T.p != [] && C1.p != [] && C2.p != []
    ensures T.Value() == A.Value() && C1.Value() == c1 && C2.Value() == c2
  {
    hide Base, Weight, Val;
    T := new Mpi();
    C1 := new Mpi();
    C2 := new Mpi();
    Copy(T, A);
    Lset(C1, c1);
    Lset(C2, c2);
    NonEmpty(T);
  }

  lemma FirstRows(ta: int, tb: int)
    ensures Row(ta, 1, 0, ta, tb) && Row(tb, 0, 1, ta, tb)
  {
  }

  /** Numbers with Gcd 1 are not both even. */
  lemma {:induction false} GcdParity(a: nat, b: nat)
    requires Gcd(a, b) == 1
    ensures a % 2 == 1 || b % 2 == 1
  {
    GcdGreatest(a, b, 2);
    assert !Divides(2, 1);
  }

  /** X = A^-1 mod N */
  method InvMod(X: Mpi, A: Mpi, N: Mpi) returns (ret: Status)
    requires X.Valid() && A.Valid() && N.Valid()
    modifies X
    ensures X.Valid()
    ensures ret == if old(N.Value()) <= 1 then BadInput
                   else if Gcd(old(A.Abs()), old(N.Abs())) != 1 then NotAcceptable else Ok
    ensures ret == Ok ==> 1 <= X.Value() < old(N.Value())
    ensures ret == Ok ==> (old(A.Value()) * X.Value()) % old(N.Value()) == 1
    ensures ret != Ok ==> X.p == old(X.p) && X.s == old(X.s)
  {
    hide Base, Weight, Val, Pow, Gcd, Row;
    var c := CmpInt(N, 1);
    if c <= 0 {
      return BadInput;
    }
    ghost var a, n := A.Value(), N.Value();
    var G := new Mpi();
    GcdMpi(G, A, N);
    c := CmpInt(G, 1);
    if c != 0 {
      return NotAcceptable;
    }
    var TA := new Mpi();
    var ret' := ModMpi(TA, A, N);
    var TB := new Mpi();
    Copy(TB, N);
    AbsValue(A);
    ReducedCoprime(a, n);
    var V1, v2 := InverseLoop(TA, TB);
    InverseCong(V1.Value(), v2, a, n);
    IntoRange(V1, N, a);
    InverseResidue(a, V1.Value(), n);
    Copy(X, V1);
    return Ok;
  }

  /** Add or subtract N until V lies in [0, N). */
  method IntoRange(V: Mpi, N: Mpi, ghost a: int)
    requires V != N && V.Valid() && N.Valid() && N.Value() > 1 && Cong(a * V.Value(), 1, N.Value())
    modifies V
    ensures V.Valid() && 0 <= V.Value() < N.Value() && Cong(a * V.Value(), 1, N.Value())
  {
    hide Base, Weight, Val;
    ghost var n := N.Value();
    var c := CmpInt(V, 0);
    while c < 0
      invariant V.Valid() && c == Sign(V.Value()) && Cong(a * V.Value(), 1, n)
      decreases -V.Value()
    {
      InverseShift(a, V.Value(), n);
      AddMpi(V, V, N);
      c := CmpInt(V, 0);
    }
    c := CmpMpi(V, N);
    while c >= 0
      invariant V.Valid() && c == Sign(V.Value() - n) && Cong(a * V.Value(), 1, n) && V.Value() >= 0
      decreases V.Value()
    {
      InverseShift(a, V.Value(), n);
      SubMpi(V, V, N);
      c := CmpMpi(V, N);
    }
  }

  /** Reducing A modulo N keeps the Gcd with N. */
  lemma {:induction false} ReducedCoprime(a: int, n: nat)
    requires n > 1 && Gcd(AbsInt(a), n) == 1
    ensures 0 < a % n < n && Gcd(a % n, n) == 1
  {
    var r, k := a % n, a / n;
    DivModIdentity(a, n);
    forall d ensures Divides(d, r) && Divides(d, n) <==> Divides(d, AbsInt(a)) && Divides(d, n) {
      if Divides(d, n) && Divides(d, r) {
        if a >= 0 {
          DividesCombination(d, r, n, k);
        } else {
          // -a is a multiple of d because both n and n * (-k) - r are
          assert r + k * n == a;
          NegatedCombination(d, r, n, k);
        }
      }
      if Divides(d, n) && Divides(d, AbsInt(a)) {
        if a >= 0 {
          assert a + (-k) * n == r;
          DividesCombination(d, a, n, -k);
        } else {
          NegatedRemainder(d, -a, n, k, r);
        }
      }
    }
    GcdSame(r, n, AbsInt(a), n);
    if r == 0 {
      GcdZero(n);
    }
  }

  lemma NegatedCombination(d: nat, r: nat, n: nat, k: int)
    requires Divides(d, r) && Divides(d, n) && r + k * n < 0
    ensures Divides(d, -(r + k * n))
  {
    DivModIdentity(r, d);
    DivModIdentity(n, d);
    var x, y := r / d, n / d;
    Assoc(k, y, d);
    Distrib(d, x, k * y);
    assert -(r + k * n) == (-(x + k * y)) * d;
    DivModUnique(-(r + k * n), d, -(x + k * y), 0);
  }

  lemma NegatedRemainder(d: nat, b: nat, n: nat, k: int, r: nat)
    requires Divides(d, b) && Divides(d, n) && r == 0 - b - k * n
    ensures Divides(d, r)
  {
    DivModIdentity(b, d);
    DivModIdentity(n, d);
    var x, y := b / d, n / d;
    Assoc(k, y, d);
    Distrib(d, x, k * y);
    assert r == (-(x + k * y)) * d;
    DivModUnique(r, d, -(x + k * y), 0);
  }

  lemma InverseCong(v1: int, v2: int, a: int, n: nat)
    requires n > 1 && Row(1, v1, v2, a % n, n)
    ensures Cong(a * v1, 1, n)
  {
    var t := a % n;
    assert v1 * t - 1 == (-v2) * n;
    CongIntro(v1 * t, 1, n, -v2);
    CongMod(a, n);
    CongRefl(v1, n);
    CongMul(a, t, v1, v1, n);
    assert t * v1 == v1 * t;
    CongTrans(a * v1, t * v1, 1, n);
  }

  lemma InverseShift(a: int, v: int, n: nat)
    requires n > 1 && Cong(a * v, 1, n)
    ensures Cong(a * (v + n), 1, n) && Cong(a * (v - n), 1, n)
  {
    Distrib(a, v, n);
    CongIntro(a * (v + n), a * v, n, a);
    assert a * (v - n) - a * v == (-a) * n;
    CongIntro(a * (v - n), a * v, n, -a);
    CongTrans(a * (v + n), a * v, 1, n);
    CongTrans(a * (v - n), a * v, 1, n);
  }

  lemma InverseResidue(a: int, x: int, n: nat)
    requires n > 1 && 0 <= x < n && Cong(a * x, 1, n)
    ensures (a * x) % n == 1 && x >= 1
  {
    CongSym(a * x, 1, n);
    CongResidue(1, a * x, n);
    if x == 0 {
      ModSmall(0, n);
    }
  }
}
