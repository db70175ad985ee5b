/**
 Addition, subtraction and multiplication of multi-precision integers.
 Outputs may alias inputs wherever the library allows it: the contracts speak of the old
 values of A and B, and X may be either of them.
 */
module MpiArith {
  import opened Arithmetic
  import opened Limbs
  import opened MpiCore

  datatype Status = Ok | BadInput | NegativeValue | DivisionByZero | NotAcceptable

  lemma ValEmpty()
    ensures Val([]) == 0
  {
  }

  /** X = |A| + |B| */
  method AddAbs(X: Mpi, A0: Mpi, B0: Mpi)
    requires X.Valid() && A0.Valid() && B0.Valid()
    modifies X
    ensures X.Valid() && X.s == 1 && X.Abs() == old(A0.Abs()) + old(B0.Abs())
    ensures old(A0.p) != [] ==> |X.p| >= |old(X.p)|
  {
    hide Base, Weight, Val;
    var A, B := A0, B0;
    if X == B {
      A, B := X, A0;
    }
    if X != A {
      Copy(X, A);
    }
    X.s := 1;
    var j := SignificantLimbs(B);
    SignificantVal(B.p);
    Grow(X, j);
    if X == B {
      SignificantVal(X.p);
    }
    AddLimbs(X, B, j);
  }

  /** X += the low j limbs of B, growing X when the last carry leaves its buffer. */
  method AddLimbs(X: Mpi, B: Mpi, j: nat)
    requires X.Valid() && B.Valid() && j <= |B.p| && j <= |X.p| && X.s == 1
    modifies X
    ensures X.Valid() && X.s == 1 && |X.p| >= |old(X.p)|
    ensures X.Abs() == old(X.Abs()) + Val(old(B.p)[..j])
  {
    hide Base, Weight, Val;
    ghost var x0, b0 := X.p, B.p;
    var i, c: nat := 0, 0;
    ValStart(x0, b0);
    while i < j
      invariant 0 <= i <= j && |X.p| == |x0| && X.s == 1 && B.Valid() && |B.p| == |b0|
      invariant IsLimbs(X.p) && c <= 1
      invariant B.p[i..] == b0[i..]
      invariant Val(X.p) + c * Weight(i) == Val(x0) + Val(b0[..i])
    {
      assert B.p[i] == B.p[i..][0] == b0[i];
      var tmp := B.p[i];
      var d := (X.p[i] + c) % Base();
      var c1 := if d < c then 1 else 0;
      WrapAdd(X.p[i], c);
      var e := (d + tmp) % Base();
      var c2 := c1 + if e < tmp then 1 else 0;
      WrapAdd(d, tmp);
      assert e + c2 * Base() == X.p[i] + (c + tmp);
      AddStep(X.p, b0, i, e, c, c2, Val(x0));
      X.p := X.p[i := e];
      c := c2;
      i := i + 1;
      assert b0[i..] == b0[i - 1..][1..];
    }
    while c != 0
      invariant i >= 0 && |X.p| >= |x0| && X.s == 1 && i <= |X.p|
      invariant IsLimbs(X.p) && c <= 1
      invariant Val(X.p) + c * Weight(i) == Val(x0) + Val(b0[..j])
      decreases if c == 0 then 0 else 1 + |X.p| - i
    {
      if i >= |X.p| {
        Grow(X, i + 1);
      }
      var d := (X.p[i] + c) % Base();
      var c1 := if d < c then 1 else 0;
      WrapAdd(X.p[i], c);
      CarryStep(X.p, i, d, c, c1);
      X.p := X.p[i := d];
      c := c1;
      i := i + 1;
    }
    assert 0 * Weight(i) == 0;
  }

  lemma {:induction false} ValStart(x: seq<nat>, b: seq<nat>)
    ensures Val(x) + 0 * Weight(0) == Val(x) + Val(b[..0])
  {
    assert b[..0] == [];
  }

  /** A limb-wide addition wraps exactly when the result is below either operand. */
  lemma WrapAdd(a: nat, b: nat)
    requires a < Base() && b < Base()
    ensures (a + b) % Base() < Base()
    ensures (a + b) % Base() + (if (a + b) % Base() < b then Base() else 0) == a + b
  {
    if a + b < Base() {
      ModSmall(a + b, Base());
    } else {
      DivModUnique(a + b, Base(), 1, a + b - Base());
    }
  }

  lemma {:induction false} AddStep(s: seq<nat>, b: seq<nat>, i: nat, e: nat, c: nat, c2: nat, v: nat)
    requires i < |s| && i < |b| && e + c2 * Base() == s[i] + (c + b[i])
    requires Val(s) + c * Weight(i) == v + Val(b[..i])
    ensures Val(s[i := e]) + c2 * Weight(i + 1) == v + Val(b[..i + 1])
  {
    CarryStep(s, i, e, c + b[i], c2);
    ValTake(b, i);
    Distrib(Weight(i), c, b[i]);
  }

  /** d -= the low n limbs of s, letting the borrow run on into d's upper limbs. */
  method SubHlp(n: nat, s: Mpi, d: Mpi)
    requires s != d && s.Valid() && d.Valid() && n <= |s.p| && n <= |d.p|
    requires Val(s.p[..n]) <= d.Abs()
    modifies d
    ensures d.Valid() && d.s == old(d.s) && |d.p| == |old(d.p)|
    ensures d.Abs() == old(d.Abs()) - Val(s.p[..n])
  {
    hide Base, Weight, Val;
    ghost var d0 := d.p;
    var i, c: nat := 0, 0;
    ValStart(d0, s.p);
    while i < n
      invariant 0 <= i <= n && |d.p| == |d0| && d.s == old(d.s)
      invariant IsLimbs(d.p) && c <= 1
      invariant Val(d.p) - c * Weight(i) == Val(d0) - Val(s.p[..i])
    {
      var z := if d.p[i] < c then 1 else 0;
      var e := (d.p[i] - c) % Base();
      WrapSub(d.p[i], c);
      var c2 := z + if e < s.p[i] then 1 else 0;
      var f := (e - s.p[i]) % Base();
      WrapSub(e, s.p[i]);
      SubStep(d.p, s.p, i, f, c, c2, Val(d0));
      d.p := d.p[i := f];
      c := c2;
      i := i + 1;
    }
    BorrowOut(d, i, c);
  }

  /** Take a borrow of weight i out of d's upper limbs. */
  method BorrowOut(d: Mpi, i0: nat, c0: nat)
    requires d.Valid() && i0 <= |d.p| && c0 <= 1
    requires c0 * Weight(i0) <= d.Abs()
    modifies d
    ensures d.Valid() && d.s == old(d.s) && |d.p| == |old(d.p)|
    ensures d.Abs() == old(d.Abs()) - c0 * Weight(i0)
  {
    hide Base, Weight, Val;
    ghost var d0 := d.p;
    var i, c: nat := i0, c0;
    while c != 0
      invariant i0 <= i <= |d.p| == |d0| && d.s == old(d.s)
      invariant IsLimbs(d.p) && c <= 1
      invariant Val(d.p) - c * Weight(i) == Val(d0) - c0 * Weight(i0)
      decreases if c == 0 then 0 else 1 + |d.p| - i
    {
      ValBound(d.p);
      assert i < |d.p|;
      var z := if d.p[i] < c then 1 else 0;
      var e := (d.p[i] - c) % Base();
      WrapSub(d.p[i], c);
      CarryStep(d.p, i, e, 0 - c, 0 - z);
      d.p := d.p[i := e];
      c := z;
      i := i + 1;
    }
  }

  lemma WrapSub(a: nat, b: nat)
    requires a < Base() && b < Base()
    ensures 0 <= (a - b) % Base() < Base()
    ensures (a - b) % Base() == a - b + (if a < b then Base() else 0)
  {
    if a < b {
      DivModUnique(a - b, Base(), -1, a - b + Base());
    } else {
      ModSmall(a - b, Base());
    }
  }

  lemma {:induction false} SubStep(d: seq<nat>, s: seq<nat>, i: nat, f: nat, c: nat, c2: nat, v: nat)
    requires i < |s| && i < |d| && f == d[i] - c - s[i] + c2 * Base()
    requires Val(d) - c * Weight(i) == v - Val(s[..i])
    ensures Val(d[i := f]) - c2 * Weight(i + 1) == v - Val(s[..i + 1])
  {
    hide Base, Weight, Val;
    CarryStep(d, i, f, 0 - c - s[i], 0 - c2);
    ValTake(s, i);
    Distrib(Weight(i), 0 - c, s[i]);
  }

  /** X = |A| - |B|, refused when |A| < |B|. */
  method SubAbs(X: Mpi, A: Mpi, B: Mpi) returns (ret: Status)
    requires X.Valid() && A.Valid() && B.Valid()
    modifies X
    ensures X.Valid()
    ensures ret == if old(A.Abs()) < old(B.Abs()) then NegativeValue else Ok
    ensures ret == Ok ==> X.s == 1 && X.Abs() == old(A.Abs()) - old(B.Abs())
    ensures ret != Ok ==> X.p == old(X.p) && X.s == old(X.s)
    ensures ret == Ok && old(A.p) != [] ==> |X.p| >= |old(X.p)|
  {
    hide Base, Weight, Val;
    var c := CmpAbs(A, B);
    if c < 0 {
      return NegativeValue;
    }
    var B' := B;
    if X == B {
      B' := new Mpi();
      Copy(B', B);
    }
    if X != A {
      Copy(X, A);
    }
    X.s := 1;
    var n := SignificantLimbs(B');
    SignificantVal(B'.p);
    FitsIn(X.p, B'.p);
    SubHlp(n, B', X);
    return Ok;
  }

  lemma {:induction false} FitsIn(x: seq<nat>, b: seq<nat>)
    requires IsLimbs(x) && IsLimbs(b) && Val(b) <= Val(x)
    ensures Significant(b) <= |x|
  {
    SignificantVal(b);
    ValBound(x);
    if Significant(b) > |x| {
      WeightMono(|x|, Significant(b) - 1);
    }
  }

  /** X = A + B */
  method AddMpi(X: Mpi, A: Mpi, B: Mpi)
    requires X.Valid() && A.Valid() && B.Valid()
    modifies X
    ensures X.Valid() && X.Value() == old(A.Value()) + old(B.Value())
    ensures old(A.p) != [] ==> |X.p| >= |old(X.p)|
  {
    hide Base, Weight, Val;
    var s := A.s;
    if A.s * B.s < 0 {
      assert B.s == -s;
      var c := CmpAbs(A, B);
      if c >= 0 {
        var ret := SubAbs(X, A, B);
        X.s := s;
      } else {
        ValEmpty();
        var ret := SubAbs(X, B, A);
        X.s := -s;
      }
    } else {
      assert B.s == s;
      AddAbs(X, A, B);
      X.s := s;
    }
  }

  /** X = A - B */
  method SubMpi(X: Mpi, A: Mpi, B: Mpi)
    requires X.Valid() && A.Valid() && B.Valid()
    modifies X
    ensures X.Valid() && X.Value() == old(A.Value()) - old(B.Value())
    ensures old(A.p) != [] ==> |X.p| >= |old(X.p)|
  {
    hide Base, Weight, Val;
    var s := A.s;
    if A.s * B.s > 0 {
      assert B.s == s;
      var c := CmpAbs(A, B);
      if c >= 0 {
        var ret := SubAbs(X, A, B);
        X.s := s;
      } else {
        ValEmpty();
        var ret := SubAbs(X, B, A);
        X.s := -s;
      }
    } else {
      assert B.s == -s;
      AddAbs(X, A, B);
      X.s := s;
    }
  }

  /** d[off..] += b * s[..n]: multiply-accumulate per limb, then run the carry out. */
  method MulHlp(n: nat, s: Mpi, d: Mpi, off: nat, b: nat)
    requires s != d && s.Valid() && d.Valid() && b < Base()
    requires n <= |s.p| && off + n < |d.p|
    requires d.Abs() + (Val(s.p[..n]) * b) * Weight(off) < Weight(|d.p|)
    modifies d
    ensures d.Valid() && d.s == old(d.s) && |d.p| == |old(d.p)|
    ensures d.Abs() == old(d.Abs()) + (Val(s.p[..n]) * b) * Weight(off)
    ensures d.p[..off] == old(d.p)[..off]
  {
    hide Base, Weight, Val;
    ghost var d0 := d.p;
    var i, c: nat := 0, 0;
    MulStart(s.p, b, off);
    while i < n
      invariant 0 <= i <= n && |d.p| == |d0| && d.s == old(d.s)
      invariant IsLimbs(d.p) && c < Base()
      invariant d.p[..off] == d0[..off]
      invariant Val(d.p) + c * Weight(off + i) == Val(d0) + (Val(s.p[..i]) * b) * Weight(off)
    {
      var t := s.p[i] * b + d.p[off + i] + c;
      MulAddBounds(s.p[i], b, d.p[off + i], c);
      var e := t % Base();
      MulStep(d.p, s.p, i, off, e, c, t / Base(), b, Val(d0));
      d.p := d.p[off + i := e];
      c := t / Base();
      i := i + 1;
    }
    ghost var total := Val(d0) + (Val(s.p[..n]) * b) * Weight(off);
    var more := true;
    while more
      invariant n <= i && off + i <= |d.p| == |d0| && d.s == old(d.s)
      invariant more ==> off + i < |d.p|
      invariant !more ==> c == 0
      invariant IsLimbs(d.p) && c < Base()
      invariant d.p[..off] == d0[..off]
      invariant Val(d.p) + c * Weight(off + i) == total < Weight(|d0|)
      decreases more, |d.p| - i
    {
      var e := (d.p[off + i] + c) % Base();
      WrapAdd(d.p[off + i], c);
      var c1 := if e < c then 1 else 0;
      CarryStep(d.p, off + i, e, c, c1);
      d.p := d.p[off + i := e];
      c := c1;
      i := i + 1;
      more := c != 0;
    }
  }

  lemma {:induction false} MulStart(s: seq<nat>, b: nat, off: nat)
    ensures 0 * Weight(off) == (Val(s[..0]) * b) * Weight(off)
  {
    assert s[..0] == [];
  }

  lemma MulAddBounds(s: nat, b: nat, d: nat, c: nat)
    requires s < Base() && b < Base() && d < Base() && c < Base()
    ensures 0 <= (s * b + d + c) / Base() < Base()
    ensures 0 <= (s * b + d + c) % Base() < Base()
    ensures s * b + d + c == ((s * b + d + c) / Base()) * Base() + (s * b + d + c) % Base()
  {
    var B := Base();
    MulPos(s, b);
    MulMono(s, B - 1, b);
    MulMono(b, B - 1, B - 1);
    Distrib(B - 1, B, 1);
    Distrib(B, B, 1);
    DivModIdentity(s * b + d + c, B);
    DivLess(s * b + d + c, B, B);
  }

  lemma {:induction false} MulStep(d: seq<nat>, s: seq<nat>, i: nat, off: nat, e: nat, c: nat, c2: nat, b: nat, v: nat)
    requires i < |s| && off + i < |d| && s[i] * b + d[off + i] + c == c2 * Base() + e
    requires Val(d) + c * Weight(off + i) == v + (Val(s[..i]) * b) * Weight(off)
    ensures Val(d[off + i := e]) + c2 * Weight(off + (i + 1)) == v + (Val(s[..i + 1]) * b) * Weight(off)
  {
    hide Weight, Base, Val;
    CarryStep(d, off + i, e, s[i] * b + c, c2);
    ValTake(s, i);
    WeightAdd(off, i);
    MulStepAlgebra(Val(s[..i]), s[i], b, c, Weight(off), Weight(i));
  }

  lemma MulStepAlgebra(u: int, x: int, b: int, c: int, w: int, wi: int)
    ensures (x * b + c) * (w * wi) + (u * b) * w == c * (w * wi) + ((u + x * wi) * b) * w
  {
    Distrib(w * wi, x * b, c);
    Distrib(b, u, x * wi);
    Distrib(w, u * b, (x * wi) * b);
    assert (x * b) * (w * wi) == ((x * wi) * b) * w;
  }

  /** X = A * B */
  method MulMpi(X: Mpi, A0: Mpi, B0: Mpi)
    requires X.Valid() && A0.Valid() && B0.Valid()
    modifies X
    ensures X.Valid() && X.Value() == old(A0.Value()) * old(B0.Value())
    ensures X.s == old(A0.s) * old(B0.s) && X.Abs() == old(A0.Abs()) * old(B0.Abs())
    ensures |X.p| >= |old(X.p)|
  {
    hide Base, Weight, Val;
    var A, B := A0, B0;
    if X == A0 {
      A := new Mpi();
      Copy(A, A0);
      A.s := A0.s;
    }
    if X == B0 {
      B := new Mpi();
      Copy(B, B0);
      B.s := B0.s;
    }
    MulDisjoint(X, A, B);
    SignProduct(A.s, B.s, A.Abs(), B.Abs());
  }

  method MulDisjoint(X: Mpi, A: Mpi, B: Mpi)
    requires X != A && X != B && X.Valid() && A.Valid() && B.Valid()
    modifies X
    ensures X.Valid() && |X.p| >= |old(X.p)|
    ensures X.s == A.s * B.s && X.Abs() == A.Abs() * B.Abs()
  {
    hide Base, Weight, Val;
    var i := SignificantLimbs(A);
    var j := SignificantLimbs(B);
    SignificantVal(A.p);
    SignificantVal(B.p);
    Grow(X, i + j);
    Lset(X, 0);
    MulRows(X, A, B, i, j);
    X.s := A.s * B.s;
    assert X.s == 1 || X.s == -1 by {
      if A.s == 1 {
      } else {
        assert X.s == -B.s;
      }
    }
  }

  /** The row loop: one MulHlp for each limb of B, from the top one down. */
  method MulRows(X: Mpi, A: Mpi, B: Mpi, i: nat, j0: nat)
    requires X != A && X != B && X.Valid() && A.Valid() && B.Valid() && X.Abs() == 0
    requires i <= |A.p| && j0 <= |B.p| && i + j0 <= |X.p|
    requires A.Abs() == Val(A.p[..i]) < Weight(i) && B.Abs() == Val(B.p[..j0]) < Weight(j0)
    modifies X
    ensures X.Valid() && |X.p| == |old(X.p)| && X.Abs() == A.Abs() * B.Abs()
  {
    hide Base, Weight, Val;
    ghost var a, b := A.Abs(), B.Abs();
    ProductRoom(a, b, i, j0, |X.p|);
    var j := j0;
    while j > 0
      invariant 0 <= j <= j0 && |X.p| == |old(X.p)| && X.Valid()
      invariant X.Abs() == a * (b - Val(B.p[..j]))
    {
      MulMpiStep(B.p, j, a, b, j0, |X.p|);
      MulHlp(i, A, X, j - 1, B.p[j - 1]);
      j := j - 1;
    }
    assert B.p[..0] == [];
    ValEmpty();
  }

  lemma SignProduct(s: int, t: int, a: int, b: int)
    requires (s == 1 || s == -1) && (t == 1 || t == -1)
    ensures (s * t) * (a * b) == (s * a) * (t * b)
    ensures s * t == 1 || s * t == -1
  {
  }

  lemma {:induction false} ProductRoom(a: nat, b: nat, i: nat, j: nat, m: nat)
    requires a < Weight(i) && b < Weight(j) && i + j <= m
    ensures a * b < Weight(m)
    ensures a * (b - b) == 0
  {
    hide Weight;
    WeightAdd(i, j);
    WeightMono(i + j, m);
    MulMono(a, Weight(i) - 1, b);
    MulStrict(b, Weight(j), Weight(i));
  }

  lemma {:induction false} MulMpiStep(B: seq<nat>, j: nat, a: nat, b: nat, j0: nat, m: nat)
    requires 0 < j <= j0 <= |B| && b == Val(B[..j0]) && IsLimbs(B) && a * b < Weight(m)
    ensures a * (b - Val(B[..j])) + (a * B[j - 1]) * Weight(j - 1) == a * (b - Val(B[..j - 1]))
    ensures a * (b - Val(B[..j - 1])) < Weight(m)
  {
    hide Base, Weight, Val;
    ValTake(B, j - 1);
    var x, w, u := B[j - 1], Weight(j - 1), Val(B[..j - 1]);
    Distrib(a, b - Val(B[..j]), x * w);
    Assoc(a, x, w);
    MulMono(b - u, b, a);
  }

  /** X = A * b for a single limb b. */
  method MulInt(X: Mpi, A: Mpi, b: nat)
    requires X.Valid() && A.Valid() && b < Base()
    modifies X
    ensures X.Valid() && X.Value() == old(A.Value()) * b
    ensures X.s == old(A.s) && X.Abs() == old(A.Abs()) * b
    ensures |X.p| >= |old(X.p)|
  {
    hide Weight, Val;
    var B := new Mpi();
    Lset(B, b);
    MulMpi(X, A, B);
  }
}
