/**
 Multi-precision integers: storage, bit positions, shifts and comparison.
 An Mpi is a sign and a growable limb buffer. The buffer is a sequence that the methods
 reassign limb by limb; an unallocated buffer (a null pointer in the C structure) is [].
 Shifts and masks of limbs are written as multiplication, division and remainder by
 powers of two, and an OR of disjoint bits as a sum.
 */
module MpiCore {
  import opened Arithmetic
  import opened Limbs

  class Mpi {
    var s: int
    var p: seq<nat>

    ghost predicate Valid()
      reads this
    {
      (s == 1 || s == -1) && IsLimbs(p)
    }

    ghost function Abs(): nat
      reads this
    {
      Val(p)
    }

    ghost function Value(): int
      reads this
    {
      s * Val(p)
    }

    constructor ()
      ensures Valid() && s == 1 && p == [] && Value() == 0
    {
      s, p := 1, [];
    }
  }

  /** Number of limbs up to the highest nonzero one. */
  ghost function Significant(p: seq<nat>): (n: nat)
    ensures n <= |p|
    ensures n > 0 ==> p[n - 1] != 0
    ensures forall i :: n <= i < |p| ==> p[i] == 0
  {
    if p == [] || p[|p| - 1] != 0 then |p| else Significant(p[..|p| - 1])
  }

  ghost function Max(a: nat, b: nat): nat { if a < b then b else a }

  lemma {:induction false} SignificantUnique(p: seq<nat>, n: nat)
    requires n <= |p| && (n > 0 ==> p[n - 1] != 0) && forall i :: n <= i < |p| ==> p[i] == 0
    ensures n == Significant(p)
  {
    var m := Significant(p);
    assert forall i :: 0 <= i < |p| && p[i] != 0 ==> i < n && i < m;
  }

  lemma {:induction false} SignificantVal(p: seq<nat>)
    requires IsLimbs(p)
    ensures Val(p) == Val(p[..Significant(p)])
    ensures Val(p) < Weight(Significant(p))
    ensures Significant(p) > 0 ==> Weight(Significant(p) - 1) <= Val(p)
    ensures Val(p) == 0 <==> Significant(p) == 0
  {
    var n := Significant(p);
    ValTrim(p, n);
    ValBound(p[..n]);
    if n > 0 {
      ValTake(p, n - 1);
      MulMono(1, p[n - 1], Weight(n - 1));
    }
  }

  /** The loop every routine uses to find the highest nonzero limb. */
  method SignificantLimbs(X: Mpi) returns (i: nat)
    requires X.Valid()
    ensures i == Significant(X.p)
  {
    i := |X.p|;
    while i > 0 && X.p[i - 1] == 0
      invariant i <= |X.p|
      invariant forall j :: i <= j < |X.p| ==> X.p[j] == 0
    {
      i := i - 1;
    }
    SignificantUnique(X.p, i);
  }

  function Zeros(n: nat): (z: seq<nat>)
    ensures |z| == n && forall i :: 0 <= i < n ==> z[i] == 0
  {
    seq(n, _ => 0)
  }

  method Grow(X: Mpi, nblimbs: nat)
    requires X.Valid()
    modifies X
    ensures X.Valid() && X.s == old(X.s) && X.Abs() == old(X.Abs())
    ensures |X.p| == Max(|old(X.p)|, nblimbs)
    ensures X.p[..|old(X.p)|] == old(X.p)
    ensures forall i :: |old(X.p)| <= i < |X.p| ==> X.p[i] == 0
  {
    if |X.p| < nblimbs {
      ghost var p0 := X.p;
      X.p := X.p + Zeros(nblimbs - |X.p|);
      ValTrim(X.p, |p0|);
      assert X.p[..|p0|] == p0;
    }
  }

  /** The limbs of y, padded with zeros to at least n limbs. */
  ghost predicate CopyOf(x: seq<nat>, y: seq<nat>, n: nat)
  {
    && |x| == Max(n, Max(1, Significant(y)))
    && (forall i :: 0 <= i < |x| && i < |y| ==> x[i] == y[i])
    && (forall i :: |y| <= i < |x| ==> x[i] == 0)
  }

  lemma {:induction false} CopyOfVal(x: seq<nat>, y: seq<nat>, n: nat)
    requires IsLimbs(y) && CopyOf(x, y, n)
    ensures IsLimbs(x) && Val(x) == Val(y)
  {
    var k := Significant(y);
    SignificantVal(y);
    assert x[..k] == y[..k];
    ValTrim(x, k);
  }

  method Copy(X: Mpi, Y: Mpi)
    requires X.Valid() && Y.Valid()
    modifies X
    ensures X.Valid() && X.Value() == old(Y.Value()) && X.Abs() == old(Y.Abs())
    ensures old(Y.p) == [] && X != Y ==> X.p == [] && X.s == 1
    ensures old(Y.p) != [] && X != Y ==> X.s == Y.s && CopyOf(X.p, Y.p, |old(X.p)|)
    ensures X == Y ==> X.p == old(X.p) && X.s == old(X.s)
  {
    if X == Y {
      return;
    }
    if |Y.p| == 0 {
      X.s, X.p := 1, [];
      return;
    }
    var i := SignificantLimbs(Y);
    if i == 0 {
      i := 1;
    }
    X.s := Y.s;
    var n := |X.p|;
    if n < i {
      n := i;
    }
    X.p := Y.p[..i] + Zeros(n - i);
    assert CopyOf(X.p, Y.p, |old(X.p)|);
    CopyOfVal(X.p, Y.p, |old(X.p)|);
  }

  /** Set from a machine integer; z fits in a limb with its sign. */
  method Lset(X: Mpi, z: int)
    requires X.Valid() && -(Base() as int) < z < Base()
    modifies X
    ensures X.Valid() && X.Value() == z && X.s == (if z < 0 then -1 else 1)
    ensures |X.p| == Max(|old(X.p)|, 1)
  {
    var n := if |X.p| < 1 then 1 else |X.p|;
    var a := if z < 0 then -z else z;
    X.p := [a] + Zeros(n - 1);
    X.s := if z < 0 then -1 else 1;
    ValCons(X.p);
    ValZeros(X.p[1..]);
  }

  // ---- bit positions ----

  /** Leading zero bits of a limb, found by walking a mask down from the top bit. */
  method Clz(x: nat) returns (j: nat)
    requires x < Base()
    ensures j <= biL
    ensures x == 0 ==> j == biL
    ensures x > 0 ==> j < biL && Pow(2, biL - 1 - j) <= x
    ensures x < Pow(2, biL - j)
  {
    j := 0;
    var mask := Pow(2, biL - 1);
    while j < biL && (x / mask) % 2 == 0
      invariant j <= biL
      invariant j < biL ==> mask == Pow(2, biL - 1 - j)
      invariant x < Pow(2, biL - j)
    {
      PowSucc(2, biL - 1 - j);
      TopBitClear(x, mask);
      if j + 1 < biL {
        PowSucc(2, biL - 2 - j);
      }
      mask := mask / 2;
      j := j + 1;
    }
    if j < biL {
      assert x >= mask by {
        if x < mask { ModSmall(x, mask); }
      }
    }
  }

  lemma TopBitClear(x: nat, mask: nat)
    requires 0 < mask && x < 2 * mask && (x / mask) % 2 == 0
    ensures x < mask
  {
    if x >= mask { DivModUnique(x, mask, 1, x - mask); }
  }

  /** b is the bit length of v: 0 for zero, otherwise 2^(b-1) <= v < 2^b. */
  ghost predicate IsBitLength(b: nat, v: nat)
  {
    v < Pow(2, b) && (b > 0 ==> Pow(2, b - 1) <= v)
  }

  ghost function BitLength(v: nat): (b: nat)
    ensures IsBitLength(b, v)
  {
    if v == 0 then 0 else
    var b := BitLength(v / 2) + 1;
    PowSucc(2, b - 1);
    if b > 1 then PowSucc(2, b - 2); b else b
  }

  /** BITS_TO_LIMBS */
  function LimbsFor(bits: nat): nat
  {
    bits / biL + (if bits % biL != 0 then 1 else 0)
  }

  lemma {:induction false} LimbsForRoom(bits: nat)
    ensures bits <= biL * LimbsFor(bits)
    ensures bits > 0 ==> biL * (LimbsFor(bits) - 1) < bits
  {
    DivModIdentity(bits, biL);
    Distrib(biL, bits / biL, 1);
  }

  method Bitlen(X: Mpi) returns (b: nat)
    requires X.Valid()
    ensures b == BitLength(X.Abs())
  {
    if |X.p| == 0 {
      BitLengthUnique(0, X.Abs());
      return 0;
    }
    var i := |X.p| - 1;
    while i > 0 && X.p[i] == 0
      invariant 0 <= i < |X.p|
      invariant forall j :: i < j < |X.p| ==> X.p[j] == 0
    {
      i := i - 1;
    }
    var z := Clz(X.p[i]);
    b := i * biL + (biL - z);
    BitLengthFromTop(X.p, i, biL - z);
    BitLengthUnique(b, X.Abs());
  }

  lemma {:induction false} BitLengthFromTop(p: seq<nat>, i: nat, j: nat)
    requires IsLimbs(p) && i < |p| && forall k :: i < k < |p| ==> p[k] == 0
    requires p[i] < Pow(2, j) && (p[i] > 0 ==> j > 0 && Pow(2, j - 1) <= p[i])
    requires p[i] == 0 ==> i == 0 && j == 0
    ensures IsBitLength(i * biL + j, Val(p))
  {
    hide Base, Weight, Val, Pow, IsBitLength;
    ValTrim(p, i + 1);
    ValTake(p, i);
    ValBound(p[..i]);
    WeightBits(i);
    if p[i] == 0 { ZeroIsEmpty(p, i); }
    TopBits(Val(p), Val(p[..i]), p[i], Weight(i), biL * i, j);
    assert biL * i + j == i * biL + j;
  }

  /** A number with x in front of c lower bits, where x has j bits. */
  lemma {:induction false} TopBits(v: nat, low: nat, x: nat, w: nat, c: nat, j: nat)
    requires w == Pow(2, c) && low < w && v == low + x * w
    requires x < Pow(2, j) && (x > 0 ==> j > 0 && Pow(2, j - 1) <= x)
    requires x == 0 ==> c == 0 && j == 0 && v == 0
    ensures IsBitLength(c + j, v)
  {
    hide Pow;
    PowAdd(2, c, j);
    BelowTop(low, x, w, Pow(2, j));
    if x > 0 {
      PowAdd(2, c, j - 1);
      MulMono(Pow(2, j - 1), x, w);
    }
  }

  lemma BelowTop(low: nat, x: nat, w: nat, h: nat)
    requires low < w && x < h
    ensures low + x * w < h * w && (x == 0 ==> x * w == 0)
  {
    MulMono(x + 1, h, w);
    Distrib(w, x, 1);
  }

  lemma ZeroIsEmpty(p: seq<nat>, i: nat)
    requires i == 0 && i < |p| && p[i] == 0
    ensures Val(p[..i]) == 0 && p[i] * Weight(i) == 0
  {
    assert p[..0] == [];
  }

  lemma {:induction false} BitLengthMono(b: nat, v: nat, c: nat, w: nat)
    requires IsBitLength(b, v) && IsBitLength(c, w) && v <= w
    ensures b <= c
  {
    if b > c {
      PowMono(2, c, b - 1);
    }
  }

  lemma {:induction false} BitLengthUnique(b: nat, v: nat)
    requires IsBitLength(b, v)
    ensures b == BitLength(v)
  {
    BitLengthMono(b, v, BitLength(v), v);
    BitLengthMono(BitLength(v), v, b, v);
  }

  lemma {:induction false} BitLengthShift(v: nat, k: nat)
    requires v > 0
    ensures BitLength(v * Pow(2, k)) == BitLength(v) + k
  {
    var b := BitLength(v);
    assert b > 0;
    PowAdd(2, b, k);
    PowAdd(2, b - 1, k);
    MulStrict(v, Pow(2, b), Pow(2, k));
    MulMono(Pow(2, b - 1), v, Pow(2, k));
    BitLengthUnique(b + k, v * Pow(2, k));
  }

  /** c is the number of trailing zero bits of v, and 0 when v is 0. */
  ghost predicate IsLowestBit(c: nat, v: nat)
  {
    if v == 0 then c == 0 else v % Pow(2, c) == 0 && (v / Pow(2, c)) % 2 == 1
  }

  /** Trailing zero bits, scanning limb by limb and bit by bit. */
  method Lsb(X: Mpi) returns (count: nat)
    requires X.Valid()
    ensures IsLowestBit(count, X.Abs())
  {
    count := 0;
    var i := 0;
    while i < |X.p|
      invariant i <= |X.p| && count == i * biL
      invariant forall k :: 0 <= k < i ==> X.p[k] == 0
    {
      var j := 0;
      while j < biL
        invariant j <= biL && count == i * biL + j
        invariant X.p[i] % Pow(2, j) == 0
      {
        PowSucc(2, j);
        if (X.p[i] / Pow(2, j)) % 2 != 0 {
          LowestBitInLimb(X.p, i, j);
          return;
        }
        NextBitZero(X.p[i], j);
        j := j + 1;
        count := count + 1;
      }
      ModSmall(X.p[i], Base());
      i := i + 1;
      assert count == i * biL by { Distrib(biL, i - 1, 1); }
    }
    ValZeros(X.p);
    count := 0;
  }

  lemma {:induction false} NextBitZero(x: nat, j: nat)
    requires x % Pow(2, j) == 0 && (x / Pow(2, j)) % 2 == 0
    ensures x % Pow(2, j + 1) == 0
  {
    var m := Pow(2, j);
    DivModIdentity(x, m);
    var h := x / m / 2;
    assert x / m == h * 2;
    Assoc(h, 2, m);
    PowSucc(2, j);
    DivModUnique(x, Pow(2, j + 1), h, 0);
  }

  lemma {:induction false} LowestBitInLimb(p: seq<nat>, i: nat, j: nat)
    requires IsLimbs(p) && i < |p| && forall k :: 0 <= k < i ==> p[k] == 0
    requires j < biL && p[i] % Pow(2, j) == 0 && (p[i] / Pow(2, j)) % 2 != 0
    ensures IsLowestBit(i * biL + j, Val(p))
  {
    var m, w := Pow(2, j), Weight(i);
    var high := Val(p[i + 1..]);
    var g := Pow(2, biL - j - 1);
    LimbAndAbove(p, i);
    assert Base() == (2 * g) * m by { PowAdd(2, biL - j, j); PowSucc(2, biL - j - 1); }
    WeightBits(i);
    PowAdd(2, biL * i, j);
    hide Base, Weight, Val, Pow;
    MulPos(w, m);
    var x := p[i] / m;
    DivModIdentity(p[i], m);
    LowestBitRearrange(w, x, m, g, high);
    MulPos(g, high);
    assert x * m == m * x;
    OddAbove(Val(p), w * m, x, g * high);
  }

  /** The lowest nonzero limb and what stands above it. */
  lemma {:induction false} LimbAndAbove(p: seq<nat>, i: nat)
    requires i < |p| && forall k :: 0 <= k < i ==> p[k] == 0
    ensures Val(p) == Weight(i) * (p[i] + Base() * Val(p[i + 1..]))
  {
    hide Base, Weight, Val;
    ValShift(p[i..], p, i);
    ValCons(p[i..]);
    assert p[i..][1..] == p[i + 1..];
  }

  /** An odd multiple of u, with even multiples above. */
  lemma OddAbove(v: nat, u: nat, x: nat, k: nat)
    requires u > 0 && x % 2 != 0 && v == (x + 2 * k) * u
    ensures v > 0 && v % u == 0 && (v / u) % 2 == 1
  {
    DivModUnique(v, u, x + 2 * k, 0);
    MulPos(x + 2 * k, u);
  }

  lemma LowestBitRearrange(w: int, x: int, m: int, g: int, high: int)
    ensures w * (x * m + ((2 * g) * m) * high) == (x + 2 * (g * high)) * (w * m)
  {
    assert ((2 * g) * m) * high == (2 * (g * high)) * m by {
      Assoc(2, g, m);
      Assoc(2, g * m, high);
      Assoc(2, g * high, m);
      MulRotate(g, m, high);
    }
    Distrib(m, x, 2 * (g * high));
    MulSwap(w, x + 2 * (g * high), m);
  }

  // ---- shifts ----

  /** One limb update with a carry (or, with negative carry, a borrow) into the next limb. */
  lemma {:induction false} CarryStep(s: seq<nat>, i: nat, x: nat, delta: int, carry: int)
    requires i < |s| && x + carry * Base() == s[i] + delta
    ensures Val(s[i := x]) + carry * Weight(i + 1) == Val(s) + delta * Weight(i)
  {
    ValUpdate(s, i, x);
    WeightSucc(i);
    var w, b := Weight(i), Base();
    calc {
      (x - s[i]) * w;
      (delta - carry * b) * w;
      { Distrib(w, delta, carry * b); Assoc(carry, b, w); }
      delta * w - carry * (b * w);
    }
  }

  lemma LimbSplit(x: nat, t: nat)
    requires t <= biL
    ensures Base() == Pow(2, biL - t) * Pow(2, t)
    ensures x * Pow(2, t) == (x / Pow(2, biL - t)) * Base() + (x * Pow(2, t)) % Base()
    ensures (x * Pow(2, t)) % Base() == (x % Pow(2, biL - t)) * Pow(2, t)
    ensures (x * Pow(2, t)) % Base() + Pow(2, t) <= Base()
    ensures x < Base() ==> 0 <= x / Pow(2, biL - t) < Pow(2, t)
  {
    var g, h := Pow(2, biL - t), Pow(2, t);
    PowAdd(2, biL - t, t);
    DivModIdentity(x, g);
    var q, r := x / g, x % g;
    Distrib(h, q * g, r);
    Assoc(q, g, h);
    MulMono(r, g - 1, h);
    Distrib(h, g, 1);
    MulPos(r, h);
    DivLess(x, g, h);
    DivModUnique(x * h, Base(), q, r * h);
  }

  method ShiftL(X: Mpi, count: nat)
    requires X.Valid()
    modifies X
    ensures X.Valid() && X.s == old(X.s) && X.Abs() == old(X.Abs()) * Pow(2, count)
    ensures |X.p| == RoomFor(|old(X.p)|, BitLength(old(X.Abs())) + count)
  {
    hide Base, Weight, Pow, Val;
    var v0, t1 := count / biL, count % biL;
    SplitCount(count);
    GrowForBits(X, count);
    ShiftGrown(X, v0, t1);
  }

  lemma SplitCount(count: nat)
    ensures biL * (count / biL) + count % biL == count && 0 <= count % biL < biL && 0 <= count / biL
  {
    DivModIdentity(count, biL);
  }

  /** The shift proper, once there is room for the result. */
  method ShiftGrown(X: Mpi, v0: nat, t1: nat)
    requires X.Valid() && t1 < biL && BitLength(X.Abs()) + (biL * v0 + t1) <= biL * |X.p|
    modifies X
    ensures X.Valid() && X.s == old(X.s) && |X.p| == |old(X.p)|
    ensures X.Abs() == old(X.Abs()) * Pow(2, biL * v0 + t1)
  {
    hide Base, Weight, Pow, Val, BitLength;
    ghost var v := X.Abs();
    FitsAfterShift(v, v0, t1, |X.p|);
    ShiftLimbsUp(X, v0);
    ShiftParts(v, v0, t1);
    if t1 > 0 {
      ShiftBitsUp(X, v0, t1);
    }
  }

  lemma {:induction false} ShiftParts(v: nat, v0: nat, t1: nat)
    ensures v * Pow(2, biL * v0 + t1) == (v * Weight(v0)) * Pow(2, t1)
    ensures t1 == 0 ==> Pow(2, t1) == 1
  {
    PowAdd(2, biL * v0, t1);
    WeightBits(v0);
    Assoc(v, Weight(v0), Pow(2, t1));
  }

  /** Limb count after making room for the given number of bits. */
  ghost function RoomFor(n: nat, bits: nat): nat
  {
    if n * biL < bits then LimbsFor(bits) else n
  }

  method GrowForBits(X: Mpi, count: nat)
    requires X.Valid()
    modifies X
    ensures X.Valid() && X.s == old(X.s) && X.Abs() == old(X.Abs())
    ensures |X.p| == RoomFor(|old(X.p)|, BitLength(X.Abs()) + count)
    ensures BitLength(X.Abs()) + count <= biL * |X.p|
  {
    hide Base, Weight, Val, BitLength, LimbsFor;
    var i := Bitlen(X);
    i := i + count;
    if |X.p| * biL < i {
      MoreLimbs(|X.p|, i);
      Grow(X, LimbsFor(i));
    }
  }

  lemma MoreLimbs(n: nat, bits: nat)
    requires n * biL < bits
    ensures n <= LimbsFor(bits) && bits <= biL * LimbsFor(bits)
  {
    hide LimbsFor;
    LimbsForRoom(bits);
    if LimbsFor(bits) < n {
      MulMono(LimbsFor(bits), n, biL);
    }
  }

  lemma {:induction false} FitsAfterShift(v: nat, v0: nat, t1: nat, m: nat)
    requires BitLength(v) + (biL * v0 + t1) <= biL * m
    ensures v * Pow(2, biL * v0 + t1) < Weight(m)
    ensures v * Weight(v0) < Weight(m)
    ensures v > 0 ==> v0 < m
  {
    hide Base, Weight;
    var bits, count := BitLength(v), biL * v0 + t1;
    PowAdd(2, bits, count);
    MulStrict(v, Pow(2, bits), Pow(2, count));
    PowMono(2, bits + count, biL * m);
    WeightBits(m);
    WeightBits(v0);
    PowMono(2, biL * v0, count);
    MulMono(Weight(v0), Pow(2, count), v);
    if v > 0 && v0 >= m {
      WeightMono(m, v0);
      MulMono(1, v, Weight(v0));
    }
  }

  /** Whole-limb part of the left shift: two downward copy loops. */
  method ShiftLimbsUp(X: Mpi, v0: nat)
    requires X.Valid() && X.Abs() * Weight(v0) < Weight(|X.p|)
    requires X.Abs() > 0 ==> v0 < |X.p|
    modifies X
    ensures X.Valid() && X.s == old(X.s) && |X.p| == |old(X.p)|
    ensures X.Abs() == old(X.Abs()) * Weight(v0)
    ensures forall i :: 0 <= i < v0 && i < |X.p| ==> X.p[i] == 0
  {
    if v0 > 0 {
      ghost var p0 := X.p;
      var i := |X.p|;
      while i > v0
        invariant i <= |X.p| == |p0| && X.s == old(X.s)
        invariant i >= v0 || i == |p0|
        invariant X.p[..i] == p0[..i]
        invariant forall k :: i <= k < |p0| && v0 <= k ==> X.p[k] == p0[k - v0]
      {
        X.p := X.p[i - 1 := X.p[i - v0 - 1]];
        i := i - 1;
      }
      ghost var top := i;
      while i > 0
        invariant 0 <= i <= top && |X.p| == |p0| && X.s == old(X.s)
        invariant forall k :: i <= k < top ==> X.p[k] == 0
        invariant forall k :: top <= k < |p0| ==> X.p[k] == p0[k - v0]
      {
        X.p := X.p[i - 1 := 0];
        i := i - 1;
      }
      ShiftedLimbs(p0, X.p, v0);
    } else {
      assert Weight(0) == 1;
    }
  }

  lemma {:induction false} ShiftedLimbs(p: seq<nat>, t: seq<nat>, v0: nat)
    requires IsLimbs(p) && |t| == |p| && Val(p) * Weight(v0) < Weight(|p|)
    requires Val(p) > 0 ==> v0 < |p|
    requires forall k :: 0 <= k < |p| ==> t[k] == if k < v0 then 0 else p[k - v0]
    ensures IsLimbs(t) && Val(t) == Val(p) * Weight(v0)
  {
    hide Val, Weight, Base;
    if v0 >= |p| {
      ValZeros(t);
    } else {
      var m := |p| - v0;
      WeightAdd(m, v0);
      MulCancelLess(Val(p), Weight(m), Weight(v0));
      ValHighZero(p, m);
      assert t[v0..] == p[..m];
      ValShift(p[..m], t, v0);
    }
  }

  /** Sub-limb part of the left shift: the carry r0 moves between neighbours. */
  method ShiftBitsUp(X: Mpi, v0: nat, t1: nat)
    requires X.Valid() && 0 < t1 < biL && X.Abs() * Pow(2, t1) < Weight(|X.p|)
    requires forall i :: 0 <= i < v0 && i < |X.p| ==> X.p[i] == 0
    modifies X
    ensures X.Valid() && X.s == old(X.s) && |X.p| == |old(X.p)|
    ensures X.Abs() == old(X.Abs()) * Pow(2, t1)
  {
    hide Base, Weight, Pow;
    ghost var p0, h := X.p, Pow(2, t1);
    if v0 >= |X.p| {
      ValZeros(p0);
      return;
    }
    ValZeros(p0[..v0]);
    var r0: nat := 0;
    var i := v0;
    while i < |X.p|
      invariant v0 <= i <= |p0| == |X.p| && X.s == old(X.s)
      invariant IsLimbs(X.p) && r0 < h
      invariant X.p[i..] == p0[i..]
      invariant Val(X.p) + r0 * Weight(i) == Val(p0) + (h - 1) * Val(p0[..i])
    {
      assert X.p[i] == X.p[i..][0] == p0[i];
      LimbSplit(X.p[i], t1);
      var r1 := X.p[i] / Pow(2, biL - t1);
      var x := (X.p[i] * Pow(2, t1)) % Base() + r0;
      ShiftBitStep(X.p, p0, i, x, r0, r1, h);
      X.p := X.p[i := x];
      assert X.p[i + 1..] == p0[i..][1..];
      r0 := r1;
      i := i + 1;
    }
    ShiftBitsEnd(X.p, p0, r0, h);
  }

  lemma {:induction false} ShiftBitsEnd(s: seq<nat>, p0: seq<nat>, r0: nat, h: nat)
    requires Val(s) + r0 * Weight(|p0|) == Val(p0) + (h - 1) * Val(p0[..|p0|])
    requires Val(p0) * h < Weight(|p0|)
    ensures Val(s) == Val(p0) * h
  {
    ValFull(p0);
    Distrib(Val(p0), h, 1);
    if r0 > 0 {
      MulMono(1, r0, Weight(|p0|));
    }
  }

  lemma {:induction false} ShiftBitStep(s: seq<nat>, p0: seq<nat>, i: nat, x: nat, r0: nat, r1: nat, h: nat)
    requires i < |s| == |p0| && s[i] == p0[i] && x + r1 * Base() == s[i] * h + r0
    requires Val(s) + r0 * Weight(i) == Val(p0) + (h - 1) * Val(p0[..i])
    ensures Val(s[i := x]) + r1 * Weight(i + 1) == Val(p0) + (h - 1) * Val(p0[..i + 1])
  {
    var w, d := Weight(i), p0[i];
    Distrib(d, h, 1);
    CarryStep(s, i, x, d * (h - 1) + r0, r1);
    ValTake(p0, i);
    Distrib(w, d * (h - 1), r0);
    Distrib(h - 1, Val(p0[..i]), d * w);
    assert (d * (h - 1)) * w == (h - 1) * (d * w) by { Assoc(h - 1, d, w); }
  }

  method ShiftR(X: Mpi, count: nat)
    requires X.Valid()
    modifies X
    ensures X.Valid() && X.Abs() == old(X.Abs()) / Pow(2, count)
    ensures X.Abs() > 0 ==> X.s == old(X.s)
    ensures |X.p| == |old(X.p)| || (X.p == [0] && old(X.p) == [])
  {
    hide Base, Weight, Pow, Val;
    var v0, v1 := count / biL, count % biL;
    DivModIdentity(count, biL);
    ghost var v := X.Abs();
    ShiftDownParts(X.p, v0, v1);
    if v0 > |X.p| || (v0 == |X.p| && v1 > 0) {
      Lset(X, 0);
      ValZeroInv(X.p);
      return;
    }
    ShiftLimbsDown(X, v0);
    if v1 > 0 {
      ShiftBitsDown(X, v1);
    }
  }

  lemma {:induction false} ShiftDownParts(p: seq<nat>, v0: nat, v1: nat)
    requires IsLimbs(p)
    ensures Val(p) / Pow(2, biL * v0 + v1) == Val(p) / Weight(v0) / Pow(2, v1)
    ensures v0 >= |p| ==> Val(p) / Pow(2, biL * v0 + v1) == 0
    ensures v1 == 0 ==> Pow(2, v1) == 1
  {
    WeightBits(v0);
    PowAdd(2, biL * v0, v1);
    DivDiv(Val(p), Weight(v0), Pow(2, v1));
    if v0 >= |p| {
      ValBound(p);
      WeightMono(|p|, v0);
      ModSmall(Val(p), Weight(v0));
      ModSmall(0, Pow(2, v1));
    }
  }

  /** Whole-limb part of the right shift: two upward copy loops. */
  method ShiftLimbsDown(X: Mpi, v0: nat)
    requires X.Valid() && v0 <= |X.p|
    modifies X
    ensures X.Valid() && X.s == old(X.s) && |X.p| == |old(X.p)|
    ensures X.Abs() == old(X.Abs()) / Weight(v0)
  {
    ghost var p0 := X.p;
    ValDrop(p0, v0);
    if v0 > 0 {
      var i := 0;
      while i < |X.p| - v0
        invariant 0 <= i <= |p0| - v0 && |X.p| == |p0| && X.s == old(X.s)
        invariant forall k :: 0 <= k < i ==> X.p[k] == p0[k + v0]
        invariant forall k :: i <= k < |p0| ==> X.p[k] == p0[k]
      {
        X.p := X.p[i := X.p[i + v0]];
        i := i + 1;
      }
      while i < |X.p|
        invariant |p0| - v0 <= i <= |p0| == |X.p| && X.s == old(X.s)
        invariant forall k :: 0 <= k < |p0| - v0 ==> X.p[k] == p0[k + v0]
        invariant forall k :: |p0| - v0 <= k < i ==> X.p[k] == 0
      {
        X.p := X.p[i := 0];
        i := i + 1;
      }
      assert X.p[..|p0| - v0] == p0[v0..];
      ValTrim(X.p, |p0| - v0);
    } else {
      assert p0[0..] == p0;
    }
  }

  /** Sub-limb part of the right shift, from the top limb down. */
  method ShiftBitsDown(X: Mpi, v1: nat)
    requires X.Valid() && 0 < v1 < biL
    modifies X
    ensures X.Valid() && X.s == old(X.s) && |X.p| == |old(X.p)|
    ensures X.Abs() == old(X.Abs()) / Pow(2, v1)
  {
    hide Base, Weight, Pow;
    ghost var p0 := X.p;
    var r0 := 0;
    var i := |X.p|;
    assert X.p[i..] == [];
    ModSmall(0, Pow(2, v1));
    while i > 0
      invariant i <= |p0| == |X.p| && X.s == old(X.s)
      invariant X.p[..i] == p0[..i]
      invariant IsLimbs(X.p)
      invariant Val(X.p[i..]) == Val(p0[i..]) / Pow(2, v1)
      invariant r0 == (Val(p0[i..]) % Pow(2, v1)) * Pow(2, biL - v1)
    {
      assert X.p[i - 1] == p0[..i][i - 1];
      var y := X.p[i - 1];
      LimbSplit(y, biL - v1);
      ShiftDownStep(p0, i, y, r0, v1, Val(X.p[i..]));
      var r1 := (y * Pow(2, biL - v1)) % Base();
      ghost var q := X.p;
      X.p := X.p[i - 1 := y / Pow(2, v1) + r0];
      i := i - 1;
      ValCons(X.p[i..]);
      assert X.p[i..][1..] == q[i + 1..];
      assert X.p[..i] == q[..i + 1][..i];
      r0 := r1;
    }
    assert X.p[0..] == X.p && p0[0..] == p0;
  }

  lemma {:induction false} ShiftDownStep(p: seq<nat>, i: nat, y: nat, r0: nat, v1: nat, u: nat)
    requires 0 < i <= |p| && IsLimbs(p) && y == p[i - 1] && 0 < v1 < biL
    requires u == Val(p[i..]) / Pow(2, v1)
    requires r0 == (Val(p[i..]) % Pow(2, v1)) * Pow(2, biL - v1)
    ensures y / Pow(2, v1) + r0 < Base()
    ensures Val(p[i - 1..]) / Pow(2, v1) == y / Pow(2, v1) + r0 + Base() * u
    ensures Val(p[i - 1..]) % Pow(2, v1) == y % Pow(2, v1)
  {
    var h, g := Pow(2, v1), Pow(2, biL - v1);
    PowAdd(2, biL - v1, v1);
    var big := Val(p[i..]);
    ValCons(p[i - 1..]);
    assert p[i - 1..][1..] == p[i..];
    DivModIdentity(big, h);
    DivModIdentity(y, h);
    var r := big % h;
    assert Val(p[i - 1..]) == (y / h + r * g + Base() * u) * h + y % h by {
      ShiftDownAlgebra(y / h, y % h, u, r, g, h);
    }
    DivModUnique(Val(p[i - 1..]), h, y / h + r * g + Base() * u, y % h);
    DivLess(y, h, g);
    MulMono(r, h - 1, g);
    Distrib(g, h, 1);
  }

  lemma ShiftDownAlgebra(yq: int, yr: int, u: int, r: int, g: int, h: int)
    ensures (yq * h + yr) + (g * h) * (u * h + r) == (yq + r * g + (g * h) * u) * h + yr
  {
    var b := g * h;
    assert b * (u * h + r) == b * (u * h) + b * r;
    assert b * (u * h) == (b * u) * h;
    assert b * r == (r * g) * h;
    assert (yq + r * g + b * u) * h == yq * h + (r * g) * h + (b * u) * h;
  }

  // ---- comparison ----

  function Sign(x: int): int { if x > 0 then 1 else if x < 0 then -1 else 0 }

  method CmpAbs(X: Mpi, Y: Mpi) returns (r: int)
    requires X.Valid() && Y.Valid()
    ensures r == Sign(X.Abs() - Y.Abs())
  {
    hide Base, Weight;
    var i := SignificantLimbs(X);
    var j := SignificantLimbs(Y);
    SignificantVal(X.p);
    SignificantVal(Y.p);
    if i > j {
      WeightMono(j, i - 1);
      return 1;
    }
    if j > i {
      WeightMono(i, j - 1);
      return -1;
    }
    ghost var n := i;
    ghost var x, y := X.p[..n], Y.p[..n];
    while i > 0
      invariant 0 <= i <= n && x[i..] == y[i..]
    {
      assert X.p[i - 1] == x[i - 1] && Y.p[i - 1] == y[i - 1];
      if X.p[i - 1] > Y.p[i - 1] {
        ValLess(y, x, i - 1);
        return 1;
      }
      if X.p[i - 1] < Y.p[i - 1] {
        ValLess(x, y, i - 1);
        return -1;
      }
      i := i - 1;
      assert x[i..] == [x[i]] + x[i + 1..];
      assert y[i..] == [y[i]] + y[i + 1..];
    }
    assert x[0..] == x && y[0..] == y;
    return 0;
  }

  method CmpMpi(X: Mpi, Y: Mpi) returns (r: int)
    requires X.Valid() && Y.Valid()
    ensures r == Sign(X.Value() - Y.Value())
  {
    hide Base, Weight;
    var i := SignificantLimbs(X);
    var j := SignificantLimbs(Y);
    SignificantVal(X.p);
    SignificantVal(Y.p);
    if i == 0 && j == 0 {
      return 0;
    }
    if i > j {
      WeightMono(j, i - 1);
      return X.s;
    }
    if j > i {
      WeightMono(i, j - 1);
      return -Y.s;
    }
    if X.s > 0 && Y.s < 0 {
      return 1;
    }
    if Y.s > 0 && X.s < 0 {
      return -1;
    }
    var c := CmpAbs(X, Y);
    return if c > 0 then X.s else if c < 0 then -X.s else 0;
  }

  /** Comparison with a machine integer through a one-limb temporary. */
  method CmpInt(X: Mpi, z: int) returns (r: int)
    requires X.Valid() && -(Base() as int) < z < Base()
    ensures r == Sign(X.Value() - z)
  {
    var Y := new Mpi();
    Lset(Y, z);
    r := CmpMpi(X, Y);
  }
}
