/**
 Sliding-window modular exponentiation in Montgomery form.
 */
module ExpMod {
  import opened Arithmetic
  import opened Limbs
  import opened MpiCore
  import opened MpiArith
  import opened MpiDiv
  import opened Montgomery

  const WINDOW_SIZE: nat := 6

  function PowInt(b: int, e: nat): int
  {
    if e == 0 then 1 else b * PowInt(b, e - 1)
  }

  lemma {:induction false} PowIntNat(b: nat, e: nat)
    ensures PowInt(b, e) == Pow(b, e)
  {
    if e > 0 { PowIntNat(b, e - 1); }
  }

  lemma {:induction false} PowIntNeg(b: nat, e: nat)
    ensures PowInt(-(b as int), e) == if e % 2 == 0 then Pow(b, e) else -(Pow(b, e) as int)
  {
    if e > 0 {
      PowIntNeg(b, e - 1);
      assert (-(b as int)) * (-(Pow(b, e - 1) as int)) == b * Pow(b, e - 1);
      assert (-(b as int)) * Pow(b, e - 1) == -((b * Pow(b, e - 1)) as int);
    }
  }

  // ---- Montgomery form ----

  /** x is the Montgomery form of v: the residue of v * R. */
  ghost predicate MontForm(x: nat, v: int, r: nat, n: nat)
    requires 0 < n
  {
    x < n && Cong(x, v * r, n)
  }

  lemma {:induction false} PowOne(e: nat)
    ensures Pow(1, e) == 1
  {
    if e > 0 { PowOne(e - 1); }
  }

  lemma {:induction false} PowProduct(a: nat, b: nat, e: nat)
    ensures Pow(a * b, e) == Pow(a, e) * Pow(b, e)
  {
    if e > 0 {
      PowProduct(a, b, e - 1);
      var x, y := Pow(a, e - 1), Pow(b, e - 1);
      assert (a * b) * (x * y) == (a * x) * (b * y) by {
        Assoc(a, b, x * y);
        MulSwap(b, x, y);
        Assoc(a, x, b * y);
      }
    }
  }

  /** R has an inverse modulo an odd number, so it cancels. */
  lemma {:induction false} RCancels(x: int, y: int, i: nat, n: nat)
    requires n % 2 == 1 && Cong(x * Weight(i), y * Weight(i), n)
    ensures Cong(x, y, n)
  {
    hide Base;
    var e, h := biL * i, (n + 1) / 2;
    WeightBits(i);
    PowProduct(2, h, e);
    assert 2 * h == n + 1;
    CongIntro(2 * h, 1, n, 1);
    CongPow(2 * h, 1, e, n);
    PowOne(e);
    CongCancel(x, y, Weight(i), Pow(h, e), n);
  }

  /** A Montgomery product multiplies the represented values. */
  lemma {:induction false} MontProduct(z: nat, x: nat, y: nat, u: int, v: int, i: nat, n: nat)
    requires n % 2 == 1 && z < n && Cong(z * Weight(i), x * y, n)
    requires MontForm(x, u, Weight(i), n) && MontForm(y, v, Weight(i), n)
    ensures MontForm(z, u * v, Weight(i), n)
  {
    hide Weight, Base, Pow;
    var r := Weight(i);
    CongMul(x, u * r, y, v * r, n);
    CongTrans(z * r, x * y, (u * r) * (v * r), n);
    assert (u * r) * (v * r) == ((u * v) * r) * r by {
      Assoc(u * r, v, r);
      MulRotate(u, r, v);
    }
    RCancels(z, (u * v) * r, i, n);
  }

  /** Dividing R^2 out: a product with R^2 mod N brings a residue into Montgomery form. */
  lemma {:induction false} EnterForm(z: nat, x: nat, rr: nat, v: int, i: nat, n: nat)
    requires n % 2 == 1 && z < n && Cong(z * Weight(i), x * rr, n)
    requires Cong(x, v, n) && Cong(rr, Weight(i) * Weight(i), n)
    ensures MontForm(z, v, Weight(i), n)
  {
    hide Weight, Base, Pow;
    var r := Weight(i);
    CongMul(x, v, rr, r * r, n);
    CongTrans(z * r, x * rr, v * (r * r), n);
    Assoc(v, r, r);
    RCancels(z, v * r, i, n);
  }

  /** A Montgomery reduction leaves the represented value itself. */
  lemma {:induction false} LeaveForm(z: nat, x: nat, v: int, i: nat, n: nat)
    requires n % 2 == 1 && z < n && Cong(z * Weight(i), x, n) && MontForm(x, v, Weight(i), n)
    ensures z == v % n
  {
    hide Weight, Base, Pow;
    CongTrans(z * Weight(i), x, v * Weight(i), n);
    RCancels(z, v, i, n);
    CongResidue(z, v, n);
  }

  // ---- fixed data of one exponentiation ----

  /** What the modulus, its constant and the scratch buffer satisfy throughout. */
  ghost predicate Ready(N: Mpi, mm: nat, T: Mpi)
    reads N, T
  {
    && N != T && N.Valid() && T.Valid() && N.p != [] && |T.p| == 2 * (|N.p| + 1)
    && N.Value() > 0 && N.Abs() % 2 == 1 && IsMontConstant(mm, N.p[0])
  }

  lemma ReadyPositive(N: Mpi, mm: nat, T: Mpi)
    requires Ready(N, mm, T)
    ensures N.Value() > 0 && N != T && N.Valid()
  {
  }

  /** X holds the Montgomery form of v in a buffer one limb longer than N's. */
  ghost predicate Holds(X: Mpi, v: int, N: Mpi)
    requires N.Value() > 0
    reads X, N
  {
    && X.Valid() && |X.p| >= |N.p| + 1 && X.s == 1
    && MontForm(X.Abs(), v, Weight(|N.p|), N.Abs())
  }

  /** X = X * Y in Montgomery form; Y may be X. */
  method MontStep(X: Mpi, Y: Mpi, N: Mpi, mm: nat, T: Mpi, ghost u: int, ghost v: int)
    requires Ready(N, mm, T) && X != N && X != T && Y != T
    requires Holds(X, u, N) && Holds(Y, v, N)
    modifies X, T
    ensures Ready(N, mm, T) && Holds(X, u * v, N)
  {
    hide Base, Weight, Val, Pow;
    ghost var x, y := X.Abs(), Y.Abs();
    ValBound(N.p);
    var ret := MontMul(X, Y, N, mm, T);
    MontProduct(X.Abs(), x, y, u, v, |N.p|, N.Abs());
  }

  /** Entry k of the table is the Montgomery form of A^(|W| + k). */
  ghost predicate PowerTable(W: seq<Mpi>, a: nat, N: Mpi)
    requires N.Value() > 0
    reads N, W
  {
    forall k :: 0 <= k < |W| ==> Holds(W[k], Pow(a, |W| + k), N)
  }

  /** The powers A^(2^(wsize-1)) .. A^(2^wsize - 1), or just A when the window is one bit. */
  method BuildWindow(W1: Mpi, N: Mpi, mm: nat, T: Mpi, wsize: nat, ghost a: nat) returns (W: seq<Mpi>)
    requires Ready(N, mm, T) && W1 != T && W1 != N && wsize >= 1
    requires Holds(W1, a, N)
    modifies T
    ensures Ready(N, mm, T) && |W| == Pow(2, wsize - 1)
    ensures forall k :: 0 <= k < |W| ==> W[k] == W1 || fresh(W[k])
    ensures T !in W && PowerTable(W, a, N)
  {
    hide Base, Weight, Val, Ready, Holds;
    ReadyPositive(N, mm, T);
    if wsize == 1 {
      W := [W1];
      assert Pow(a, 1) == a && Pow(2, 0) == 1;
      return;
    }
    var V := SquaredBase(W1, N, mm, T, wsize - 1, a);
    W := FillTable(V, W1, N, mm, T, Pow(2, wsize - 1), a);
  }

  /** W[1] squared count times. */
  method SquaredBase(W1: Mpi, N: Mpi, mm: nat, T: Mpi, count: nat, ghost a: nat) returns (V: Mpi)
    requires Ready(N, mm, T) && W1 != T && W1 != N && Holds(W1, a, N)
    modifies T
    ensures fresh(V) && Ready(N, mm, T) && Holds(V, Pow(a, Pow(2, count)), N)
  {
    hide Base, Weight, Val, Ready, Holds;
    ReadyPositive(N, mm, T);
    V := new Mpi();
    CopyHeld(V, W1, N, a);
    FirstPower(a);
    var i := 0;
    while i < count
      invariant 0 <= i <= count && Ready(N, mm, T)
      invariant N.Value() > 0 && Holds(V, Pow(a, Pow(2, i)), N)
    {
      SquarePower(a, i);
      MontStep(V, V, N, mm, T, Pow(a, Pow(2, i)), Pow(a, Pow(2, i)));
      i := i + 1;
    }
  }

  /** Each further entry is the one before times W[1]. */
  method FillTable(V: Mpi, W1: Mpi, N: Mpi, mm: nat, T: Mpi, j: nat, ghost a: nat) returns (W: seq<Mpi>)
    requires Ready(N, mm, T) && W1 != T && W1 != N && V != T && V != N && j >= 1
    requires Holds(W1, a, N) && Holds(V, Pow(a, j), N)
    modifies T
    ensures Ready(N, mm, T) && |W| == j && PowerTable(W, a, N) && T !in W
    ensures forall k :: 0 <= k < |W| ==> W[k] == V || fresh(W[k])
  {
    hide Base, Weight, Val, Ready, Holds;
    ReadyPositive(N, mm, T);
    W := [V];
    var i := j + 1;
    while i < 2 * j
      invariant j + 1 <= i <= 2 * j || i == j + 1
      invariant |W| == i - j && Ready(N, mm, T) && N.Value() > 0 && Holds(W1, a, N)
      invariant forall k :: 0 <= k < |W| ==> (W[k] == V || fresh(W[k])) && W[k] != T && W[k] != N
      invariant forall k :: 0 <= k < |W| ==> Holds(W[k], Pow(a, j + k), N)
    {
      var U := new Mpi();
      var last := W[|W| - 1];
      CopyHeld(U, last, N, Pow(a, i - 1));
      NextPower(a, i - 1);
      MontStep(U, W1, N, mm, T, Pow(a, i - 1), a);
      W := W + [U];
      i := i + 1;
    }
  }

  lemma FirstPower(a: nat)
    ensures Pow(a, Pow(2, 0)) == a
  {
    assert Pow(2, 0) == 1;
    assert Pow(a, 1) == a;
  }

  lemma NextPower(a: nat, i: nat)
    ensures Pow(a, i) * a == Pow(a, i + 1)
  {
  }

  lemma {:induction false} SquarePower(a: nat, i: nat)
    ensures Pow(a, Pow(2, i)) * Pow(a, Pow(2, i)) == Pow(a, Pow(2, i + 1))
  {
    PowSucc(2, i);
    PowAdd(a, Pow(2, i), Pow(2, i));
  }

  /** Copy into a fresh Mpi grown to one limb more than N. */
  method CopyHeld(V: Mpi, X: Mpi, N: Mpi, ghost v: int)
    requires V != X && V != N && V.Valid() && V.p == [] && N.Valid() && N.Value() > 0 && Holds(X, v, N)
    modifies V
    ensures Holds(V, v, N)
  {
    hide Base, Weight, Val, Pow;
    Grow(V, |N.p| + 1);
    Copy(V, X);
  }

  // ---- reading the exponent ----

  /** The part of the exponent above bit position pos. */
  function Prefix(e: nat, pos: nat): (r: nat)
  {
    DivModIdentity(e, Pow(2, pos));
    e / Pow(2, pos)
  }

  lemma {:induction false} PrefixStep(E: seq<nat>, l: nat, b: nat)
    requires IsLimbs(E) && l < |E| && b < biL
    ensures Prefix(Val(E), l * biL + b) == 2 * Prefix(Val(E), l * biL + b + 1) + (E[l] / Pow(2, b)) % 2
    ensures 0 <= (E[l] / Pow(2, b)) % 2 <= 1
  {
    hide Base, Weight, Val;
    var e, m := Val(E), Pow(2, b);
    var pos := l * biL + b;
    var p := Prefix(e, pos);
    LimbPrefix(E, l, b);
    PowSucc(2, pos);
    DivDiv(e, Pow(2, pos), 2);
    assert Prefix(e, pos + 1) == p / 2;
    DivModIdentity(p, 2);
  }

  /** The prefix ending inside limb l has that limb's bits above b at its low end. */
  lemma {:induction false} LimbPrefix(E: seq<nat>, l: nat, b: nat)
    requires IsLimbs(E) && l < |E| && b < biL
    ensures Prefix(Val(E), l * biL + b) % 2 == (E[l] / Pow(2, b)) % 2
  {
    hide Weight, Val;
    var e, m, g := Val(E), Pow(2, b), Pow(2, biL - b - 1);
    var high := Val(E[l + 1..]);
    ValDrop(E, l);
    WeightBits(l);
    PowAdd(2, biL * l, b);
    DivDiv(e, Weight(l), m);
    ValCons(E[l..]);
    assert E[l..][1..] == E[l + 1..];
    PowAdd(2, biL - b, b);
    PowSucc(2, biL - b - 1);
    LimbOver(E[l], m, g, high, Base());
  }

  lemma LimbOver(x: nat, m: nat, g: nat, high: nat, base: nat)
    requires 0 < m && base == (2 * g) * m
    ensures ((x + base * high) / m) % 2 == (x / m) % 2
  {
    DivModIdentity(x, m);
    PrefixAlgebra(x / m, x % m, m, g, high, base);
    DivModUnique(x + base * high, m, x / m + 2 * (g * high), x % m);
    ModAddMultiple(x / m, g * high, 2);
  }

  lemma PrefixAlgebra(q: int, r: int, m: int, g: int, high: int, base: int)
    requires base == (2 * g) * m
    ensures q * m + r + base * high == (q + 2 * (g * high)) * m + r
  {
    assert ((2 * g) * m) * high == (2 * (g * high)) * m by {
      MulRotate(2 * g, m, high);
      Assoc(2, g, high);
    }
    Distrib(m, q, 2 * (g * high));
  }

  /**
   The state of the scan: the bits read so far are e0 followed by the nbits pending window
   bits wv, and X is the Montgomery form of A^e0.
   */
  ghost predicate ScanState(prefix: nat, e0: nat, wv: nat, nbits: nat, wbits: nat, wsize: nat, state: nat)
  {
    && prefix == e0 * Pow(2, nbits) + wv && wv < Pow(2, nbits)
    && nbits < wsize && wbits == wv * Pow(2, wsize - nbits)
    && state <= 2 && (state == 2 <==> nbits > 0)
    && (state == 0 ==> e0 == 0)
    && (nbits > 0 ==> Pow(2, nbits - 1) <= wv)
  }

  lemma {:induction false} ScanStart(e: nat, pos: nat, wsize: nat)
    requires e < Pow(2, pos) && wsize >= 1
    ensures Prefix(e, pos) == 0 && ScanState(0, 0, 0, 0, 0, wsize, 0)
  {
    ModSmall(e, Pow(2, pos));
    assert Pow(2, 0) == 1;
  }

  lemma {:induction false} ScanIdle(p: nat, e0: nat, wv: nat, wbits: nat, wsize: nat, state: nat)
    requires ScanState(p, e0, wv, 0, wbits, wsize, state) && state <= 1
    ensures wv == 0 && p == e0 && wbits == 0
    ensures state == 0 ==> ScanState(2 * p, 0, 0, 0, 0, wsize, 0)
    ensures state == 1 ==> ScanState(2 * p, 2 * e0, 0, 0, 0, wsize, 1)
  {
    assert Pow(2, 0) == 1;
  }

  /** Taking one more bit into the window. */
  lemma {:induction false} ScanBit(p: nat, e0: nat, wv: nat, nbits: nat, wbits: nat, wsize: nat, state: nat, ei: nat)
    requires ScanState(p, e0, wv, nbits, wbits, wsize, state)
    requires ei <= 1 && (state != 2 ==> ei == 1)
    ensures
      var wv' := 2 * wv + ei;
      var wbits' := wbits + ei * Pow(2, wsize - (nbits + 1));
      && 2 * p + ei == e0 * Pow(2, nbits + 1) + wv' && wv' < Pow(2, nbits + 1)
      && wbits' == wv' * Pow(2, wsize - (nbits + 1)) && Pow(2, nbits) <= wv'
  {
    if nbits == 0 {
      assert Pow(2, 0) == 1;
    } else {
      PowSucc(2, nbits - 1);
    }
    PowSucc(2, nbits);
    MulSwap(2, e0, Pow(2, nbits));
    PowSucc(2, wsize - nbits - 1);
    var g := Pow(2, wsize - nbits - 1);
    Distrib(g, 2 * wv, ei);
    assert wv * (2 * g) == (2 * wv) * g;
  }

  /** Squaring a held power doubles its exponent. */
  lemma {:induction false} DoubleExponent(a: nat, e: nat)
    ensures Pow(a, e) * Pow(a, e) == Pow(a, 2 * e)
  {
    PowAdd(a, e, e);
  }

  /** Square X count times: the exponent is shifted left by count bits. */
  method SquareTimes(X: Mpi, N: Mpi, mm: nat, T: Mpi, count: nat, ghost a: nat, ghost e: nat)
    requires Ready(N, mm, T) && X != N && X != T && Holds(X, Pow(a, e), N)
    modifies X, T
    ensures Ready(N, mm, T) && Holds(X, Pow(a, e * Pow(2, count)), N)
  {
    hide Base, Weight, Val;
    var i := 0;
    assert e * Pow(2, 0) == e;
    while i < count
      invariant 0 <= i <= count && Ready(N, mm, T) && Holds(X, Pow(a, e * Pow(2, i)), N)
    {
      DoubleExponent(a, e * Pow(2, i));
      PowSucc(2, i);
      MulSwap(2, e, Pow(2, i));
      MontStep(X, X, N, mm, T, Pow(a, e * Pow(2, i)), Pow(a, e * Pow(2, i)));
      i := i + 1;
    }
  }

  /** Bit b of limb l of the exponent, the next one after the prefix read so far. */
  method ExponentBit(E: Mpi, l: nat, b: nat) returns (ei: nat)
    requires E.Valid() && l < |E.p| && b < biL
    ensures ei <= 1
    ensures Prefix(E.Abs(), l * biL + b) == 2 * Prefix(E.Abs(), l * biL + b + 1) + ei
  {
    hide Base, Weight, Val, Prefix;
    PrefixStep(E.p, l, b);
    ei := (E.p[l] / Pow(2, b)) % 2;
  }

  /** A full window: square wsize times, then multiply by the table entry. */
  method ApplyWindow(X: Mpi, N: Mpi, mm: nat, T: Mpi, W: seq<Mpi>, wsize: nat, wbits: nat, ghost a: nat, ghost e0: nat)
    requires Ready(N, mm, T) && X != N && X != T && wsize >= 1 && |W| == Pow(2, wsize - 1)
    requires T !in W && X !in W && PowerTable(W, a, N)
    requires |W| <= wbits < 2 * |W| && Holds(X, Pow(a, e0), N)
    modifies X, T
    ensures Ready(N, mm, T) && Holds(X, Pow(a, e0 * Pow(2, wsize) + wbits), N)
  {
    hide Base, Weight, Val, Pow;
    SquareTimes(X, N, mm, T, wsize, a, e0);
    MulPos(e0, Pow(2, wsize));
    PowAdd(a, e0 * Pow(2, wsize), wbits);
    var V := W[wbits - |W|];
    MontStep(X, V, N, mm, T, Pow(a, e0 * Pow(2, wsize)), Pow(a, wbits));
  }

  lemma {:induction false} ScanFull(p: nat, e0: nat, wv: nat, wbits: nat, wsize: nat)
    requires wsize >= 1 && p == e0 * Pow(2, wsize) + wv && wbits == wv * Pow(2, wsize - wsize)
    requires wv < Pow(2, wsize) && Pow(2, wsize - 1) <= wv
    ensures wbits == wv && Pow(2, wsize - 1) <= wbits < 2 * Pow(2, wsize - 1)
    ensures ScanState(p, e0 * Pow(2, wsize) + wv, 0, 0, 0, wsize, 1)
  {
    assert Pow(2, 0) == 1;
    PowSucc(2, wsize - 1);
  }

  lemma {:induction false} ScanPartial(p: nat, e0: nat, wv: nat, nbits: nat, wbits: nat, wsize: nat)
    requires p == e0 * Pow(2, nbits) + wv && wv < Pow(2, nbits) && 0 < nbits < wsize
    requires wbits == wv * Pow(2, wsize - nbits) && Pow(2, nbits - 1) <= wv
    ensures ScanState(p, e0, wv, nbits, wbits, wsize, 2)
  {
  }

  lemma {:induction false} ScanRange(p: nat, e0: nat, wv: nat, nbits: nat, wbits: nat, wsize: nat, state: nat)
    requires ScanState(p, e0, wv, nbits, wbits, wsize, state)
    ensures nbits < wsize && state <= 2 && (state <= 1 ==> nbits == 0 && wv == 0)
  {
    assert Pow(2, 0) == 1;
  }

  /** One bit of the exponent: skip a leading zero, square outside a window, or extend the window. */
  method ScanStep(X: Mpi, N: Mpi, mm: nat, T: Mpi, W: seq<Mpi>, wsize: nat, ei: nat,
                  nbits0: nat, wbits0: nat, state0: nat, ghost a: nat, ghost p: nat, ghost e0: nat, ghost wv0: nat)
    returns (nbits: nat, wbits: nat, state: nat, ghost e1: nat, ghost wv: nat)
    requires Ready(N, mm, T) && X != N && X != T && wsize >= 1 && ei <= 1
    requires |W| == Pow(2, wsize - 1) && T !in W && X !in W && PowerTable(W, a, N)
    requires Holds(X, Pow(a, e0), N) && ScanState(p, e0, wv0, nbits0, wbits0, wsize, state0)
    modifies X, T
    ensures Ready(N, mm, T) && Holds(X, Pow(a, e1), N)
    ensures ScanState(2 * p + ei, e1, wv, nbits, wbits, wsize, state)
  {
    hide Base, Weight, Val, Pow, ScanState, PowerTable, Ready, Holds;
    ReadyPositive(N, mm, T);
    nbits, wbits, state, e1, wv := nbits0, wbits0, state0, e0, wv0;
    ScanRange(p, e0, wv, nbits, wbits, wsize, state);
    if ei == 0 && state == 0 {
      ScanIdle(p, e0, wv, wbits, wsize, state);
      return;
    }
    if ei == 0 && state == 1 {
      ScanIdle(p, e0, wv, wbits, wsize, state);
      DoubleExponent(a, e0);
      MontStep(X, X, N, mm, T, Pow(a, e0), Pow(a, e0));
      e1 := 2 * e0;
      return;
    }
    ScanBit(p, e0, wv, nbits, wbits, wsize, state, ei);
    state := 2;
    nbits := nbits + 1;
    wbits := wbits + ei * Pow(2, wsize - nbits);
    wv := 2 * wv + ei;
    if nbits == wsize {
      ScanFull(2 * p + ei, e0, wv, wbits, wsize);
      ApplyWindow(X, N, mm, T, W, wsize, wbits, a, e0);
      e1 := e0 * Pow(2, wsize) + wv;
      state := state - 1;
      nbits, wbits, wv := 0, 0, 0;
    } else {
      ScanPartial(2 * p + ei, e0, wv, nbits, wbits, wsize);
    }
  }

  /** The main loop over the bits of E, from the top one down. */
  method ScanExponent(X: Mpi, E: Mpi, N: Mpi, mm: nat, T: Mpi, W: seq<Mpi>, wsize: nat, ghost a: nat)
    returns (nbits: nat, wbits: nat, ghost e0: nat, ghost wv: nat, ghost state': nat)
    requires Ready(N, mm, T) && X != N && X != T && E != X && E != T && E.Valid() && wsize >= 1
    requires |W| == Pow(2, wsize - 1)
    requires T !in W && X !in W && PowerTable(W, a, N)
    requires Holds(X, 1, N)
    modifies X, T
    ensures Ready(N, mm, T) && Holds(X, Pow(a, e0), N)
    ensures ScanState(E.Abs(), e0, wv, nbits, wbits, wsize, state')
  {
    hide Base, Weight, Val, ScanState, Prefix, PowerTable, Ready, Holds;
    ReadyPositive(N, mm, T);
    ghost var e := E.Abs();
    var nblimbs: nat, bufsize: nat, state: nat := |E.p|, 0, 0;
    nbits, wbits, e0, wv := 0, 0, 0, 0;
    ExponentBits(E.p);
    ScanStart(e, |E.p| * biL, wsize);
    assert Pow(a, 0) == 1;
    while true
      invariant nblimbs <= |E.p| && bufsize <= biL
      invariant bufsize > 0 ==> nblimbs < |E.p|
      invariant ScanState(Prefix(e, nblimbs * biL + bufsize), e0, wv, nbits, wbits, wsize, state)
      invariant Ready(N, mm, T) && N.Value() > 0 && Holds(X, Pow(a, e0), N)
      invariant PowerTable(W, a, N)
      decreases nblimbs, bufsize
    {
      if bufsize == 0 {
        if nblimbs == 0 {
          WholePrefix(e);
          break;
        }
        nblimbs := nblimbs - 1;
        bufsize := biL;
        Distrib(biL, nblimbs, 1);
      }
      bufsize := bufsize - 1;
      var ei := ExponentBit(E, nblimbs, bufsize);
      ghost var p := Prefix(e, nblimbs * biL + bufsize + 1);
      nbits, wbits, state, e0, wv := ScanStep(X, N, mm, T, W, wsize, ei, nbits, wbits, state, a, p, e0, wv);
    }
    state' := state;
  }

  lemma {:induction false} WholePrefix(e: nat)
    ensures Prefix(e, 0 * biL + 0) == e
  {
    assert Pow(2, 0) == 1;
  }

  lemma {:induction false} ExponentBits(E: seq<nat>)
    requires IsLimbs(E)
    ensures Val(E) < Pow(2, |E| * biL)
  {
    ValBound(E);
    WeightBits(|E|);
  }

  /** The leftover-bit loop: plain square-and-multiply over the pending bits. */
  method FinishBits(X: Mpi, W1: Mpi, N: Mpi, mm: nat, T: Mpi, wsize: nat, nbits: nat, wbits0: nat, ghost a: nat, ghost e0: nat, ghost wv: nat)
    requires Ready(N, mm, T) && X != N && X != T && W1 != T && W1 != X
    requires nbits < wsize && wbits0 == wv * Pow(2, wsize - nbits) && wv < Pow(2, nbits)
    requires Holds(X, Pow(a, e0), N) && Holds(W1, a, N)
    modifies X, T
    ensures Ready(N, mm, T) && Holds(X, Pow(a, e0 * Pow(2, nbits) + wv), N)
  {
    hide Base, Weight, Val;
    var wbits, i := wbits0, 0;
    ghost var f := e0;
    LeftoverStart(e0, wv, nbits);
    while i < nbits
      invariant 0 <= i <= nbits && Ready(N, mm, T) && Holds(W1, a, N)
      invariant wbits == wv * Pow(2, wsize - nbits + i)
      invariant f == e0 * Pow(2, i) + Prefix(wv, nbits - i) && Holds(X, Pow(a, f), N)
    {
      DoubleExponent(a, f);
      MontStep(X, X, N, mm, T, Pow(a, f), Pow(a, f));
      LeftoverBit(e0, wv, nbits, i, wsize);
      wbits := 2 * wbits;
      f := 2 * f;
      i := i + 1;
      if (wbits / Pow(2, wsize)) % 2 != 0 {
        NextPower(a, f);
        MontStep(X, W1, N, mm, T, Pow(a, f), a);
        f := f + 1;
      }
    }
    assert Pow(2, 0) == 1;
  }

  lemma {:induction false} LeftoverStart(e0: nat, wv: nat, nbits: nat)
    requires wv < Pow(2, nbits)
    ensures e0 == e0 * Pow(2, 0) + Prefix(wv, nbits - 0)
  {
    ModSmall(wv, Pow(2, nbits));
  }

  lemma {:induction false} LeftoverBit(e0: nat, wv: nat, nbits: nat, i: nat, wsize: nat)
    requires i < nbits < wsize
    ensures
      var wbits := 2 * (wv * Pow(2, wsize - nbits + i));
      var bit := (wbits / Pow(2, wsize)) % 2;
      && wbits == wv * Pow(2, wsize - nbits + (i + 1))
      && 0 <= bit <= 1
      && 2 * (e0 * Pow(2, i) + Prefix(wv, nbits - i)) + bit == e0 * Pow(2, i + 1) + Prefix(wv, nbits - (i + 1))
  {
    var k := nbits - i - 1;
    var g := Pow(2, wsize - nbits + i + 1);
    PowSucc(2, wsize - nbits + i);
    MulSwap(2, wv, Pow(2, wsize - nbits + i));
    PowAdd(2, k, wsize - nbits + i + 1);
    assert Pow(2, wsize) == Pow(2, k) * g;
    DivModIdentity(wv, Pow(2, k));
    MulPos(wv % Pow(2, k), g);
    MulMono(wv % Pow(2, k) + 1, Pow(2, k), g);
    Distrib(g, (wv / Pow(2, k)) * Pow(2, k), wv % Pow(2, k));
    Distrib(g, wv % Pow(2, k), 1);
    Assoc(wv / Pow(2, k), Pow(2, k), g);
    DivModUnique(wv * g, Pow(2, wsize), wv / Pow(2, k), (wv % Pow(2, k)) * g);
    PowSucc(2, k);
    DivDiv(wv, Pow(2, k), 2);
    DivModIdentity(wv / Pow(2, k), 2);
    PowSucc(2, i);
    MulSwap(2, e0, Pow(2, i));
  }

  // ---- the routine ----

  /** A cached R^2 mod N is either absent or what an earlier call with the same N left. */
  ghost predicate CacheFor(rr: Mpi, N: Mpi)
    requires N.Value() > 0
    reads rr, N
  {
    rr.Valid() && (rr.p != [] ==> rr.s == 1 && rr.Value() == Weight(2 * |N.p|) % N.Value())
  }

  function WindowBits(bits: nat): (w: nat)
    ensures w >= 1
  {
    var w := if bits > 671 then 6 else if bits > 239 then 5 else if bits > 79 then 4 else if bits > 23 then 3 else 1;
    if w > WINDOW_SIZE then WINDOW_SIZE else w
  }

  /** R^2 mod N, from the cache or computed and stored there. */
  method RSquared(N: Mpi, cache: Mpi?) returns (RR: Mpi)
    requires N.Valid() && N.Value() > 0 && N.p != [] && cache != N
    requires cache != null ==> CacheFor(cache, N)
    modifies cache
    ensures RR == cache || fresh(RR)
    ensures RR.Valid() && RR.p != [] && RR.s == 1 && RR.Value() == Weight(2 * |N.p|) % N.Value()
    ensures cache != null ==> CacheFor(cache, N) && cache.p != []
  {
    hide Base, Weight, Val, Pow;
    if cache == null || |cache.p| == 0 {
      RR := new Mpi();
      Lset(RR, 1);
      NonEmpty(RR);
      OneValue(RR);
      ShiftLimbs(RR, |N.p| * 2);
      var ret := ModMpi(RR, RR, N);
      if cache != null {
        cache.s, cache.p := RR.s, RR.p;
      }
    } else {
      RR := cache;
    }
  }

  lemma {:induction false} OneValue(X: Mpi)
    requires X.Valid() && X.Value() == 1 && X.s == 1
    ensures X.Abs() == 1 && forall w: nat :: 1 * w == w
  {
  }

  /** The value left in X: N itself instead of 0 when A is negative, E odd and N divides A^E. */
  function ExpModValue(negative: bool, a: int, e: nat, n: nat): int
    requires 0 < n
  {
    if negative && e % 2 == 1 && PowInt(a, e) % n == 0 then n else PowInt(a, e) % n
  }

  /**
   The result is the residue of A^E, except for a negative A, an odd E and an N dividing A^E.
   It never leaves [0, N] and always stays congruent to A^E.
   */
  lemma ExpModExact(negative: bool, a: int, e: nat, n: nat)
    requires 0 < n
    ensures ExpModValue(negative, a, e, n) == PowInt(a, e) % n <==> !(negative && e % 2 == 1 && PowInt(a, e) % n == 0)
    ensures 0 <= ExpModValue(negative, a, e, n) <= n
    ensures ExpModValue(negative, a, e, n) % n == PowInt(a, e) % n
  {
    ModSelf(n);
  }

  /** (-3)^1 mod 3 comes out as 3. */
  lemma ExpModReturnsModulus()
    ensures ExpModValue(true, -3, 1, 3) == 3 != PowInt(-3, 1) % 3
  {
    assert PowInt(-3, 1) == -3 * PowInt(-3, 0);
  }

  lemma ModSelf(n: nat)
    requires 0 < n
    ensures n % n == 0 && forall x: int :: 0 <= x < n ==> x % n == x
  {
  }

  /** X = A^E mod N for odd positive N. */
  method ExpModMpi(X: Mpi, A: Mpi, E: Mpi, N: Mpi, cache: Mpi?) returns (ret: Status)
    requires X.Valid() && A.Valid() && E.Valid() && N.Valid() && A.p != []
    requires X != E && X != N && (cache != null ==> cache != X && cache != A && cache != E && cache != N)
    requires cache != null && N.Value() > 0 ==> CacheFor(cache, N)
    modifies X, cache
    ensures X.Valid()
    ensures ret == if N.Value() <= 0 || N.p[0] % 2 == 0 || E.Value() < 0 then BadInput else Ok
    ensures ret == Ok ==> X.Value() == ExpModValue(old(A.s) == -1, old(A.Value()), E.Abs(), N.Abs())
    ensures ret == Ok && cache != null ==> CacheFor(cache, N) && cache.p != []
    ensures ret != Ok ==> X.p == old(X.p) && X.s == old(X.s)
  {
    hide Base, Weight, Val, Pow;
    var c := CmpInt(N, 0);
    NonEmpty(N);
    if c <= 0 || N.p[0] % 2 == 0 {
      return BadInput;
    }
    c := CmpInt(E, 0);
    if c < 0 {
      return BadInput;
    }
    ExpModOdd(X, A, E, N, cache);
    return Ok;
  }

  /** The computation proper, once the arguments have been accepted. */
  method ExpModOdd(X: Mpi, A: Mpi, E: Mpi, N: Mpi, cache: Mpi?)
    requires X.Valid() && A.Valid() && E.Valid() && N.Valid() && A.p != []
    requires X != E && X != N && (cache != null ==> cache != X && cache != A && cache != E && cache != N)
    requires N.Value() > 0 && N.p != [] && N.p[0] % 2 == 1 && (cache != null ==> CacheFor(cache, N))
    modifies X, cache
    ensures X.Valid() && X.Value() == ExpModValue(old(A.s) == -1, old(A.Value()), E.Abs(), N.Abs())
    ensures cache != null ==> CacheFor(cache, N) && cache.p != []
  {
    hide Base, Weight, Val, Pow, Ready, Holds, CacheFor, ExpModValue, BitLength;
    var neg := A.s == -1;
    ghost var a, av := A.Abs(), A.Value();
    var bits := Bitlen(E);
    var mm, T, W1 := Setup(X, A, N, cache);
    Exponentiate(X, E, N, mm, T, W1, WindowBits(bits), a);
    assert if neg then av == -(a as int) else av == a;
    FixSign(X, E, N, neg, a, av);
  }

  /** Scratch buffer, modulus constant, and the Montgomery forms of A (in W[1]) and of 1 (in X). */
  method Setup(X: Mpi, A: Mpi, N: Mpi, cache: Mpi?) returns (mm: nat, T: Mpi, W1: Mpi)
    requires X.Valid() && A.Valid() && N.Valid() && A.p != [] && X != N && cache != N && cache != X
    requires N.Value() > 0 && N.p != [] && N.p[0] % 2 == 1 && (cache != null ==> CacheFor(cache, N))
    modifies X, cache
    ensures fresh(T) && fresh(W1) && W1 != T && Ready(N, mm, T)
    ensures Holds(X, 1, N) && (cache != A ==> Holds(W1, old(A.Abs()), N))
    ensures cache != null ==> CacheFor(cache, N) && cache.p != []
  {
    hide Base, Weight, Val, Pow;
    Grow(X, |N.p| + 1);
    mm, T := Prepare(N);
    var RR := RSquared(N, cache);
    W1 := ToMontgomery(A, RR, N, mm, T);
    OneInMontgomery(X, RR, N, mm, T);
  }

  /** The modulus constant and the scratch buffer. */
  method Prepare(N: Mpi) returns (mm: nat, T: Mpi)
    requires N.Valid() && N.p != [] && N.p[0] % 2 == 1 && N.Value() > 0
    ensures fresh(T) && Ready(N, mm, T)
  {
    hide Base, Weight, Val, Pow;
    OddValue(N);
    mm := MontgInit(N);
    T := new Mpi();
    Grow(T, 2 * (|N.p| + 1));
  }

  /** From the Montgomery forms of 1 and A to A^E mod N. */
  method Exponentiate(X: Mpi, E: Mpi, N: Mpi, mm: nat, T: Mpi, W1: Mpi, wsize: nat, ghost a: nat)
    requires Ready(N, mm, T) && X != N && X != T && E != X && E != T && E.Valid() && wsize >= 1
    requires W1 != X && W1 != T && W1 != N && Holds(X, 1, N) && Holds(W1, a, N)
    modifies X, T
    ensures X.Valid() && X.s == 1 && X.Abs() == Pow(a, E.Abs()) % N.Abs()
  {
    hide Base, Weight, Val, Pow;
    var W := BuildWindow(W1, N, mm, T, wsize, a);
    var nbits, wbits, e0, wv, state := ScanExponent(X, E, N, mm, T, W, wsize, a);
    FinishBits(X, W1, N, mm, T, wsize, nbits, wbits, a, e0, wv);
    ghost var x := X.Abs();
    ValBound(N.p);
    var r := MontRed(X, N, mm, T);
    LeaveForm(X.Abs(), x, Pow(a, E.Abs()), |N.p|, N.Abs());
  }

  lemma {:induction false} OddValue(N: Mpi)
    requires N.Valid() && N.p != [] && N.p[0] % 2 == 1
    ensures N.Abs() % 2 == 1
  {
    ValCons(N.p);
    var h := Base() / 2;
    assert Base() == 2 * h;
    Assoc(2, h, Val(N.p[1..]));
    ModAddMultiple(N.p[0], h * Val(N.p[1..]), 2);
  }

  /** |A| mod N in a fresh buffer one limb longer than N's. */
  method ReducedCopy(A: Mpi, N: Mpi) returns (W1: Mpi)
    requires A.Valid() && N.Valid() && A.p != [] && N.Value() > 0
    ensures fresh(W1) && W1.Valid() && W1.s == 1 && |W1.p| >= |N.p| + 1
    ensures W1.Abs() == A.Abs() % N.Abs()
  {
    hide Base, Weight, Val, Pow;
    W1 := new Mpi();
    Grow(W1, |N.p| + 1);
    var Apos := new Mpi();
    Copy(Apos, A);
    Apos.s := 1;
    var c := CmpMpi(Apos, N);
    if c >= 0 {
      var ret := ModMpi(W1, Apos, N);
    } else {
      Copy(W1, Apos);
      ModSmall(A.Abs(), N.Abs());
    }
  }

  /** W[1] = A * R mod N, from |A| or its residue. */
  method ToMontgomery(A: Mpi, RR: Mpi, N: Mpi, mm: nat, T: Mpi) returns (W1: Mpi)
    requires Ready(N, mm, T) && A.Valid() && A.p != [] && A != T && RR != T && RR != N
    requires RR.Valid() && RR.p != [] && RR.s == 1 && RR.Value() == Weight(2 * |N.p|) % N.Value()
    modifies T
    ensures fresh(W1) && Ready(N, mm, T) && Holds(W1, A.Abs(), N)
  {
    hide Base, Weight, Val, Pow;
    W1 := ReducedCopy(A, N);
    ghost var a, n, w, r := A.Abs(), N.Abs(), W1.Abs(), RR.Abs();
    Residues(a, n, |N.p|, r);
    ValBound(N.p);
    var ret := MontMul(W1, RR, N, mm, T);
    EnterForm(W1.Abs(), w, r, a, |N.p|, n);
  }

  lemma {:induction false} Residues(a: nat, n: nat, i: nat, r: nat)
    requires 0 < n && r == Weight(2 * i) % n
    ensures 0 <= a % n < n && Cong(a % n, a, n)
    ensures r <= n && Cong(r, Weight(i) * Weight(i), n)
  {
    DivModIdentity(a, n);
    CongMod(a, n);
    CongMod(Weight(2 * i), n);
    WeightAdd(i, i);
  }

  /** X = R mod N, the Montgomery form of 1. */
  method OneInMontgomery(X: Mpi, RR: Mpi, N: Mpi, mm: nat, T: Mpi)
    requires Ready(N, mm, T) && X.Valid() && X != T && X != N && X != RR && RR != T && RR != N && |X.p| >= |N.p| + 1
    requires RR.Valid() && RR.p != [] && RR.s == 1 && RR.Value() == Weight(2 * |N.p|) % N.Value()
    modifies X, T
    ensures Ready(N, mm, T) && Holds(X, 1, N)
  {
    hide Base, Weight, Val, Pow;
    ghost var n := N.Abs();
    Copy(X, RR);
    ghost var x := X.Abs();
    Residues(1, n, |N.p|, x);
    ValBound(N.p);
    var r := MontRed(X, N, mm, T);
    CongRefl(1, n);
    assert 1 * RR.Abs() == x;
    EnterForm(X.Abs(), 1, RR.Abs(), 1, |N.p|, n);
  }

  /** Odd powers of a negative A: X = N - X. */
  method FixSign(X: Mpi, E: Mpi, N: Mpi, neg: bool, ghost a: nat, ghost av: int)
    requires X != E && X != N && X.Valid() && E.Valid() && N.Valid() && N.Value() > 0 && X.s == 1
    requires X.Abs() == Pow(a, E.Abs()) % N.Abs() && (if neg then av == -(a as int) else av == a)
    modifies X
    ensures X.Valid() && X.Value() == ExpModValue(neg, av, E.Abs(), N.Abs())
  {
    hide Base, Weight, Val, Pow;
    ghost var x, e := X.Abs(), E.Abs();
    LowBit(E.p);
    SignedPower(neg, a, av, e, N.Abs());
    if neg && |E.p| != 0 && E.p[0] % 2 != 0 {
      X.s := -1;
      AddMpi(X, N, X);
    }
  }

  lemma {:induction false} LowBit(E: seq<nat>)
    ensures Val(E) % 2 == if E == [] then 0 else E[0] % 2
  {
    if E != [] {
      ValCons(E);
      var h := Base() / 2;
      assert Base() == 2 * h;
      Assoc(2, h, Val(E[1..]));
      ModAddMultiple(E[0], h * Val(E[1..]), 2);
    }
  }

  lemma {:induction false} SignedPower(neg: bool, a: nat, av: int, e: nat, n: nat)
    requires 0 < n && (if neg then av == -(a as int) else av == a)
    ensures
      var x := Pow(a, e) % n;
      ExpModValue(neg, av, e, n) == if neg && e % 2 == 1 then n - x else x
  {
    var x := Pow(a, e) % n;
    PowIntNat(a, e);
    PowIntNeg(a, e);
    DivModIdentity(Pow(a, e), n);
    if neg && e % 2 == 1 {
      var k := Pow(a, e) / n;
      var y := -(Pow(a, e) as int);
      assert y == (-k) * n + -x;
      if x == 0 {
        DivModUnique(y, n, -k, 0);
      } else {
        Distrib(n, -k, 1);
        DivModUnique(y, n, -k - 1, n - x);
      }
    }
  }
}
