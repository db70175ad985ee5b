/**
 Little-endian limb sequences and the natural numbers they stand for.
 The limb width is biL = 8 * 2^LIMB_LOG bits with LIMB_LOG left unspecified, so every
 result holds for 8-, 16-, 32- and 64-bit limbs alike.
 */
module Limbs {
  import opened Arithmetic

  const LIMB_LOG: nat

  type LimbWidth = n: nat | 8 <= n && n % 2 == 0 witness 8

  /** Bits in a limb (the macro biL); always even, so a half limb biL / 2 exists. */
  const biL: LimbWidth := 8 * Pow(2, LIMB_LOG)

  /** 2^biL, the number of values of one limb. */
  function Base(): (b: nat)
    ensures b >= 256 && b % 2 == 0
  {
    assert Pow(2, 8) == 256;
    PowMono(2, 8, biL);
    PowSucc(2, biL - 1);
    Pow(2, biL)
  }

  /** All elements fit in a limb. */
  predicate IsLimbs(s: seq<nat>)
  {
    forall i :: 0 <= i < |s| ==> s[i] < Base()
  }

  /** The weight of limb i. */
  function Weight(i: nat): (w: nat)
    ensures w > 0
  {
    Pow(Base(), i)
  }

  function Val(s: seq<nat>): nat
  {
    if s == [] then 0 else Val(s[..|s| - 1]) + s[|s| - 1] * Weight(|s| - 1)
  }

  lemma {:induction false} WeightSucc(i: nat)
    ensures Weight(i + 1) == Base() * Weight(i)
  {
  }

  lemma {:induction false} WeightAdd(i: nat, j: nat)
    ensures Weight(i + j) == Weight(i) * Weight(j)
  {
    PowAdd(Base(), i, j);
  }

  lemma {:induction false} WeightMono(i: nat, j: nat)
    requires i <= j
    ensures Weight(i) <= Weight(j)
  {
    PowMono(Base(), i, j);
  }

  /** The weight of limb i as a power of two. */
  lemma {:induction false} WeightBits(i: nat)
    ensures Weight(i) == Pow(2, biL * i)
  {
    PowMul(2, biL, i);
  }

  lemma {:induction false} ValSnoc(s: seq<nat>, x: nat)
    ensures Val(s + [x]) == Val(s) + x * Weight(|s|)
  {
    assert (s + [x])[..|s|] == s;
  }

  lemma {:induction false} ValTake(s: seq<nat>, i: nat)
    requires i < |s|
    ensures Val(s[..i + 1]) == Val(s[..i]) + s[i] * Weight(i)
  {
    assert s[..i + 1][..i] == s[..i];
  }

  lemma {:induction false} ValFull(s: seq<nat>)
    ensures Val(s[..|s|]) == Val(s)
  {
    assert s[..|s|] == s;
  }

  lemma {:induction false} ValBound(s: seq<nat>)
    requires IsLimbs(s)
    ensures Val(s) < Weight(|s|)
  {
    if s != [] {
      var n := |s| - 1;
      ValBound(s[..n]);
      MulMono(s[n], Base() - 1, Weight(n));
      Distrib(Weight(n), Base(), 1);
      WeightSucc(n);
    }
  }

  lemma {:induction false} ValSplit(s: seq<nat>, i: nat)
    requires i <= |s|
    ensures Val(s) == Val(s[..i]) + Weight(i) * Val(s[i..])
  {
    if i == |s| {
      ValFull(s);
    } else {
      var n := |s| - 1;
      var t := s[..n];
      ValSplit(t, i);
      assert t[..i] == s[..i];
      assert t[i..] == s[i..][..n - i];
      ValTopTerm(s[i..], t[i..], s[n], i);
    }
  }

  lemma {:induction false} ValTopTerm(u: seq<nat>, v: seq<nat>, x: nat, i: nat)
    requires u == v + [x]
    ensures Weight(i) * Val(u) == Weight(i) * Val(v) + x * Weight(i + |v|)
  {
    ValSnoc(v, x);
    WeightAdd(i, |v|);
    ScaleSum(Weight(i), Val(u), Val(v), x, Weight(|v|), Weight(i + |v|));
  }

  /** Reading the number from its lowest limb. */
  lemma {:induction false} ValCons(s: seq<nat>)
    requires s != []
    ensures Val(s) == s[0] + Base() * Val(s[1..])
  {
    ValSplit(s, 1);
    ValTake(s, 0);
    assert s[..0] == [];
    assert Weight(1) == Base() * Weight(0) && Weight(0) == 1;
  }

  lemma {:induction false} ValZeros(s: seq<nat>)
    requires forall i :: 0 <= i < |s| ==> s[i] == 0
    ensures Val(s) == 0
  {
    if s != [] {
      ValZeros(s[..|s| - 1]);
    }
  }

  lemma {:induction false} ValZeroInv(s: seq<nat>)
    requires Val(s) == 0
    ensures forall i :: 0 <= i < |s| ==> s[i] == 0
  {
    if s != [] {
      var n := |s| - 1;
      MulPos(s[n], Weight(n));
      ValZeroInv(s[..n]);
      forall i | 0 <= i < |s| ensures s[i] == 0 {
        if i < n { assert s[..n][i] == 0; }
      }
    }
  }

  /** Limbs above position i that are zero contribute nothing. */
  lemma {:induction false} ValTrim(s: seq<nat>, i: nat)
    requires i <= |s| && forall j :: i <= j < |s| ==> s[j] == 0
    ensures Val(s) == Val(s[..i])
  {
    ValSplit(s, i);
    ValZeros(s[i..]);
  }

  lemma {:induction false} ValUpdate(s: seq<nat>, i: nat, x: nat)
    requires i < |s|
    ensures Val(s[i := x]) == Val(s) + (x - s[i]) * Weight(i)
  {
    var t := s[i := x];
    ValSplit(s, i + 1);
    ValSplit(t, i + 1);
    assert t[i + 1..] == s[i + 1..];
    assert t[..i] == s[..i];
    ValTake(s, i);
    ValTake(t, i);
    Distrib(Weight(i), x, s[i]);
  }

  /** Dividing by the weight of limb i drops the low i limbs. */
  lemma {:induction false} ValDrop(s: seq<nat>, i: nat)
    requires i <= |s| && IsLimbs(s)
    ensures Val(s) / Weight(i) == Val(s[i..]) && Val(s) % Weight(i) == Val(s[..i])
  {
    ValSplit(s, i);
    ValBound(s[..i]);
    assert Weight(i) * Val(s[i..]) == Val(s[i..]) * Weight(i);
    DivModUnique(Val(s), Weight(i), Val(s[i..]), Val(s[..i]));
  }

  /** A number below the weight of limb i has only zero limbs from i on. */
  lemma {:induction false} ValHighZero(s: seq<nat>, i: nat)
    requires i <= |s| && IsLimbs(s) && Val(s) < Weight(i)
    ensures forall j :: i <= j < |s| ==> s[j] == 0
    ensures Val(s[..i]) == Val(s)
  {
    ValDrop(s, i);
    ModSmall(Val(s), Weight(i));
    ValZeroInv(s[i..]);
    forall j | i <= j < |s| ensures s[j] == 0 {
      assert s[i..][j - i] == 0;
    }
  }

  /** Equal-length limb sequences compare by their highest differing limb. */
  lemma {:induction false} ValLess(s: seq<nat>, t: seq<nat>, i: nat)
    requires |s| == |t| && i < |s| && IsLimbs(s) && IsLimbs(t)
    requires s[i + 1..] == t[i + 1..] && s[i] < t[i]
    ensures Val(s) < Val(t)
  {
    ValSplit(s, i + 1);
    ValSplit(t, i + 1);
    ValTake(s, i);
    ValTake(t, i);
    ValBound(s[..i]);
    MulMono(s[i] + 1, t[i], Weight(i));
    Distrib(Weight(i), s[i], 1);
  }

  /** Prefixing k zero limbs multiplies by the weight of limb k. */
  lemma {:induction false} ValShift(s: seq<nat>, t: seq<nat>, k: nat)
    requires |t| >= k && t[k..] == s && forall i :: 0 <= i < k ==> t[i] == 0
    ensures Val(t) == Weight(k) * Val(s)
  {
    ValSplit(t, k);
    ValZeros(t[..k]);
  }
}
