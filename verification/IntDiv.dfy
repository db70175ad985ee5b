/**
 Two-limb by one-limb division with half-limb digits (the variant used when no
 double-width integer type exists). All limb arithmetic wraps modulo Base().
 */
module IntDiv {
  import opened Arithmetic
  import opened Limbs
  import opened MpiCore

  /** 2^(biL/2), the variable radix. */
  function Radix(): (h: nat)
    ensures h >= 2 && h * h == Base()
  {
    PowAdd(2, biL / 2, biL / 2);
    PowMono(2, 1, biL / 2);
    assert Pow(2, 1) == 2;
    Pow(2, biL / 2)
  }

  /** q and r are quotient and remainder of a by d. */
  ghost predicate Divides2(a: nat, d: nat, q: nat, r: nat)
  {
    a == q * d + r && r < d
  }

  /**
   One quotient digit of u * radix + m by d = d1 * radix + d0: divide by the high half of
   d, then correct downwards. The correction stops exactly at the true digit.
   */
  method HalfDigit(u: nat, m: nat, d1: nat, d0: nat) returns (q: nat)
    requires 0 < d1 < Radix() && d0 < Radix() && m < Radix() && u < d1 * Radix() + d0
    ensures q < Radix()
    ensures q * (d1 * Radix() + d0) <= u * Radix() + m < (q + 1) * (d1 * Radix() + d0)
  {
    hide Radix;
    var h := Radix();
    q := u / d1;
    DivModIdentity(u, d1);
    var r0: nat := u - d1 * q;
    DigitStart(u, m, d1, d0, h, q, r0);
    while q >= h || (q * d0) % Base() > (h * r0 + m) % Base()
      invariant u == q * d1 + r0 && r0 < h
      invariant u * h + m < (q + 1) * (d1 * h + d0)
      decreases q
    {
      DigitDown(u, m, d1, d0, h, q, r0);
      q := q - 1;
      r0 := r0 + d1;
      if r0 >= h {
        break;
      }
    }
    if q < h && r0 < h {
      NoWrap(q, d0, r0, m, h);
    }
    DigitEnd(u, m, d1, d0, h, q, r0);
  }

  lemma NoWrap(q: nat, d0: nat, r0: nat, m: nat, h: nat)
    requires q < h && d0 < h && r0 < h && m < h && h * h == Base()
    ensures (q * d0) % Base() == q * d0 && (h * r0 + m) % Base() == h * r0 + m
  {
    MulMono(q, h - 1, d0);
    MulMono(d0, h - 1, h - 1);
    MulMono(r0, h - 1, h);
    Distrib(h, h, 1);
    Distrib(h - 1, h, 1);
    MulPos(q, d0);
    MulPos(h, r0);
    ModSmall(q * d0, Base());
    ModSmall(h * r0 + m, Base());
  }

  lemma DigitStart(u: nat, m: nat, d1: nat, d0: nat, h: nat, q: nat, r0: nat)
    requires 0 < d1 < h && m < h && u == d1 * q + r0 && r0 < d1
    ensures u * h + m < (q + 1) * (d1 * h + d0)
  {
    MulMono(u + 1, (q + 1) * d1, h);
    Distrib(h, u, 1);
    Assoc(q + 1, d1, h);
    Distrib(q + 1, d1 * h, d0);
    MulPos(q + 1, d0);
  }

  lemma DigitDown(u: nat, m: nat, d1: nat, d0: nat, h: nat, q: nat, r0: nat)
    requires 0 < d1 < h && d0 < h && m < h && u < d1 * h + d0 && h * h == Base()
    requires u == q * d1 + r0 && r0 < h
    requires q >= h || (q * d0) % Base() > (h * r0 + m) % Base()
    ensures q > 0 && u * h + m < q * (d1 * h + d0)
    ensures u == (q - 1) * d1 + (r0 + d1)
    ensures r0 + d1 >= h ==> q - 1 < h
  {
    Distrib(d1, q, 1);
    var d := d1 * h + d0;
    if q >= h {
      MulMono(u + 1, d, h);
      Distrib(h, u, 1);
      MulMono(h, q, d);
      if q > h {
        MulMono(h + 1, q, d1);
        Distrib(d1, h, 1);
      }
    } else {
      NoWrap(q, d0, r0, m, h);
      Distrib(q, d1 * h, d0);
      Assoc(q, d1, h);
      Distrib(h, q * d1, r0);
    }
  }

  lemma DigitEnd(u: nat, m: nat, d1: nat, d0: nat, h: nat, q: nat, r0: nat)
    requires d0 < h && u == q * d1 + r0 && q < h
    requires r0 >= h || q * d0 <= h * r0 + m
    ensures q * (d1 * h + d0) <= u * h + m
  {
    Distrib(q, d1 * h, d0);
    Assoc(q, d1, h);
    Distrib(h, q * d1, r0);
    if r0 >= h {
      MulMono(q, h, d0);
      MulMono(d0, h, h);
      MulMono(h, r0, h);
    }
  }

  /** Quotient and remainder of u1 * Base() + u0 by d; all ones when d <= u1 (overflow). */
  method IntDivInt(u1: nat, u0: nat, d: nat) returns (q: nat, r: nat)
    requires u1 < Base() && u0 < Base() && d < Base()
    ensures d <= u1 ==> q == Base() - 1 && r == Base() - 1
    ensures d > u1 ==> q < Base() && Divides2(u1 * Base() + u0, d, q, r)
  {
    hide Radix, Pow, Base;
    if d == 0 || u1 >= d {
      return Base() - 1, Base() - 1;
    }
    var s := Clz(d);
    var h := Radix();
    Normalize(u1, u0, d, s);
    var dn := d * Pow(2, s);
    var v1 := (u1 * Pow(2, s)) % Base() + if s == 0 then 0 else u0 / Pow(2, biL - s);
    var v0 := (u0 * Pow(2, s)) % Base();
    Halves(dn);
    Halves(v0);
    TopHalf(d, s);
    var d1, d0 := dn / h, dn % h;
    var msw, lsw := v0 / h, v0 % h;
    var q1 := HalfDigit(v1, msw, d1, d0);
    WrapRemainder(v1, msw, q1, dn, h);
    var rAX := (v1 * h + (msw - q1 * dn)) % Base();
    var q0 := HalfDigit(rAX, lsw, d1, d0);
    WrapRemainder(rAX, lsw, q0, dn, h);
    var rest := (rAX * h + lsw - q0 * dn) % Base();
    Assemble(v1, v0, msw, lsw, q1, q0, rAX, rest, dn, h);
    Denormalize(u1 * Base() + u0, d, q1 * h + q0, rest, Pow(2, s));
    q := q1 * h + q0;
    r := rest / Pow(2, s);
  }

  lemma Halves(x: nat)
    requires x < Base()
    ensures x == (x / Radix()) * Radix() + x % Radix()
    ensures 0 <= x / Radix() < Radix() && 0 <= x % Radix() < Radix()
  {
    DivModIdentity(x, Radix());
    DivLess(x, Radix(), Radix());
  }

  /** Shifting out the leading zeros keeps the two-limb dividend below d * Base(). */
  lemma {:induction false} Normalize(u1: nat, u0: nat, d: nat, s: nat)
    requires u1 < d < Base() && u0 < Base() && s < biL && d < Pow(2, biL - s)
    ensures d * Pow(2, s) < Base() && (u0 * Pow(2, s)) % Base() < Base()
    ensures
      var v1 := (u1 * Pow(2, s)) % Base() + if s == 0 then 0 else u0 / Pow(2, biL - s);
      0 <= v1 < d * Pow(2, s) &&
      v1 * Base() + (u0 * Pow(2, s)) % Base() == (u1 * Base() + u0) * Pow(2, s)
  {
    hide Base;
    var p := Pow(2, s);
    LimbSplit(u0, s);
    LimbSplit(u1, s);
    MulStrict(d, Pow(2, biL - s), p);
    MulMono(u1 + 1, d, p);
    Distrib(p, u1, 1);
    MulPos(u1, p);
    ModSmall(u1 * p, Base());
    var hi := u0 / Pow(2, biL - s);
    if s == 0 {
      assert Pow(2, 0) == 1;
    }
    Distrib(Base(), u1 * p, hi);
    Distrib(p, u1 * Base(), u0);
    MulRotate(u1, p, Base());
  }

  lemma {:induction false} TopHalf(d: nat, s: nat)
    requires 0 < d && s < biL && Pow(2, biL - 1 - s) <= d && d * Pow(2, s) < Base()
    ensures 0 < (d * Pow(2, s)) / Radix()
  {
    MulMono(Pow(2, biL - 1 - s), d, Pow(2, s));
    PowAdd(2, biL - 1 - s, s);
    PowMono(2, biL / 2, biL - 1);
    DivMono(Radix(), d * Pow(2, s), Radix());
    DivModUnique(Radix(), Radix(), 1, 0);
  }

  /** The wrapped remainder is the true one because that fits in a limb. */
  lemma WrapRemainder(u: nat, m: nat, q: nat, d: nat, h: nat)
    requires d < Base() && q * d <= u * h + m < (q + 1) * d
    ensures (u * h + (m - q * d)) % Base() == u * h + m - q * d < d
    ensures (u * h + m - q * d) % Base() == u * h + m - q * d
  {
    Distrib(d, q, 1);
    ModSmall(u * h + m - q * d, Base());
  }

  lemma Assemble(v1: nat, v0: nat, msw: nat, lsw: nat, q1: nat, q0: nat, rAX: nat, rest: nat, d: nat, h: nat)
    requires h * h == Base() && v0 == msw * h + lsw && q1 < h && q0 < h
    requires rAX == v1 * h + msw - q1 * d && rest == rAX * h + lsw - q0 * d
    ensures v1 * Base() + v0 == (q1 * h + q0) * d + rest
    ensures q1 * h + q0 < Base()
  {
    var b := Base();
    calc {
      v1 * (h * h) + msw * h + lsw;
      { Assoc(v1, h, h); Distrib(h, v1 * h, msw); }
      (v1 * h + msw) * h + lsw;
      { Distrib(h, q1 * d, rAX); }
      (q1 * d) * h + rAX * h + lsw;
      (q1 * d) * h + q0 * d + rest;
      { Distrib(d, q1 * h, q0); MulRotate(q1, d, h); }
      (q1 * h + q0) * d + rest;
    }
    MulMono(q1, h - 1, h);
    Distrib(h, h, 1);
  }

  lemma Denormalize(a: nat, d: nat, q: nat, rest: nat, p: nat)
    requires 0 < p && a * p == q * (d * p) + rest && rest < d * p
    ensures 0 <= rest / p && Divides2(a, d, q, rest / p)
  {
    Assoc(q, d, p);
    Distrib(p, a, q * d);
    var r := a - q * d;
    assert rest == r * p;
    DivModUnique(rest, p, r, 0);
    MulCancelLess(r, d, p);
    if r < 0 { MulMono(r, -1, p); }
  }
}
