/**
 AES-XTS over an abstract block function: tweak chain, whole blocks and ciphertext stealing.
 */
module Xts {

  import opened Blocks

  datatype Mode = Encrypt | Decrypt
  datatype Status = Ok | InvalidInputLength

  // ---- multiplication of the tweak by x in GF(2^128) ----

  /** GET_UINT64_LE */
  function GetLe(b0: bv8, b1: bv8, b2: bv8, b3: bv8, b4: bv8, b5: bv8, b6: bv8, b7: bv8): bv64
  {
    ((b7 as bv64) << 56) | ((b6 as bv64) << 48) | ((b5 as bv64) << 40) | ((b4 as bv64) << 32)
    | ((b3 as bv64) << 24) | ((b2 as bv64) << 16) | ((b1 as bv64) << 8) | (b0 as bv64)
  }

  /** PUT_UINT64_LE */
  function PutLe(n: bv64): (r: seq<bv8>)
    ensures |r| == 8
  {
    [(n & 0xFF) as bv8, ((n >> 8) & 0xFF) as bv8, ((n >> 16) & 0xFF) as bv8, ((n >> 24) & 0xFF) as bv8,
     ((n >> 32) & 0xFF) as bv8, ((n >> 40) & 0xFF) as bv8, ((n >> 48) & 0xFF) as bv8, ((n >> 56) & 0xFF) as bv8]
  }

  /** The carry out of the top bit, folded back as x^7 + x^2 + x + 1. */
  function Fold(b: bv64): bv64
  {
    0x87 >> (8 - ((b >> 63) << 3)) as bv7
  }

  /** mbedtls_gf128mul_x_ble: two little-endian 64-bit words shifted as one. */
  function MulX(x: Block): (r: Block)
  {
    var a := GetLe(x[0], x[1], x[2], x[3], x[4], x[5], x[6], x[7]);
    var b := GetLe(x[8], x[9], x[10], x[11], x[12], x[13], x[14], x[15]);
    LowWord(a, b) + HighWord(a, b)
  }

  function LowWord(a: bv64, b: bv64): (r: seq<bv8>)
    ensures |r| == 8
  {
    PutLe((a << 1) ^ Fold(b))
  }

  function HighWord(a: bv64, b: bv64): (r: seq<bv8>)
    ensures |r| == 8
  {
    PutLe((a >> 63) | (b << 1))
  }

  /** A word's bytes shifted left by one bit, with the byte low entering at the bottom. */
  function ShiftedBytes(b0: bv8, b1: bv8, b2: bv8, b3: bv8, b4: bv8, b5: bv8, b6: bv8, b7: bv8, low: bv8): (r: seq<bv8>)
    ensures |r| == 8
  {
    [(b0 << 1) ^ low, (b1 << 1) ^ (b0 >> 7), (b2 << 1) ^ (b1 >> 7), (b3 << 1) ^ (b2 >> 7),
     (b4 << 1) ^ (b3 >> 7), (b5 << 1) ^ (b4 >> 7), (b6 << 1) ^ (b5 >> 7), (b7 << 1) ^ (b6 >> 7)]
  }

  lemma ShiftedWord(b0: bv8, b1: bv8, b2: bv8, b3: bv8, b4: bv8, b5: bv8, b6: bv8, b7: bv8, low: bv64)
    requires low < 0x100
    ensures PutLe((GetLe(b0, b1, b2, b3, b4, b5, b6, b7) << 1) ^ low)
         == ShiftedBytes(b0, b1, b2, b3, b4, b5, b6, b7, low as bv8)
  {
  }

  lemma ShiftedLowWord(b0: bv8, b1: bv8, b2: bv8, b3: bv8, b4: bv8, b5: bv8, b6: bv8, b7: bv8, c0: bv8, c1: bv8, c2: bv8, c3: bv8, c4: bv8, c5: bv8, c6: bv8, c7: bv8)
    ensures
      LowWord(GetLe(b0, b1, b2, b3, b4, b5, b6, b7), GetLe(c0, c1, c2, c3, c4, c5, c6, c7))
      == ShiftedBytes(b0, b1, b2, b3, b4, b5, b6, b7, if c7 >> 7 == 1 then 0x87 else 0)
  {
    TopBit(c0, c1, c2, c3, c4, c5, c6, c7);
    ShiftedWord(b0, b1, b2, b3, b4, b5, b6, b7, if c7 >> 7 == 1 then 0x87 else 0);
  }

  lemma TopBit(b0: bv8, b1: bv8, b2: bv8, b3: bv8, b4: bv8, b5: bv8, b6: bv8, b7: bv8)
    ensures Fold(GetLe(b0, b1, b2, b3, b4, b5, b6, b7)) == if b7 >> 7 == 1 then 0x87 else 0
  {
  }

  lemma ShiftedHighWord(b0: bv8, b1: bv8, b2: bv8, b3: bv8, b4: bv8, b5: bv8, b6: bv8, b7: bv8, c0: bv8, c1: bv8, c2: bv8, c3: bv8, c4: bv8, c5: bv8, c6: bv8, c7: bv8)
    ensures
      HighWord(GetLe(b0, b1, b2, b3, b4, b5, b6, b7), GetLe(c0, c1, c2, c3, c4, c5, c6, c7))
      == ShiftedBytes(c0, c1, c2, c3, c4, c5, c6, c7, b7 >> 7)
  {
  }

  /**
   Byte 0 holds the lowest coefficients of the field element. Multiplying by x moves every
   bit up by one place, from each byte into the next, and replaces x^128 by 0x87 in byte 0.
   */
  lemma MulXBytes(x: Block)
    ensures
      MulX(x) == ShiftedBytes(x[0], x[1], x[2], x[3], x[4], x[5], x[6], x[7], if x[15] >> 7 == 1 then 0x87 else 0)
               + ShiftedBytes(x[8], x[9], x[10], x[11], x[12], x[13], x[14], x[15], x[7] >> 7)
  {
    hide GetLe, LowWord, HighWord, ShiftedBytes;
    ShiftedLowWord(x[0], x[1], x[2], x[3], x[4], x[5], x[6], x[7], x[8], x[9], x[10], x[11], x[12], x[13], x[14], x[15]);
    ShiftedHighWord(x[0], x[1], x[2], x[3], x[4], x[5], x[6], x[7], x[8], x[9], x[10], x[11], x[12], x[13], x[14], x[15]);
  }

  // ---- the data unit ----

  /** One block: mask with the tweak, run the block function, mask again. */
  function Whiten(ecb: Block -> Block, t: Block, b: Block): Block
  {
    Xor(ecb(Xor(b, t)), t)
  }

  /** What the standard assigns to a data unit whose first tweak is t. */
  function XtsUnit(mode: Mode, ecb: Block -> Block, t: Block, s: seq<bv8>): (r: seq<bv8>)
    requires |s| == 0 || |s| >= 16
    ensures |r| == |s|
    decreases |s|
  {
    if |s| == 0 then []
    else if 16 < |s| < 32 then StealUnit(mode, ecb, t, s)
    else Whiten(ecb, t, s[..16]) + XtsUnit(mode, ecb, MulX(t), s[16..])
  }

  /** The last full block with its leftover bytes; decryption takes the two tweaks in swapped order. */
  function StealUnit(mode: Mode, ecb: Block -> Block, t: Block, s: seq<bv8>): (r: seq<bv8>)
    requires 16 < |s| < 32
    ensures |r| == |s|
  {
    var (first, second) := if mode == Encrypt then (t, MulX(t)) else (MulX(t), t);
    var cc := Whiten(ecb, first, s[..16]);
    Whiten(ecb, second, s[16..] + cc[|s| - 16..]) + cc[..|s| - 16]
  }

  /** The same steps when output and input are one buffer: the stolen input bytes are overwritten too early. */
  function AliasedSteal(mode: Mode, ecb: Block -> Block, t: Block, s: seq<bv8>): (r: seq<bv8>)
    requires 16 < |s| < 32
    ensures |r| == |s|
  {
    var (first, second) := if mode == Encrypt then (t, MulX(t)) else (MulX(t), t);
    var cc := Whiten(ecb, first, s[..16]);
    Whiten(ecb, second, cc) + cc[..|s| - 16]
  }

  function AliasedUnit(mode: Mode, ecb: Block -> Block, t: Block, s: seq<bv8>): (r: seq<bv8>)
    requires |s| == 0 || |s| >= 16
    ensures |r| == |s|
    decreases |s|
  {
    if |s| == 0 then []
    else if 16 < |s| < 32 then AliasedSteal(mode, ecb, t, s)
    else Whiten(ecb, t, s[..16]) + AliasedUnit(mode, ecb, MulX(t), s[16..])
  }

  /** The pair is inverse in the given order. */
  ghost predicate Inverts(dec: Block -> Block, enc: Block -> Block)
  {
    forall b: Block :: dec(enc(b)) == b
  }

  lemma WhitenInverse(enc: Block -> Block, dec: Block -> Block, t: Block, b: Block)
    requires Inverts(dec, enc)
    ensures Whiten(dec, t, Whiten(enc, t, b)) == b
  {
    var m: Block := Xor(b, t);
    XorCancel(enc(m), t);
    assert dec(enc(m)) == m;
    XorCancel(b, t);
  }

  lemma StealInverse(enc: Block -> Block, dec: Block -> Block, t: Block, s: seq<bv8>, m: Mode, n: Mode)
    requires Inverts(dec, enc) && 16 < |s| < 32 && m != n
    ensures StealUnit(n, dec, t, StealUnit(m, enc, t, s)) == s
  {
    var l := |s| - 16;
    var (first, second) := if m == Encrypt then (t, MulX(t)) else (MulX(t), t);
    var cc := Whiten(enc, first, s[..16]);
    var joined: Block := s[16..] + cc[l..];
    var c := StealUnit(m, enc, t, s);
    WhitenInverse(enc, dec, second, joined);
    assert c[..16] == Whiten(enc, second, joined) && c[16..] == cc[..l];
    var back := Whiten(dec, second, c[..16]);
    assert back == joined && back[l..] == cc[l..] && back[..l] == s[16..];
    assert c[16..] + back[l..] == cc;
    WhitenInverse(enc, dec, first, s[..16]);
    assert s == s[..16] + s[16..];
  }

  /**
   Decryption undoes encryption, and encryption decryption, for every data unit, with or
   without leftover bytes: m is the first mode, run with enc, and n the other, run with dec.
   */
  lemma {:induction false} XtsInverse(enc: Block -> Block, dec: Block -> Block, t: Block, s: seq<bv8>, m: Mode, n: Mode)
    requires Inverts(dec, enc) && (|s| == 0 || |s| >= 16) && m != n
    ensures XtsUnit(n, dec, t, XtsUnit(m, enc, t, s)) == s
    decreases |s|
  {
    if |s| == 0 {
    } else if 16 < |s| < 32 {
      StealInverse(enc, dec, t, s, m, n);
    } else {
      var head: seq<bv8> := Whiten(enc, t, s[..16]);
      var rest: seq<bv8> := XtsUnit(m, enc, MulX(t), s[16..]);
      WhitenInverse(enc, dec, t, s[..16]);
      XtsInverse(enc, dec, MulX(t), s[16..], m, n);
      assert (head + rest)[..16] == head && (head + rest)[16..] == rest;
      assert s == s[..16] + s[16..];
    }
  }

  /** The intermediate block the leftover bytes are stolen from. */
  function Intermediate(mode: Mode, ecb: Block -> Block, t: Block, s: seq<bv8>): Block
    requires |s| >= 16
    decreases |s|
  {
    if |s| < 32 then Whiten(ecb, if mode == Encrypt then t else MulX(t), s[..16])
    else Intermediate(mode, ecb, MulX(t), s[16..])
  }

  /**
   In place, the result is right exactly when the leftover input bytes happen to equal the
   first bytes of the intermediate block they replace (always, when there are none).
   */
  lemma {:induction false} AliasedExact(mode: Mode, ecb: Block -> Block, inv: Block -> Block, t: Block, s: seq<bv8>)
    requires Inverts(inv, ecb) && |s| >= 16
    ensures
      var l := |s| % 16;
      AliasedUnit(mode, ecb, t, s) == XtsUnit(mode, ecb, t, s)
      <==> s[|s| - l..] == Intermediate(mode, ecb, t, s)[..l]
    decreases |s|
  {
    hide Whiten, MulX, XtsUnit, AliasedUnit, Intermediate;
    if |s| == 16 {
      LongUnits(mode, ecb, t, s);
      NoUnits(mode, ecb, MulX(t), s[16..]);
    } else if |s| < 32 {
      assert |s| % 16 == |s| - 16;
      ShortUnits(mode, ecb, t, s);
      AliasedShort(mode, ecb, inv, t, s);
    } else {
      var rest := s[16..];
      var l := |s| % 16;
      assert |rest| % 16 == l && rest[|rest| - l..] == s[|s| - l..];
      LongUnits(mode, ecb, t, s);
      AliasedExact(mode, ecb, inv, MulX(t), rest);
      SameHead(Whiten(ecb, t, s[..16]), AliasedUnit(mode, ecb, MulX(t), rest), XtsUnit(mode, ecb, MulX(t), rest));
    }
  }

  lemma LongUnits(mode: Mode, ecb: Block -> Block, t: Block, s: seq<bv8>)
    requires |s| == 16 || |s| >= 32
    ensures XtsUnit(mode, ecb, t, s) == Whiten(ecb, t, s[..16]) + XtsUnit(mode, ecb, MulX(t), s[16..])
    ensures AliasedUnit(mode, ecb, t, s) == Whiten(ecb, t, s[..16]) + AliasedUnit(mode, ecb, MulX(t), s[16..])
    ensures |s| >= 32 ==> Intermediate(mode, ecb, t, s) == Intermediate(mode, ecb, MulX(t), s[16..])
  {
    hide Whiten, MulX;
  }

  lemma NoUnits(mode: Mode, ecb: Block -> Block, t: Block, s: seq<bv8>)
    requires s == []
    ensures XtsUnit(mode, ecb, t, s) == [] == AliasedUnit(mode, ecb, t, s)
  {
  }

  lemma ShortUnits(mode: Mode, ecb: Block -> Block, t: Block, s: seq<bv8>)
    requires 16 < |s| < 32
    ensures XtsUnit(mode, ecb, t, s) == StealUnit(mode, ecb, t, s)
    ensures AliasedUnit(mode, ecb, t, s) == AliasedSteal(mode, ecb, t, s)
    ensures Intermediate(mode, ecb, t, s) == Whiten(ecb, if mode == Encrypt then t else MulX(t), s[..16])
  {
    hide StealUnit, AliasedSteal, Whiten, MulX;
  }

  lemma SameHead(head: seq<bv8>, a: seq<bv8>, b: seq<bv8>)
    ensures head + a == head + b <==> a == b
  {
    assert (head + a)[|head|..] == a && (head + b)[|head|..] == b;
  }

  lemma SameTail(a: seq<bv8>, b: seq<bv8>, tail: seq<bv8>)
    ensures a + tail == b + tail <==> a == b
  {
    if a + tail == b + tail {
      assert |a| == |b|;
      assert (a + tail)[..|a|] == a && (b + tail)[..|b|] == b;
    }
  }

  lemma AliasedShort(mode: Mode, ecb: Block -> Block, inv: Block -> Block, t: Block, s: seq<bv8>)
    requires Inverts(inv, ecb) && 16 < |s| < 32
    ensures var cc := Whiten(ecb, if mode == Encrypt then t else MulX(t), s[..16]);
      AliasedSteal(mode, ecb, t, s) == StealUnit(mode, ecb, t, s) <==> s[16..] == cc[..|s| - 16]
  {
    hide Whiten, MulX, Inverts;
    var l := |s| - 16;
    var (first, second) := if mode == Encrypt then (t, MulX(t)) else (MulX(t), t);
    var cc := Whiten(ecb, first, s[..16]);
    var joined: Block := s[16..] + cc[l..];
    WhitenInverse(ecb, inv, second, joined);
    WhitenInverse(ecb, inv, second, cc);
    SameTail(Whiten(ecb, second, cc), Whiten(ecb, second, joined), cc[..l]);
    assert cc == cc[..l] + cc[l..];
    SameTail(cc[..l], s[16..], cc[l..]);
  }

  /** Units that differ only in their leftover bytes collide in place: the bytes are lost. */
  lemma {:induction false} AliasedLosesBytes(mode: Mode, ecb: Block -> Block, t: Block, s: seq<bv8>, r: seq<bv8>)
    requires |s| == |r| >= 16
    requires s[..|s| - |s| % 16] == r[..|s| - |s| % 16]
    ensures AliasedUnit(mode, ecb, t, s) == AliasedUnit(mode, ecb, t, r)
    decreases |s|
  {
    var k := |s| - |s| % 16;
    assert s[..16] == s[..k][..16] == r[..k][..16] == r[..16];
    if |s| >= 32 {
      assert |s[16..]| % 16 == |s| % 16;
      assert s[16..][..k - 16] == s[..k][16..] == r[..k][16..] == r[16..][..k - 16];
      AliasedLosesBytes(mode, ecb, MulX(t), s[16..], r[16..]);
    } else if |s| == 16 {
      assert s == s[..16] && r == r[..16];
    }
  }

  /**
   In place, every data unit of a given length comes out right if and only if the length is a
   multiple of 16, whatever the invertible block function, the tweak and the direction.
   */
  lemma {:induction false} InPlaceExact(mode: Mode, ecb: Block -> Block, inv: Block -> Block, t: Block, n: nat)
    requires Inverts(inv, ecb) && n >= 16
    ensures (forall s: seq<bv8> :: |s| == n ==> AliasedUnit(mode, ecb, t, s) == XtsUnit(mode, ecb, t, s)) <==> n % 16 == 0
  {
    hide AliasedUnit, XtsUnit, Intermediate, Inverts;
    if n % 16 == 0 {
      forall s: seq<bv8> | |s| == n ensures AliasedUnit(mode, ecb, t, s) == XtsUnit(mode, ecb, t, s) {
        AliasedExact(mode, ecb, inv, t, s);
        assert s[|s| - 0..] == [] && Intermediate(mode, ecb, t, s)[..0] == [];
      }
    } else {
      var s, r: seq<bv8> := seq(n, _ => 0), seq(n - 1, _ => 0) + [1];
      assert s[..n - n % 16] == r[..n - n % 16];
      AliasedLosesBytes(mode, ecb, t, s, r);
      var back := if mode == Encrypt then Decrypt else Encrypt;
      XtsInverse(ecb, inv, t, s, mode, back);
      XtsInverse(ecb, inv, t, r, mode, back);
      assert s[n - 1] != r[n - 1];
      assert XtsUnit(mode, ecb, t, s) != XtsUnit(mode, ecb, t, r);
    }
  }

  // ---- the routine ----

  const MAX_LENGTH: nat := 0x10_0000 * 16

  /** The result the buffers receive: the standard one, or the aliased one when they are the same. */
  function UnitResult(aliased: bool, mode: Mode, ecb: Block -> Block, t: Block, s: seq<bv8>): (r: seq<bv8>)
    requires |s| == 0 || |s| >= 16
    ensures |r| == |s|
  {
    if aliased then AliasedUnit(mode, ecb, t, s) else XtsUnit(mode, ecb, t, s)
  }

  lemma UnitStep(aliased: bool, mode: Mode, ecb: Block -> Block, t: Block, s: seq<bv8>)
    requires |s| == 16 || |s| >= 32
    ensures UnitResult(aliased, mode, ecb, t, s) == Whiten(ecb, t, s[..16]) + UnitResult(aliased, mode, ecb, MulX(t), s[16..])
  {
  }

  // ---- the same, byte by byte ----

  /** The tweak of block j: the first one multiplied by x, j times. */
  function TweakAt(t: Block, j: nat): Block
  {
    if j == 0 then t else MulX(TweakAt(t, j - 1))
  }

  /** The bytes of y from q on are those of x from p on, masked, put through the block function, and masked again. */
  ghost predicate Enciphered(ecb: Block -> Block, t: Block, x: seq<bv8>, p: nat, y: seq<bv8>, q: nat)
    requires p + 16 <= |x| && q + 16 <= |y|
  {
    var b: Block := seq(16, k requires 0 <= k < 16 => x[p + k] ^ t[k]);
    forall i :: 0 <= i < 16 ==> y[q + i] == ecb(b)[i] ^ t[i]
  }

  /**
   The last whole block, at offset p, and the leftover bytes behind it, of which cc is the
   intermediate block. Encryption gives the whole block the earlier of the two tweaks, decryption
   the later one. In one buffer the leftover bytes have been replaced when they are read.
   */
  ghost predicate StolenPair(aliased: bool, mode: Mode, ecb: Block -> Block, now: Block, next: Block, x: seq<bv8>, y: seq<bv8>, p: nat, cc: Block)
    requires p + 16 <= |x| == |y| < p + 32
  {
    var l := |x| - p - 16;
    var joined: Block := seq(16, k requires 0 <= k < 16 => if k < l && !aliased then x[p + 16 + k] else cc[k]);
    && Enciphered(ecb, if mode == Encrypt then now else next, x, p, cc, 0)
    && Enciphered(ecb, if mode == Encrypt then next else now, joined, 0, y, p)
    && forall i :: 0 <= i < l ==> y[p + 16 + i] == cc[i]
  }

  ghost predicate Stolen(aliased: bool, mode: Mode, ecb: Block -> Block, now: Block, next: Block, x: seq<bv8>, y: seq<bv8>, p: nat)
    requires p + 16 <= |x| == |y| < p + 32
  {
    exists cc: Block :: StolenPair(aliased, mode, ecb, now, next, x, y, p, cc)
  }

  /** Blocks 0 to m - 1, each under its own tweak. */
  ghost predicate WholeBlocks(ecb: Block -> Block, t: Block, x: seq<bv8>, y: seq<bv8>, m: nat)
    requires 16 * m <= |x| == |y|
  {
    forall j: nat :: j < m ==> Enciphered(ecb, TweakAt(t, j), x, 16 * j, y, 16 * j)
  }

  /** How many blocks come before the last pair. */
  function BlocksBefore(n: nat): (m: nat)
    requires n == 0 || n >= 16
    ensures if n % 16 == 0 then 16 * m == n else 16 * m + 16 + n % 16 == n
  {
    if n % 16 == 0 then n / 16 else n / 16 - 1
  }

  /** y is the data unit x under the first tweak t, told by its bytes. */
  ghost predicate UnitBytes(aliased: bool, mode: Mode, ecb: Block -> Block, t: Block, x: seq<bv8>, y: seq<bv8>)
    requires |x| == |y| && (|x| == 0 || |x| >= 16)
  {
    var m := BlocksBefore(|x|);
    && WholeBlocks(ecb, t, x, y, m)
    && (|x| % 16 > 0 ==> Stolen(aliased, mode, ecb, TweakAt(t, m), TweakAt(t, m + 1), x, y, 16 * m))
  }

  lemma EncipheredIs(ecb: Block -> Block, t: Block, x: seq<bv8>, p: nat, y: seq<bv8>, q: nat)
    requires p + 16 <= |x| && q + 16 <= |y|
    ensures Enciphered(ecb, t, x, p, y, q) <==> y[q..q + 16] == Whiten(ecb, t, x[p..p + 16])
  {
    var b: Block := seq(16, k requires 0 <= k < 16 => x[p + k] ^ t[k]);
    assert b == Xor(x[p..p + 16], t);
    var w := Whiten(ecb, t, x[p..p + 16]);
    assert forall i :: 0 <= i < 16 ==> w[i] == ecb(b)[i] ^ t[i];
  }

  /** The tweaks of the blocks behind the first one. */
  lemma {:induction false} TweakBehind(t: Block, j: nat)
    ensures TweakAt(MulX(t), j) == TweakAt(t, j + 1)
  {
    hide MulX;
    if j > 0 { TweakBehind(t, j - 1); }
  }

  lemma EncipheredBehind(ecb: Block -> Block, t: Block, x: seq<bv8>, p: nat, y: seq<bv8>)
    requires p + 32 <= |x| == |y|
    ensures Enciphered(ecb, t, x[16..], p, y[16..], p) <==> Enciphered(ecb, t, x, p + 16, y, p + 16)
  {
    hide Whiten;
    EncipheredIs(ecb, t, x[16..], p, y[16..], p);
    EncipheredIs(ecb, t, x, p + 16, y, p + 16);
    assert x[16..][p..p + 16] == x[p + 16..p + 32] && y[16..][p..p + 16] == y[p + 16..p + 32];
  }

  /** The same in slices. */
  lemma StolenIs(aliased: bool, mode: Mode, ecb: Block -> Block, now: Block, next: Block, x: seq<bv8>, y: seq<bv8>, p: nat, cc: Block)
    requires p + 16 <= |x| == |y| < p + 32
    ensures var l := |x| - p - 16;
      var first, second := if mode == Encrypt then now else next, if mode == Encrypt then next else now;
      StolenPair(aliased, mode, ecb, now, next, x, y, p, cc)
      <==> && cc == Whiten(ecb, first, x[p..p + 16])
           && y[p..p + 16] == Whiten(ecb, second, (if aliased then cc[..l] else x[p + 16..]) + cc[l..])
           && y[p + 16..] == cc[..l]
  {
    hide Enciphered, Whiten;
    var l := |x| - p - 16;
    var joined: Block := seq(16, k requires 0 <= k < 16 => if k < l && !aliased then x[p + 16 + k] else cc[k]);
    JoinedIs(aliased, x, p, cc, joined);
    EncipheredIs(ecb, if mode == Encrypt then now else next, x, p, cc, 0);
    EncipheredIs(ecb, if mode == Encrypt then next else now, joined, 0, y, p);
    assert cc[0..16] == cc && joined[0..16] == joined;
    LeftoverIs(y, p, cc, l);
  }

  lemma JoinedIs(aliased: bool, x: seq<bv8>, p: nat, cc: Block, joined: Block)
    requires p + 16 <= |x| < p + 32
    requires forall k :: 0 <= k < 16 ==> joined[k] == if k < |x| - p - 16 && !aliased then x[p + 16 + k] else cc[k]
    ensures var l := |x| - p - 16; joined == (if aliased then cc[..l] else x[p + 16..]) + cc[l..]
  {
  }

  lemma LeftoverIs(y: seq<bv8>, p: nat, cc: Block, l: nat)
    requires p + 16 + l == |y| && l < 16
    ensures (forall i :: 0 <= i < l ==> y[p + 16 + i] == cc[i]) <==> y[p + 16..] == cc[..l]
  {
    if y[p + 16..] == cc[..l] {
      forall i | 0 <= i < l ensures y[p + 16 + i] == cc[i] {
        assert y[p + 16 + i] == y[p + 16..][i] && cc[i] == cc[..l][i];
      }
    }
  }

  lemma StolenBehind(aliased: bool, mode: Mode, ecb: Block -> Block, now: Block, next: Block, x: seq<bv8>, y: seq<bv8>, p: nat)
    requires p + 32 <= |x| == |y| < p + 48
    ensures Stolen(aliased, mode, ecb, now, next, x[16..], y[16..], p) <==> Stolen(aliased, mode, ecb, now, next, x, y, p + 16)
  {
    hide StolenPair, Whiten;
    var xs, ys, q := x[16..], y[16..], p + 16;
    assert xs[p..p + 16] == x[p + 16..p + 32] && ys[p..p + 16] == y[p + 16..p + 32];
    assert xs[p + 16..] == x[p + 32..] && ys[p + 16..] == y[p + 32..];
    if cc: Block :| StolenPair(aliased, mode, ecb, now, next, xs, ys, p, cc) {
      StolenIs(aliased, mode, ecb, now, next, xs, ys, p, cc);
      StolenIs(aliased, mode, ecb, now, next, x, y, q, cc);
    }
    if cc: Block :| StolenPair(aliased, mode, ecb, now, next, x, y, q, cc) {
      StolenIs(aliased, mode, ecb, now, next, xs, ys, p, cc);
      StolenIs(aliased, mode, ecb, now, next, x, y, q, cc);
    }
  }

  lemma WholeBehind(ecb: Block -> Block, t: Block, x: seq<bv8>, y: seq<bv8>, m: nat)
    requires 16 * m + 16 <= |x| == |y|
    ensures WholeBlocks(ecb, t, x, y, m + 1) <==> Enciphered(ecb, t, x, 0, y, 0) && WholeBlocks(ecb, MulX(t), x[16..], y[16..], m)
  {
    hide Enciphered, MulX;
    forall j: nat | j < m
      ensures Enciphered(ecb, TweakAt(MulX(t), j), x[16..], 16 * j, y[16..], 16 * j)
         <==> Enciphered(ecb, TweakAt(t, j + 1), x, 16 * (j + 1), y, 16 * (j + 1))
    {
      TweakBehind(t, j);
      EncipheredBehind(ecb, TweakAt(t, j + 1), x, 16 * j, y);
    }
    assert TweakAt(t, 0) == t;
    if WholeBlocks(ecb, t, x, y, m + 1) {
      assert Enciphered(ecb, TweakAt(t, 0), x, 16 * 0, y, 16 * 0);
      forall j: nat | j < m ensures Enciphered(ecb, TweakAt(MulX(t), j), x[16..], 16 * j, y[16..], 16 * j) {
        assert Enciphered(ecb, TweakAt(t, j + 1), x, 16 * (j + 1), y, 16 * (j + 1));
      }
    }
    if Enciphered(ecb, t, x, 0, y, 0) && WholeBlocks(ecb, MulX(t), x[16..], y[16..], m) {
      forall j: nat | j < m + 1 ensures Enciphered(ecb, TweakAt(t, j), x, 16 * j, y, 16 * j) {
        if j > 0 { assert Enciphered(ecb, TweakAt(MulX(t), j - 1), x[16..], 16 * (j - 1), y[16..], 16 * (j - 1)); }
      }
    }
  }

  /** The first block, and the unit behind it. */
  lemma UnitBehind(aliased: bool, mode: Mode, ecb: Block -> Block, t: Block, x: seq<bv8>, y: seq<bv8>)
    requires |x| == |y| && (|x| == 16 || |x| >= 32)
    ensures UnitBytes(aliased, mode, ecb, t, x, y)
       <==> Enciphered(ecb, t, x, 0, y, 0) && UnitBytes(aliased, mode, ecb, MulX(t), x[16..], y[16..])
  {
    hide Enciphered, Stolen, MulX, WholeBlocks, TweakAt;
    var m: nat := BlocksBefore(|x|) - 1;
    assert BlocksBefore(|x[16..]|) == m;
    WholeBehind(ecb, t, x, y, m);
    if |x| % 16 > 0 {
      TweakBehind(t, m);
      TweakBehind(t, m + 1);
      StolenBehind(aliased, mode, ecb, TweakAt(t, m + 1), TweakAt(t, m + 2), x, y, 16 * m);
    }
  }

  /** One block and leftover bytes. */
  lemma PairIs(aliased: bool, mode: Mode, ecb: Block -> Block, t: Block, x: seq<bv8>, y: seq<bv8>)
    requires 16 < |x| == |y| < 32
    ensures UnitBytes(aliased, mode, ecb, t, x, y) <==> y == UnitResult(aliased, mode, ecb, t, x)
  {
    hide StolenPair, Whiten, MulX;
    var l := |x| - 16;
    var now, next := TweakAt(t, 0), TweakAt(t, 1);
    assert now == t && next == MulX(t) by { assert TweakAt(t, 1) == MulX(TweakAt(t, 0)); }
    var first, second := if mode == Encrypt then t else MulX(t), if mode == Encrypt then MulX(t) else t;
    var cc := Whiten(ecb, first, x[..16]);
    assert cc == cc[..l] + cc[l..];
    var r := UnitResult(aliased, mode, ecb, t, x);
    assert r == Whiten(ecb, second, (if aliased then cc[..l] else x[16..]) + cc[l..]) + cc[..l];
    assert x[0..16] == x[..16] && y == y[0..16] + y[16..];
    forall c: Block ensures StolenPair(aliased, mode, ecb, now, next, x, y, 0, c) <==> c == cc && y == r {
      StolenIs(aliased, mode, ecb, now, next, x, y, 0, c);
    }
    assert UnitBytes(aliased, mode, ecb, t, x, y) <==> Stolen(aliased, mode, ecb, now, next, x, y, 0);
    if y == r { assert StolenPair(aliased, mode, ecb, now, next, x, y, 0, cc); }
  }

  /**
   What the routine computes, told by its bytes: every whole block j in front of the last pair is
   masked with the j-th tweak, and the last pair trades bytes under the two tweaks that follow.
   These bytes are the result, and nothing else is.
   */
  lemma {:induction false} UnitExact(aliased: bool, mode: Mode, ecb: Block -> Block, t: Block, x: seq<bv8>, y: seq<bv8>)
    requires |x| == |y| && (|x| == 0 || |x| >= 16)
    ensures UnitBytes(aliased, mode, ecb, t, x, y) <==> y == UnitResult(aliased, mode, ecb, t, x)
    decreases |x|
  {
    hide Whiten, MulX, UnitResult, UnitBytes, Enciphered;
    if |x| == 0 {
      NothingToDo(aliased, mode, ecb, t, x, y);
    } else if 16 < |x| < 32 {
      PairIs(aliased, mode, ecb, t, x, y);
    } else {
      UnitBehind(aliased, mode, ecb, t, x, y);
      UnitExact(aliased, mode, ecb, MulX(t), x[16..], y[16..]);
      UnitStep(aliased, mode, ecb, t, x);
      EncipheredIs(ecb, t, x, 0, y, 0);
      assert x[0..16] == x[..16] && y == y[0..16] + y[16..];
      var w: seq<bv8>, r := Whiten(ecb, t, x[..16]), UnitResult(aliased, mode, ecb, MulX(t), x[16..]);
      assert (w + r)[0..16] == w && (w + r)[16..] == r;
    }
  }

  lemma NothingToDo(aliased: bool, mode: Mode, ecb: Block -> Block, t: Block, x: seq<bv8>, y: seq<bv8>)
    requires x == y == []
    ensures UnitBytes(aliased, mode, ecb, t, x, y) && y == UnitResult(aliased, mode, ecb, t, x)
  {
  }

  /** tmp[i] = a[off + i] ^ t[i] for a whole block. */
  method MaskBlock(a: array<bv8>, off: nat, t: Block) returns (tmp: Block)
    requires off + 16 <= a.Length
    ensures tmp == Xor(a[off..off + 16], t)
  {
    tmp := seq(16, _ => 0);
    var i := 0;
    while i < 16
      invariant 0 <= i <= 16
      invariant forall k :: 0 <= k < i ==> tmp[k] == a[off + k] ^ t[k]
    {
      tmp := tmp[i := a[off + i] ^ t[i]];
      i := i + 1;
    }
  }

  /** a[off + i] = tmp[i] ^ t[i] for a whole block. */
  method StoreMasked(a: array<bv8>, off: nat, tmp: Block, t: Block)
    requires off + 16 <= a.Length
    modifies a
    ensures a[..] == old(a[..off]) + Xor(tmp, t) + old(a[off + 16..])
  {
    var i := 0;
    while i < 16
      invariant 0 <= i <= 16
      invariant forall k :: 0 <= k < a.Length && !(off <= k < off + i) ==> a[k] == old(a[k])
      invariant forall k :: 0 <= k < i ==> a[off + k] == tmp[k] ^ t[k]
    {
      a[off + i] := tmp[i] ^ t[i];
      i := i + 1;
    }
  }

  /** One full block at offset pos. */
  method CryptBlock(ecb: Block -> Block, t: Block, input: array<bv8>, output: array<bv8>, pos: nat)
    requires input.Length == output.Length && pos + 16 <= input.Length
    modifies output
    ensures output[..] == old(output[..pos]) + Whiten(ecb, t, old(input[pos..pos + 16])) + old(output[pos + 16..])
  {
    var tmp := MaskBlock(input, pos, t);
    tmp := ecb(tmp);
    StoreMasked(output, pos, tmp, t);
  }

  /** Copy the bytes not stolen and mask the input bytes, one byte at a time; when the buffers are one, the input byte is gone before it is read. */
  method StealLow(t: Block, input: array<bv8>, output: array<bv8>, pos: nat, leftover: nat) returns (tmp: Block)
    requires input.Length == output.Length == pos + leftover && 16 <= pos && 0 < leftover < 16
    modifies output
    ensures output[..] == old(output[..pos]) + old(output[pos - 16..pos - 16 + leftover])
    ensures forall k :: 0 <= k < leftover ==>
              tmp[k] == (if input == output then old(output[pos - 16 + k]) else old(input[pos + k])) ^ t[k]
  {
    tmp := seq(16, _ => 0);
    var i := 0;
    while i < leftover
      invariant 0 <= i <= leftover
      invariant forall k :: 0 <= k < pos ==> output[k] == old(output[k])
      invariant forall k :: pos <= k < pos + i ==> output[k] == old(output[k - 16])
      invariant forall k :: 0 <= k < i ==>
                  tmp[k] == (if input == output then old(output[pos - 16 + k]) else old(input[pos + k])) ^ t[k]
    {
      output[pos + i] := output[pos - 16 + i];
      tmp := tmp[i := input[pos + i] ^ t[i]];
      i := i + 1;
    }
  }

  /** Fill the rest of the block from the previous output. */
  method StealHigh(t: Block, output: array<bv8>, pos: nat, leftover: nat, tmp0: Block) returns (tmp: Block)
    requires 16 <= pos <= output.Length && leftover < 16
    ensures tmp[..leftover] == tmp0[..leftover]
    ensures forall k :: leftover <= k < 16 ==> tmp[k] == output[pos - 16 + k] ^ t[k]
  {
    tmp := tmp0;
    var i := leftover;
    while i < 16
      invariant leftover <= i <= 16 && tmp[..leftover] == tmp0[..leftover]
      invariant forall k :: leftover <= k < i ==> tmp[k] == output[pos - 16 + k] ^ t[k]
    {
      tmp := tmp[i := output[pos - 16 + i] ^ t[i]];
      i := i + 1;
    }
  }

  /** Ciphertext stealing at offset pos. */
  method Steal(ecb: Block -> Block, t: Block, input: array<bv8>, output: array<bv8>, pos: nat, leftover: nat)
    requires input.Length == output.Length == pos + leftover && 16 <= pos && 0 < leftover < 16
    modifies output
    ensures
      var cc := old(output[pos - 16..pos]);
      var stolen := if input == output then cc[..leftover] else old(input[pos..]);
      output[..] == old(output[..pos - 16]) + Whiten(ecb, t, stolen + cc[leftover..]) + cc[..leftover]
  {
    ghost var o, src := output[..], input[pos..];
    ghost var cc := o[pos - 16..pos];
    ghost var stolen := if input == output then cc[..leftover] else src;
    var low := StealLow(t, input, output, pos, leftover);
    var tmp := StealHigh(t, output, pos, leftover, low);
    StolenBlock(tmp, low, stolen, cc, t, leftover);
    tmp := ecb(tmp);
    StoreMasked(output, pos - 16, tmp, t);
  }

  lemma StolenBlock(tmp: Block, low: Block, stolen: seq<bv8>, cc: Block, t: Block, leftover: nat)
    requires leftover < 16 && |stolen| == leftover && tmp[..leftover] == low[..leftover]
    requires forall k :: 0 <= k < leftover ==> low[k] == stolen[k] ^ t[k]
    requires forall k :: leftover <= k < 16 ==> tmp[k] == cc[k] ^ t[k]
    ensures tmp == Xor(stolen + cc[leftover..], t)
  {
    var j := stolen + cc[leftover..];
    forall k | 0 <= k < 16 ensures tmp[k] == j[k] ^ t[k] {
      if k < leftover {
        assert tmp[..leftover][k] == low[..leftover][k];
      }
    }
  }

  /** The block loop, up to the last block when leftover bytes follow it. */
  method FullBlocks(mode: Mode, ecb: Block -> Block, t0: Block, input: array<bv8>, output: array<bv8>)
    returns (tweak: Block, pos: nat)
    requires input.Length == output.Length >= 16
    modifies output
    ensures pos + (if input.Length % 16 > 0 then 16 + input.Length % 16 else 0) == input.Length
    ensures input[pos..] == old(input[..])[pos..]
    ensures UnitResult(input == output, mode, ecb, t0, old(input[..]))
         == output[..pos] + UnitResult(input == output, mode, ecb, tweak, old(input[..])[pos..])
  {
    hide Whiten, XtsUnit, AliasedUnit, UnitResult, MulX;
    ghost var s, aliased := input[..], input == output;
    var blocks, leftover := input.Length / 16, input.Length % 16;
    tweak, pos := t0, 0;
    assert s[0..] == s;
    while blocks > (if leftover > 0 then 1 else 0)
      invariant pos + 16 * blocks + leftover == input.Length && (leftover > 0 ==> blocks >= 1) && blocks >= 0
      invariant input[pos..] == s[pos..]
      invariant UnitResult(aliased, mode, ecb, t0, s) == output[..pos] + UnitResult(aliased, mode, ecb, tweak, s[pos..])
    {
      UnitStep(aliased, mode, ecb, tweak, s[pos..]);
      ghost var o, u := output[..pos], s[pos..];
      assert input[pos..pos + 16] == input[pos..][..16];
      CryptBlock(ecb, tweak, input, output, pos);
      AdvanceBlock(s, pos);
      assert output[..pos + 16] == o + Whiten(ecb, tweak, u[..16]);
      assert input[pos + 16..] == s[pos + 16..];
      tweak := MulX(tweak);
      blocks := blocks - 1;
      pos := pos + 16;
    }
  }

  /** mbedtls_aes_crypt_xts, for buffers that are either disjoint or the same one. */
  method CryptXts(mode: Mode, ecb: Block -> Block, tweakEcb: Block -> Block, dataUnit: Block, input: array<bv8>, output: array<bv8>)
    returns (ret: Status)
    requires input.Length == output.Length
    modifies output
    ensures ret == if 16 <= input.Length <= MAX_LENGTH then Ok else InvalidInputLength
    ensures ret == Ok ==> output[..] == UnitResult(input == output, mode, ecb, tweakEcb(dataUnit), old(input[..]))
    ensures ret == Ok ==> UnitBytes(input == output, mode, ecb, tweakEcb(dataUnit), old(input[..]), output[..])
    ensures ret != Ok ==> output[..] == old(output[..])
  {
    if input.Length < 16 || input.Length > MAX_LENGTH {
      return InvalidInputLength;
    }
    hide Whiten, XtsUnit, AliasedUnit, UnitResult, UnitBytes, MulX;
    ghost var s := input[..];
    var tweak, pos := FullBlocks(mode, ecb, tweakEcb(dataUnit), input, output);
    var leftover := input.Length % 16;
    if leftover > 0 {
      LastPair(mode, ecb, tweak, input, output, pos, leftover);
    } else {
      EmptyUnit(input == output, mode, ecb, tweak, s[pos..]);
      assert output[..pos] == output[..];
    }
    UnitExact(input == output, mode, ecb, tweakEcb(dataUnit), s, output[..]);
    return Ok;
  }

  lemma AdvanceBlock(s: seq<bv8>, pos: nat)
    requires pos + 16 <= |s|
    ensures s[pos..][16..] == s[pos + 16..]
  {
  }

  lemma EmptyUnit(aliased: bool, mode: Mode, ecb: Block -> Block, t: Block, s: seq<bv8>)
    requires |s| == 0
    ensures UnitResult(aliased, mode, ecb, t, s) == []
  {
  }

  /**
   The last full block and the leftover bytes. Decryption uses the following tweak for the
   full block and keeps the current one for the leftovers.
   */
  method LastPair(mode: Mode, ecb: Block -> Block, tweak: Block, input: array<bv8>, output: array<bv8>, pos: nat, leftover: nat)
    requires input.Length == output.Length == pos + 16 + leftover && 0 < leftover < 16
    modifies output
    ensures output[..] == old(output[..pos]) + UnitResult(input == output, mode, ecb, tweak, old(input[pos..]))
  {
    hide Whiten, MulX;
    ghost var s, o := input[pos..], output[..pos];
    var prevTweak := tweak;
    var t := tweak;
    if mode == Decrypt {
      t := MulX(t);
    }
    assert input[pos..pos + 16] == s[..16];
    CryptBlock(ecb, t, input, output, pos);
    ghost var cc := Whiten(ecb, t, s[..16]);
    t := MulX(t);
    assert output[..pos] == o && output[pos..pos + 16] == cc;
    assert input != output ==> input[pos + 16..] == s[16..];
    assert cc[..leftover] + cc[leftover..] == cc;
    Steal(ecb, if mode == Decrypt then prevTweak else t, input, output, pos + 16, leftover);
  }
}
