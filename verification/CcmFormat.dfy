/**
 What CCM* authenticates, byte by byte: the tag is the masked CBC-MAC of one byte string, whose
 layout is that of section A.2 of NIST SP 800-38C, and no two inputs share such a string.
 */
module CcmFormat {
  import opened Blocks
  import opened Ccm

  /** CBC-MAC over whole blocks, from a chaining value of zeros. */
  function CbcMac(ecb: Block -> Block, f: seq<bv8>): Block
    requires |f| % 16 == 0
    decreases |f|
  {
    if f == [] then seq(16, _ => 0)
    else
      var y := CbcMac(ecb, f[..|f| - 16]);
      var b: Block := seq(16, k requires 0 <= k < 16 => y[k] ^ f[|f| - 16 + k]);
      ecb(b)
  }

  /** n rounded up to whole blocks. */
  function Whole(n: nat): (w: nat)
    ensures w % 16 == 0 && n <= w < n + 16
  {
    (n + 15) / 16 * 16
  }

  /** How long the associated data is with its two length bytes and its padding. */
  function HeaderLength(addLen: nat): (w: nat)
    ensures w % 16 == 0 && (addLen > 0 ==> addLen + 2 <= w)
  {
    if addLen == 0 then 0 else Whole(2 + addLen)
  }

  /** Bit 6 tells that there is associated data, bits 3 to 5 the tag length, bits 0 to 2 the length of the length field. */
  predicate FlagByte(b: bv8, ivLen: nat, addLen: nat, tagLen: nat)
  {
    b as int == (if tagLen == 0 then 248 else (if addLen > 0 then 64 else 0) + (tagLen - 2) / 2 * 8) + (15 - ivLen - 1)
  }

  /**
   The layout: flags, nonce, message length; when there is associated data, its length in two
   bytes, the data and zeros up to a whole block; then the message and zeros up to a whole block.
   */
  predicate Formatted(f: seq<bv8>, iv: seq<bv8>, add: seq<bv8>, msg: seq<bv8>, tagLen: nat)
    requires 7 <= |iv| <= 13
  {
    var h := 16 + HeaderLength(|add|);
    && |f| == h + Whole(|msg|) && |f| % 16 == 0
    && FlagByte(f[0], |iv|, |add|, tagLen)
    && f[1..1 + |iv|] == iv
    && BeVal(f[1 + |iv|..16]) == |msg|
    && (add != [] ==> BeVal(f[16..18]) == |add| && f[18..18 + |add|] == add && forall i :: 18 + |add| <= i < h ==> f[i] == 0)
    && f[h..h + |msg|] == msg
    && forall i :: h + |msg| <= i < |f| ==> f[i] == 0
  }

  // ---- numbers in bytes ----

  lemma BeValAppend(s: seq<bv8>, b: bv8)
    ensures BeVal(s + [b]) == 256 * BeVal(s) + b as nat
  {
    assert (s + [b])[..|s + [b]| - 1] == s;
  }

  lemma SameBytes(h: nat, k: nat, a: bv8, b: bv8)
    requires 256 * h + a as nat == 256 * k + b as nat
    ensures h == k && a == b
  {
  }

  lemma {:induction false} BeValInjective(a: seq<bv8>, b: seq<bv8>)
    requires |a| == |b| && BeVal(a) == BeVal(b)
    ensures a == b
  {
    hide BeVal;
    if a != [] {
      var n := |a| - 1;
      assert a == a[..n] + [a[n]] && b == b[..n] + [b[n]];
      BeValAppend(a[..n], a[n]);
      BeValAppend(b[..n], b[n]);
      SameBytes(BeVal(a[..n]), BeVal(b[..n]), a[n], b[n]);
      BeValInjective(a[..n], b[..n]);
    }
  }

  lemma {:induction false} ByteBack(r: nat)
    requires r < 256
    ensures (r as bv8) as nat == r
  {
    var b := ByteOf(r);
    BackAndForth(b);
  }

  lemma {:induction false} ByteOf(r: nat) returns (b: bv8)
    requires r < 256
    ensures b as nat == r
  {
    if r == 0 {
      b := 0;
    } else {
      b := ByteOf(r - 1);
      NotLast(b);
      NextByte(b);
      b := b + 1;
    }
  }

  lemma NotLast(b: bv8)
    requires b as nat < 255
    ensures b + 1 != 0
  {
  }

  lemma BackAndForth(b: bv8)
    ensures (b as nat) as bv8 == b
  {
  }

  lemma {:induction false} BigEndianValue(n: nat, q: nat)
    requires n < Pow256(q)
    ensures BeVal(BigEndian(n, q)) == n
  {
    if q > 0 {
      DropByte(n, q);
      hide Pow256, BeVal;
      BigEndianValue(n / 256, q - 1);
      BeValAppend(BigEndian(n / 256, q - 1), (n % 256) as bv8);
      ByteBack(n % 256);
      assert n == 256 * (n / 256) + n % 256;
    } else {
      NoBytes(n);
    }
  }

  lemma TwoBytes(n: nat)
    requires n < 0x1_0000
    ensures BeVal([(n / 256) as bv8, (n % 256) as bv8]) == n
  {
    var h, l := n / 256, (n % 256) as bv8;
    assert BeVal([]) == 0;
    hide BeVal;
    ByteBack(h);
    ByteBack(n % 256);
    BeValAppend([], h as bv8);
    BeValAppend([h as bv8], l);
    assert [] + [h as bv8] == [h as bv8] && [h as bv8] + [l] == [h as bv8, l];
  }

  /** Tag lengths 4 to 16 leave bit 6 to the presence flag; a zero tag length sets all bits from 3 on. */
  lemma FlagsAre(ivLen: nat, addLen: nat, tagLen: nat)
    requires 7 <= ivLen <= 13 && tagLen != 2 && tagLen <= 16 && tagLen % 2 == 0
    ensures FlagByte((if addLen > 0 then 0x40 else 0) | TagField(tagLen) | ((15 - ivLen - 1) as bv8), ivLen, addLen, tagLen)
  {
    var t := if tagLen == 0 then 31 else (tagLen - 2) / 2;
    assert TagField(tagLen) == TagBits(t);
    OrFlags(addLen > 0, t, 15 - ivLen - 1);
  }

  function TagBits(t: nat): bv8
    requires t < 32
  {
    (t as bv8) << 3
  }

  lemma OrFlags(present: bool, t: nat, q: nat)
    requires (t < 8 || t == 31) && q < 8
    ensures ((if present then 0x40 else 0 as bv8) | TagBits(t) | (q as bv8)) as int
         == (if t == 31 then 248 else (if present then 64 else 0) + t * 8) + q
  {
    FieldValue(t);
    ByteBack(t);
    ByteBack(q);
    FieldBits(t as bv8);
    LowBits(if present then 0x40 else 0, TagBits(t), q as bv8);
  }

  lemma FieldBits(t: bv8)
    requires t as nat < 8 || t as nat == 31
    ensures (t << 3) & 7 == 0 && (if t as nat == 31 then t << 3 == 0xF8 else t << 3 < 0x40)
  {
  }

  lemma FieldValue(t: nat)
    requires t < 8 || t == 31
    ensures TagBits(t) as int == t * 8
  {
    if t == 0 {} else if t == 1 {} else if t == 2 {} else if t == 3 {} else if t == 4 {} else if t == 5 {}
    else if t == 6 {} else if t == 7 {} else {}
  }

  lemma LowBits(p: bv8, t: bv8, q: bv8)
    requires (p == 0 || p == 0x40) && t & 7 == 0 && q as nat < 8 && (t < 0x40 || t == 0xF8)
    ensures (p | t | q) as int == (if t == 0xF8 then 248 else p as int + t as int) + q as int
  {
  }

  // ---- there is one such string, and it determines the input ----

  function Zeros(n: nat): (z: seq<bv8>)
    ensures |z| == n && forall i :: 0 <= i < n ==> z[i] == 0
  {
    seq(n, _ => 0)
  }

  function Filled(s: seq<bv8>): (r: seq<bv8>)
    ensures |r| == Whole(|s|) && r[..|s|] == s && forall i :: |s| <= i < |r| ==> r[i] == 0
  {
    s + Zeros(Whole(|s|) - |s|)
  }

  function Header(add: seq<bv8>): (r: seq<bv8>)
    requires |add| <= 0xFF00
    ensures |r| == HeaderLength(|add|)
  {
    if add == [] then [] else Filled(AddHeader(add))
  }

  /** The first block and the associated data. */
  function Front(b: Block, add: seq<bv8>): (f: seq<bv8>)
    requires |add| <= 0xFF00
    ensures |f| % 16 == 0
  {
    b + Header(add)
  }

  function Format(iv: seq<bv8>, add: seq<bv8>, msg: seq<bv8>, tagLen: nat): (f: seq<bv8>)
    requires 7 <= |iv| <= 13 && tagLen <= 16 && |add| <= 0xFF00
  {
    Front(FirstBlock(iv, |add|, |msg|, tagLen), add) + Filled(msg)
  }

  lemma FirstFormatted(iv: seq<bv8>, add: seq<bv8>, length: nat, tagLen: nat)
    requires Admissible(|iv|, |add|, length, tagLen)
    ensures var b := FirstBlock(iv, |add|, length, tagLen);
      FlagByte(b[0], |iv|, |add|, tagLen) && b[1..1 + |iv|] == iv && BeVal(b[1 + |iv|..]) == length
  {
    hide BeVal, FlagByte, TagField, BigEndian;
    var q := 15 - |iv|;
    FlagsAre(|iv|, |add|, tagLen);
    BigEndianValue(length, q);
    var b := FirstBlock(iv, |add|, length, tagLen);
    assert b[1 + |iv|..] == BigEndian(length, q);
  }

  lemma HeaderFormatted(add: seq<bv8>)
    requires 0 < |add| <= 0xFF00
    ensures var r := Header(add);
      && |r| >= 2 + |add| && BeVal(r[0..2]) == |add| && r[2..2 + |add|] == add
      && forall i :: 2 + |add| <= i < |r| ==> r[i] == 0
  {
    hide BeVal;
    var r, h := Header(add), AddHeader(add);
    TwoBytes(|add|);
    assert r[..2 + |add|] == h;
    assert r[0..2] == h[..2] && h[..2] == [(|add| / 256) as bv8, (|add| % 256) as bv8];
    assert r[2..2 + |add|] == h[2..] == add;
  }

  /** For every admissible input there is a string of this layout. */
  lemma FormatExists(iv: seq<bv8>, add: seq<bv8>, msg: seq<bv8>, tagLen: nat)
    requires Admissible(|iv|, |add|, |msg|, tagLen)
    ensures Formatted(Format(iv, add, msg, tagLen), iv, add, msg, tagLen)
  {
    hide BeVal, FlagByte, FirstBlock, Header, Filled, AddHeader;
    FirstFormatted(iv, add, |msg|, tagLen);
    if add != [] { HeaderFormatted(add); }
    JoinedFormatted(FirstBlock(iv, |add|, |msg|, tagLen), Header(add), Filled(msg), iv, add, msg, tagLen);
  }

  lemma JoinedFormatted(b: Block, h: seq<bv8>, m: seq<bv8>, iv: seq<bv8>, add: seq<bv8>, msg: seq<bv8>, tagLen: nat)
    requires 7 <= |iv| <= 13 && |h| == HeaderLength(|add|) && |m| == Whole(|msg|)
    requires FlagByte(b[0], |iv|, |add|, tagLen) && b[1..1 + |iv|] == iv && BeVal(b[1 + |iv|..]) == |msg|
    requires add != [] ==> BeVal(h[0..2]) == |add| && h[2..2 + |add|] == add && forall i :: 2 + |add| <= i < |h| ==> h[i] == 0
    requires m[..|msg|] == msg && forall i :: |msg| <= i < |m| ==> m[i] == 0
    ensures Formatted(b + h + m, iv, add, msg, tagLen)
  {
    hide BeVal, FlagByte, HeaderLength, Whole;
    var f := b + h + m;
    assert f[1..1 + |iv|] == b[1..1 + |iv|] && f[1 + |iv|..16] == b[1 + |iv|..];
    if add != [] {
      assert f[16..18] == h[0..2];
      assert forall k :: 0 <= k < |h| ==> f[16 + k] == h[k];
      assert f[18..18 + |add|] == h[2..2 + |add|];
      forall i | 18 + |add| <= i < 16 + |h| ensures f[i] == 0 { assert f[i] == h[i - 16]; }
    }
    var e := 16 + |h|;
    assert f[e..e + |msg|] == m[..|msg|];
    forall i | e + |msg| <= i < |f| ensures f[i] == 0 { assert f[i] == m[i - e]; }
  }

  /** It is the only one. */
  lemma FormatUnique(f: seq<bv8>, g: seq<bv8>, iv: seq<bv8>, add: seq<bv8>, msg: seq<bv8>, tagLen: nat)
    requires 7 <= |iv| <= 13 && Formatted(f, iv, add, msg, tagLen) && Formatted(g, iv, add, msg, tagLen)
    ensures f == g
  {
    hide BeVal, HeaderLength, Whole;
    var n, h := 1 + |iv|, 16 + HeaderLength(|add|);
    BeValInjective(f[n..16], g[n..16]);
    SameSlice(f, g, 1, n);
    SameSlice(f, g, n, 16);
    if add != [] {
      BeValInjective(f[16..18], g[16..18]);
      SameSlice(f, g, 16, 18);
      SameSlice(f, g, 18, 18 + |add|);
    } else {
      NoHeader();
    }
    SameSlice(f, g, h, h + |msg|);
  }

  lemma NoHeader()
    ensures HeaderLength(0) == 0
  {
  }

  lemma SameSlice(f: seq<bv8>, g: seq<bv8>, a: nat, b: nat)
    requires a <= b <= |f| && b <= |g| && f[a..b] == g[a..b]
    ensures forall k :: a <= k < b ==> f[k] == g[k]
  {
    forall k | a <= k < b ensures f[k] == g[k] { assert f[k] == f[a..b][k - a] && g[k] == g[a..b][k - a]; }
  }

  lemma FlagsTell(b: bv8, i: nat, a: nat, t: nat, j: nat, c: nat, u: nat)
    requires 7 <= i <= 13 && 7 <= j <= 13 && t != 2 && u != 2 && t <= 16 && u <= 16 && t % 2 == 0 && u % 2 == 0
    requires FlagByte(b, i, a, t) && FlagByte(b, j, c, u)
    ensures i == j && t == u && (t > 0 ==> (a > 0 <==> c > 0))
  {
    var x := b as int;
    var s, r := if t == 0 then 31 else (t - 2) / 2, if u == 0 then 31 else (u - 2) / 2;
    assert t > 0 ==> t == 2 * s + 2 && s <= 7;
    assert u > 0 ==> u == 2 * r + 2 && r <= 7;
    var p, q := if t > 0 && a > 0 then 1 else 0, if u > 0 && c > 0 then 1 else 0;
    assert x == 64 * p + 8 * s + (14 - i) && x == 64 * q + 8 * r + (14 - j);
    FieldsTell(p, s, 14 - i, q, r, 14 - j);
  }

  lemma FieldsTell(p: nat, s: nat, i: nat, q: nat, r: nat, j: nat)
    requires 64 * p + 8 * s + i == 64 * q + 8 * r + j && p < 2 && q < 2 && i < 8 && j < 8
    requires (s < 8 || (s == 31 && p == 0)) && (r < 8 || (r == 31 && q == 0))
    ensures p == q && s == r && i == j
  {
  }

  /**
   Inputs that share their string are the same inputs: nonce, associated data, message and tag
   length. With a tag no string is even the start of another one.
   */
  lemma {:induction false} FormatTells(f: seq<bv8>, g: seq<bv8>, iv: seq<bv8>, add: seq<bv8>, msg: seq<bv8>, t: nat, jv: seq<bv8>, bdd: seq<bv8>, nsg: seq<bv8>, u: nat)
    requires Admissible(|iv|, |add|, |msg|, t) && Formatted(f, iv, add, msg, t)
    requires Admissible(|jv|, |bdd|, |nsg|, u) && Formatted(g, jv, bdd, nsg, u)
    requires f <= g && (t > 0 || |f| == |g|)
    ensures iv == jv && add == bdd && msg == nsg && t == u && f == g
  {
    hide BeVal, Whole, HeaderLength, Pow256, FlagByte;
    assert forall k :: 0 <= k < |f| ==> f[k] == g[k];
    FlagsTell(f[0], |iv|, |add|, t, |jv|, |bdd|, u);
    var n := 1 + |iv|;
    SliceOf(f, g, 1, n);
    SliceOf(f, g, n, 16);
    HeadersTell(f, g, iv, add, msg, t, bdd, nsg);
    var h := 16 + HeaderLength(|add|);
    SliceOf(f, g, h, h + |msg|);
  }

  lemma SliceOf(f: seq<bv8>, g: seq<bv8>, a: nat, b: nat)
    requires f <= g && a <= b <= |f|
    ensures f[a..b] == g[a..b]
  {
  }

  /** The associated data, once nonce and message length agree. */
  lemma HeadersTell(f: seq<bv8>, g: seq<bv8>, iv: seq<bv8>, add: seq<bv8>, msg: seq<bv8>, t: nat, bdd: seq<bv8>, nsg: seq<bv8>)
    requires 7 <= |iv| <= 13 && |msg| == |nsg| && f <= g && (t > 0 ==> (|add| > 0 <==> |bdd| > 0)) && (t > 0 || |f| == |g|)
    requires Formatted(f, iv, add, msg, t) && Formatted(g, iv, bdd, nsg, t)
    ensures add == bdd
  {
    hide BeVal, Whole;
    if add != [] && bdd != [] {
      SliceOf(f, g, 16, 18);
      SliceOf(f, g, 18, 18 + |add|);
    }
  }

  // ---- the tag ----

  /** Absorbing a block. */
  lemma CbcMacBlock(ecb: Block -> Block, f: seq<bv8>, b: Block)
    requires |f| % 16 == 0
    ensures CbcMac(ecb, f + b) == ecb(Xor(CbcMac(ecb, f), b))
  {
    var g := f + b;
    assert g[..|g| - 16] == f;
    var y := CbcMac(ecb, f);
    var x: Block := seq(16, k requires 0 <= k < 16 => y[k] ^ g[|g| - 16 + k]);
    assert x == Xor(y, b);
  }

  lemma FilledSplit(s: seq<bv8>)
    requires s != []
    ensures var k := if |s| < 16 then |s| else 16; Filled(s) == Padded(s[..k]) + Filled(s[k..])
  {
    var k := if |s| < 16 then |s| else 16;
    var l: seq<bv8> := Padded(s[..k]) + Filled(s[k..]);
    assert |l| == Whole(|s|);
    forall i | 0 <= i < |l| ensures Filled(s)[i] == l[i] {
      if i < |s| {
        assert Filled(s)[i] == Filled(s)[..|s|][i] == s[i];
        if i >= 16 { assert Filled(s[k..])[i - 16] == Filled(s[k..])[..|s| - 16][i - 16] == s[i]; }
      }
    }
  }

  lemma WholeNone()
    ensures Whole(0) == 0
  {
  }

  lemma MacStep(ecb: Block -> Block, y: Block, data: seq<bv8>, k: nat)
    requires data != [] && k == if |data| < 16 then |data| else 16
    ensures Mac(ecb, y, data) == Mac(ecb, ecb(Xor(y, Padded(data[..k]))), data[k..])
  {
    hide Xor, Padded;
  }

  /** Absorbing data block by block, the last block filled up with zeros, is absorbing the filled data. */
  lemma {:induction false} MacIsCbc(ecb: Block -> Block, f: seq<bv8>, data: seq<bv8>)
    requires |f| % 16 == 0
    ensures Mac(ecb, CbcMac(ecb, f), data) == CbcMac(ecb, f + Filled(data))
    decreases |data|
  {
    hide CbcMac, Filled, Mac, Xor, Padded, Whole;
    if data == [] {
      assert |Filled(data)| == 0 by { WholeNone(); }
      assert f + Filled(data) == f;
      MacDone(ecb, CbcMac(ecb, f), data);
    } else {
      var k := if |data| < 16 then |data| else 16;
      var b := Padded(data[..k]);
      FilledSplit(data);
      MacStep(ecb, CbcMac(ecb, f), data, k);
      CbcMacBlock(ecb, f, b);
      MacIsCbc(ecb, f + b, data[k..]);
      assert f + (b + Filled(data[k..])) == (f + b) + Filled(data[k..]);
    }
  }

  lemma HeaderMacIsCbc(ecb: Block -> Block, iv: seq<bv8>, add: seq<bv8>, length: nat, tagLen: nat)
    requires 7 <= |iv| <= 13 && tagLen <= 16 && |add| <= 0xFF00
    ensures HeaderMac(ecb, iv, add, length, tagLen) == CbcMac(ecb, Front(FirstBlock(iv, |add|, length, tagLen), add))
  {
    hide CbcMac, Filled, FirstBlock, Mac, AddHeader, Xor, Whole, HeaderLength, ZeroBlock;
    var b := FirstBlock(iv, |add|, length, tagLen);
    FirstMac(ecb, b);
    if add == [] {
      assert Header(add) == [];
      var s: seq<bv8> := b;
      assert s + [] == s;
    } else {
      MacIsCbc(ecb, b, AddHeader(add));
    }
  }

  lemma FirstMac(ecb: Block -> Block, b: Block)
    ensures ecb(Xor(ZeroBlock(), b)) == CbcMac(ecb, b)
  {
    hide CbcMac, Xor;
    NoBlocks(ecb);
    CbcMacBlock(ecb, [], b);
    var s: seq<bv8> := b;
    assert [] + s == s;
  }

  lemma NoBlocks(ecb: Block -> Block)
    ensures CbcMac(ecb, []) == ZeroBlock()
  {
  }

  /** Counter block: flags, nonce, and the number in the remaining bytes. */
  predicate Numbered(c: Block, iv: seq<bv8>, n: nat)
    requires 7 <= |iv| <= 13
  {
    c[0] as int == 15 - |iv| - 1 && c[1..1 + |iv|] == iv && BeVal(c[1 + |iv|..]) == n
  }

  lemma {:induction false} NumberedUnique(c: Block, d: Block, iv: seq<bv8>, n: nat)
    requires 7 <= |iv| <= 13 && Numbered(c, iv, n) && Numbered(d, iv, n)
    ensures c == d
  {
    hide BeVal;
    BeValInjective(c[1 + |iv|..], d[1 + |iv|..]);
    assert c == [c[0]] + c[1..1 + |iv|] + c[1 + |iv|..] && d == [d[0]] + d[1..1 + |iv|] + d[1 + |iv|..];
  }

  lemma HeadNumbered(c: Block, iv: seq<bv8>, n: nat)
    requires 7 <= |iv| <= 13 && c[..|iv| + 1] == [(14 - |iv|) as bv8] + iv && BeVal(c[|iv| + 1..]) == n
    ensures Numbered(c, iv, n)
  {
    hide BeVal;
    ByteBack(14 - |iv|);
    var h := c[..|iv| + 1];
    assert c[0] == h[0] && c[1..1 + |iv|] == h[1..] == iv;
  }

  /**
   The tag is the CBC-MAC of the string laid out as above, masked with the encryption of the
   counter block that holds 0.
   */
  lemma {:induction false} TagBytes(ecb: Block -> Block, iv: seq<bv8>, add: seq<bv8>, msg: seq<bv8>, tagLen: nat, f: seq<bv8>, c: Block)
    requires Admissible(|iv|, |add|, |msg|, tagLen)
    requires Formatted(f, iv, add, msg, tagLen) && Numbered(c, iv, 0)
    ensures forall i :: 0 <= i < tagLen ==> Tag(ecb, iv, add, msg, tagLen)[i] == CbcMac(ecb, f)[i] ^ ecb(c)[i]
  {
    hide CbcMac, Filled, FirstBlock, Header, Mac, CounterBlock, Formatted, Numbered, BeVal, HeaderMac;
    FormatExists(iv, add, msg, tagLen);
    FormatUnique(f, Format(iv, add, msg, tagLen), iv, add, msg, tagLen);
    HeaderMacIsCbc(ecb, iv, add, |msg|, tagLen);
    MacIsCbc(ecb, Front(FirstBlock(iv, |add|, |msg|, tagLen), add), msg);
    ZeroCounter(iv);
    NumberedUnique(c, CounterBlock(iv, 0), iv, 0);
  }

  lemma ZeroCounter(iv: seq<bv8>)
    requires 7 <= |iv| <= 13
    ensures Numbered(CounterBlock(iv, 0), iv, 0)
  {
    hide CounterBlock, BeVal, Numbered;
    CounterStart(iv, 0);
    HeadNumbered(CounterBlock(iv, 0), iv, 0);
  }

  // ---- the key stream ----

  lemma {:induction false} CtrByte(ecb: Block -> Block, iv: seq<bv8>, k: nat, data: seq<bv8>, p: nat)
    requires 7 <= |iv| <= 13 && p < |data|
    ensures Ctr(ecb, iv, k, data)[p] == data[p] ^ ecb(CounterAt(iv, k + p / 16))[p % 16]
    decreases |data|
  {
    hide CounterAt, Xor, Ctr;
    var n := if |data| < 16 then |data| else 16;
    var c := Ctr(ecb, iv, k, data);
    CtrHalves(ecb, iv, k, data, n);
    if p < n {
      XorAt(data[..n], ecb(CounterAt(iv, k))[..n], p);
      assert c[p] == c[..n][p];
    } else {
      CtrByte(ecb, iv, k + 1, data[n..], p - n);
      assert c[p] == c[n..][p - n] && data[p] == data[n..][p - n];
    }
  }

  lemma XorAt(a: seq<bv8>, b: seq<bv8>, i: nat)
    requires |a| == |b| && i < |a|
    ensures Xor(a, b)[i] == a[i] ^ b[i]
  {
  }

  /** Byte p of the message is masked with byte p mod 16 of the encrypted counter block that holds p / 16 + 1. */
  lemma {:induction false} CtrBytes(ecb: Block -> Block, iv: seq<bv8>, data: seq<bv8>, p: nat, c: Block)
    requires 7 <= |iv| <= 13 && p < |data| < Pow256(15 - |iv|) && Numbered(c, iv, p / 16 + 1)
    ensures Ctr(ecb, iv, 0, data)[p] == data[p] ^ ecb(c)[p % 16]
  {
    hide Ctr, CounterAt, Pow256, BeVal, Numbered;
    CtrByte(ecb, iv, 0, data, p);
    BlocksBelow(|data|, 15 - |iv|);
    CounterValue(iv, p / 16);
    HeadNumbered(CounterAt(iv, p / 16), iv, p / 16 + 1);
    NumberedUnique(c, CounterAt(iv, p / 16), iv, p / 16 + 1);
  }
}
