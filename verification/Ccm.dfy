/**
 CCM* authenticated encryption over an abstract block function: CBC-MAC and counter mode.
 */
module Ccm {
  import opened Blocks

  datatype Mode = Encrypt | Decrypt
  datatype Status = Ok | BadInput | AuthFailed

  function Pow256(q: nat): (r: nat)
    ensures r >= 1
  {
    if q == 0 then 1 else 256 * Pow256(q - 1)
  }

  // ---- formatting ----

  /** n in q bytes, most significant first. */
  function BigEndian(n: nat, q: nat): (r: seq<bv8>)
    ensures |r| == q
  {
    if q == 0 then [] else BigEndian(n / 256, q - 1) + [(n % 256) as bv8]
  }

  /** The parameters the routine accepts. */
  predicate Admissible(ivLen: nat, addLen: nat, length: nat, tagLen: nat)
  {
    && tagLen != 2 && tagLen <= 16 && tagLen % 2 == 0
    && 7 <= ivLen <= 13 && addLen <= 0xFF00
    && length < Pow256(15 - ivLen)
  }

  /** The tag-length field of the flags; a zero length wraps around to all ones above bit 2. */
  function TagField(tagLen: nat): bv8
    requires tagLen <= 16
  {
    if tagLen < 2 then 0xF8 else (((tagLen - 2) / 2) as bv8) << 3
  }

  function FirstBlock(iv: seq<bv8>, addLen: nat, length: nat, tagLen: nat): Block
    requires 7 <= |iv| <= 13 && tagLen <= 16
  {
    var q := 15 - |iv|;
    [(if addLen > 0 then 0x40 else 0) | TagField(tagLen) | ((q - 1) as bv8)] + iv + BigEndian(length, q)
  }

  /** The associated data with its two length bytes. */
  function AddHeader(add: seq<bv8>): (r: seq<bv8>)
    requires |add| <= 0xFF00
  {
    [(|add| / 256) as bv8, (|add| % 256) as bv8] + add
  }

  // ---- CBC-MAC ----

  function Padded(s: seq<bv8>): Block
    requires |s| <= 16
  {
    s + seq(16 - |s|, _ => 0)
  }

  /** The chaining value after absorbing data in zero-padded blocks. */
  function Mac(ecb: Block -> Block, y: Block, data: seq<bv8>): Block
    decreases |data|
  {
    if data == [] then y
    else
      var k := if |data| < 16 then |data| else 16;
      Mac(ecb, ecb(Xor(y, Padded(data[..k]))), data[k..])
  }

  function ZeroBlock(): Block { seq(16, _ => 0) }

  function HeaderMac(ecb: Block -> Block, iv: seq<bv8>, add: seq<bv8>, length: nat, tagLen: nat): Block
    requires 7 <= |iv| <= 13 && tagLen <= 16 && |add| <= 0xFF00
  {
    var y := ecb(Xor(ZeroBlock(), FirstBlock(iv, |add|, length, tagLen)));
    if add == [] then y else Mac(ecb, y, AddHeader(add))
  }

  // ---- counter mode ----

  /** Increment the big-endian number in bytes j, j-1, ... over at most q bytes. */
  function IncAt(c: Block, j: nat, q: nat): Block
    requires j < 16 && q <= j + 1
    decreases q
  {
    if q == 0 then c
    else
      var d := c[j := c[j] + 1];
      if d[j] != 0 || q == 1 then d else IncAt(d, j - 1, q - 1)
  }

  function CounterBlock(iv: seq<bv8>, last: bv8): Block
    requires 7 <= |iv| <= 13
  {
    var q := 15 - |iv|;
    [(q - 1) as bv8] + iv + seq(q - 1, _ => 0) + [last]
  }

  /** The counter after k increments from 1. */
  function CounterAt(iv: seq<bv8>, k: nat): Block
    requires 7 <= |iv| <= 13
  {
    if k == 0 then CounterBlock(iv, 1) else IncAt(CounterAt(iv, k - 1), 15, 15 - |iv|)
  }

  /** Data xored with the key stream starting at counter number k. */
  function Ctr(ecb: Block -> Block, iv: seq<bv8>, k: nat, data: seq<bv8>): (r: seq<bv8>)
    requires 7 <= |iv| <= 13
    ensures |r| == |data|
    decreases |data|
  {
    if data == [] then []
    else
      var n := if |data| < 16 then |data| else 16;
      Xor(data[..n], ecb(CounterAt(iv, k))[..n]) + Ctr(ecb, iv, k + 1, data[n..])
  }

  /** The tag of a message: its MAC masked with the key stream block of counter zero. */
  function Tag(ecb: Block -> Block, iv: seq<bv8>, add: seq<bv8>, msg: seq<bv8>, tagLen: nat): (r: seq<bv8>)
    requires 7 <= |iv| <= 13 && tagLen <= 16 && |add| <= 0xFF00
    ensures |r| == tagLen
  {
    Xor(Mac(ecb, HeaderMac(ecb, iv, add, |msg|, tagLen), msg), ecb(CounterBlock(iv, 0)))[..tagLen]
  }

  // ---- counters never repeat ----

  /** The number in a big-endian byte string. */
  function BeVal(s: seq<bv8>): nat
  {
    if s == [] then 0 else 256 * BeVal(s[..|s| - 1]) + s[|s| - 1] as nat
  }

  lemma NextByte(b: bv8)
    ensures b + 1 != 0 ==> (b + 1) as nat == b as nat + 1
    ensures b + 1 == 0 ==> b as nat == 255
  {
  }

  lemma {:induction false} BeValBound(s: seq<bv8>)
    ensures BeVal(s) < Pow256(|s|)
  {
    if s != [] {
      BeValBound(s[..|s| - 1]);
    }
  }

  /** Incrementing adds one unless every byte in range is 255, and leaves the other bytes alone. */
  lemma {:induction false} IncValue(c: Block, j: nat, q: nat)
    requires j < 16 && 0 < q <= j + 1
    requires BeVal(c[j + 1 - q..j + 1]) + 1 < Pow256(q)
    ensures IncAt(c, j, q)[..j + 1 - q] == c[..j + 1 - q] && IncAt(c, j, q)[j + 1..] == c[j + 1..]
    ensures BeVal(IncAt(c, j, q)[j + 1 - q..j + 1]) == BeVal(c[j + 1 - q..j + 1]) + 1
    decreases q
  {
    var d := c[j := c[j] + 1];
    if d[j] != 0 || q == 1 {
      assert IncAt(c, j, q) == d;
      hide IncAt, BeVal, Pow256;
      IncLast(c, j, q);
    } else {
      assert IncAt(c, j, q) == IncAt(d, j - 1, q - 1);
      hide IncAt, BeVal, Pow256;
      NextByte(c[j]);
      Kept(c, j + 1 - q, j);
      ByteCarry(c, j + 1 - q, j);
      IncValue(d, j - 1, q - 1);
      IncCarried(c, IncAt(d, j - 1, q - 1), j, q);
    }
  }

  /** What changing the byte at j leaves alone. */
  lemma Kept(c: Block, lo: nat, j: nat)
    requires lo <= j < 16
    ensures var d := c[j := c[j] + 1]; d[lo..j] == c[lo..j] && d[..lo] == c[..lo] && d[j + 1..] == c[j + 1..]
  {
  }

  lemma IncLast(c: Block, j: nat, q: nat)
    requires j < 16 && 0 < q <= j + 1 && (c[j] + 1 != 0 || q == 1)
    requires BeVal(c[j + 1 - q..j + 1]) + 1 < Pow256(q)
    ensures var e := c[j := c[j] + 1];
      && e[..j + 1 - q] == c[..j + 1 - q] && e[j + 1..] == c[j + 1..]
      && BeVal(e[j + 1 - q..j + 1]) == BeVal(c[j + 1 - q..j + 1]) + 1
  {
    hide BeVal, Pow256;
    var lo := j + 1 - q;
    Kept(c, lo, j);
    LastByte(c, lo, j);
    LastByte(c[j := c[j] + 1], lo, j);
    OneByte(c[j], BeVal(c[lo..j]), q);
  }

  /** The bytes in front have taken over the carry of a byte that went from 255 to 0. */
  lemma IncCarried(c: Block, e: Block, j: nat, q: nat)
    requires j < 16 && 1 < q <= j + 1 && c[j] as nat == 255
    requires e[..j + 1 - q] == c[..j + 1 - q] && e[j..] == c[j := 0][j..]
    requires BeVal(e[j + 1 - q..j]) == BeVal(c[j + 1 - q..j]) + 1
    ensures e[j + 1..] == c[j + 1..] && BeVal(e[j + 1 - q..j + 1]) == BeVal(c[j + 1 - q..j + 1]) + 1
  {
    hide BeVal;
    TailsAgree(e, c[j := 0], j);
    LastByte(c, j + 1 - q, j);
    LastByte(e, j + 1 - q, j);
  }

  /** Without a carry the last byte grows by one; with a single byte there is no carry. */
  lemma OneByte(b: bv8, high: nat, q: nat)
    requires q > 0 && 256 * high + b as nat + 1 < Pow256(q) && (b + 1 != 0 || q == 1)
    ensures (b + 1) as nat == b as nat + 1
  {
    NextByte(b);
    assert Pow256(1) == 256 * Pow256(0);
  }

  lemma TailsAgree(e: Block, d: Block, j: nat)
    requires j < 16 && e[j..] == d[j..]
    ensures e[j] == d[j] && e[j + 1..] == d[j + 1..]
  {
    assert e[j] == e[j..][0] && d[j] == d[j..][0];
    assert e[j + 1..] == e[j..][1..] && d[j + 1..] == d[j..][1..];
  }

  lemma LastByte(c: Block, lo: nat, j: nat)
    requires lo <= j < 16
    ensures BeVal(c[lo..j + 1]) == 256 * BeVal(c[lo..j]) + c[j] as nat
  {
    var s := c[lo..j + 1];
    assert s[..|s| - 1] == c[lo..j] && s[|s| - 1] == c[j];
  }

  /** A full last byte leaves room for a carry in front of it. */
  lemma ByteCarry(c: Block, lo: nat, j: nat)
    requires lo < j < 16 && c[j] as nat == 255 && BeVal(c[lo..j + 1]) + 1 < Pow256(j + 1 - lo)
    ensures BeVal(c[lo..j]) + 1 < Pow256(j - lo)
  {
    LastByte(c, lo, j);
  }

  lemma {:induction false} BeValZeros(s: seq<bv8>)
    requires forall i :: 0 <= i < |s| ==> s[i] == 0
    ensures BeVal(s) == 0
  {
    if s != [] {
      BeValZeros(s[..|s| - 1]);
    }
  }

  lemma {:induction false} CounterStart(iv: seq<bv8>, last: bv8)
    requires 7 <= |iv| <= 13
    ensures BeVal(CounterBlock(iv, last)[|iv| + 1..]) == last as nat
    ensures CounterBlock(iv, last)[..|iv| + 1] == [(14 - |iv|) as bv8] + iv
  {
    var zeros: seq<bv8> := seq(14 - |iv|, _ => 0);
    var s := CounterBlock(iv, last)[|iv| + 1..];
    assert s == zeros + [last];
    assert s[..|s| - 1] == zeros;
    BeValZeros(zeros);
  }

  /** Counter number k holds k + 1 as long as that fits in the q counter bytes. */
  lemma {:induction false} CounterValue(iv: seq<bv8>, k: nat)
    requires 7 <= |iv| <= 13 && k + 1 < Pow256(15 - |iv|)
    ensures BeVal(CounterAt(iv, k)[|iv| + 1..]) == k + 1
    ensures CounterAt(iv, k)[..|iv| + 1] == [(14 - |iv|) as bv8] + iv
  {
    hide CounterBlock, BeVal, IncAt, Pow256;
    if k == 0 {
      CounterStart(iv, 1);
    } else {
      CounterValue(iv, k - 1);
      IncTail(CounterAt(iv, k - 1), |iv| + 1);
    }
  }

  /** Incrementing all bytes from n on. */
  lemma {:induction false} IncTail(c: Block, n: nat)
    requires n < 16 && BeVal(c[n..]) + 1 < Pow256(16 - n)
    ensures BeVal(IncAt(c, 15, 16 - n)[n..]) == BeVal(c[n..]) + 1 && IncAt(c, 15, 16 - n)[..n] == c[..n]
  {
    hide BeVal, IncAt, Pow256;
    assert c[n..16] == c[n..];
    IncValue(c, 15, 16 - n);
    var d := IncAt(c, 15, 16 - n);
    assert d[n..16] == d[n..];
  }

  /** Number of 16-byte blocks of a message. */
  function Blocks16(length: nat): nat { (length + 15) / 16 }

  lemma BlocksBelow(length: nat, q: nat)
    requires q >= 2 && length < Pow256(q)
    ensures Blocks16(length) + 1 < Pow256(q)
  {
    assert Pow256(q) == 256 * Pow256(q - 1);
    assert Pow256(q - 1) == 256 * Pow256(q - 2);
  }

  /**
   For every admissible length the counter never wraps: the counters of the message blocks
   are pairwise distinct and differ from the zero counter that masks the tag.
   */
  lemma {:induction false} CountersDistinct(iv: seq<bv8>, length: nat, i: nat, j: nat)
    requires 7 <= |iv| <= 13 && length < Pow256(15 - |iv|) && i < j < Blocks16(length)
    ensures CounterAt(iv, i) != CounterAt(iv, j)
    ensures CounterAt(iv, i) != CounterBlock(iv, 0) && CounterAt(iv, j) != CounterBlock(iv, 0)
  {
    BlocksBelow(length, 15 - |iv|);
    CounterValue(iv, i);
    CounterValue(iv, j);
    CounterStart(iv, 0);
  }

  // ---- encryption and decryption are inverse ----

  lemma {:induction false} CtrInvolution(ecb: Block -> Block, iv: seq<bv8>, k: nat, data: seq<bv8>)
    requires 7 <= |iv| <= 13
    ensures Ctr(ecb, iv, k, Ctr(ecb, iv, k, data)) == data
    decreases |data|
  {
    if data != [] {
      hide CounterAt, Xor, Ctr;
      var n := if |data| < 16 then |data| else 16;
      var c := Ctr(ecb, iv, k, data);
      CtrHalves(ecb, iv, k, data, n);
      CtrHalves(ecb, iv, k, c, n);
      XorCancel(data[..n], ecb(CounterAt(iv, k))[..n]);
      CtrInvolution(ecb, iv, k + 1, data[n..]);
      SameHalves(Ctr(ecb, iv, k, c), data, n);
    }
  }

  lemma CtrHalves(ecb: Block -> Block, iv: seq<bv8>, k: nat, data: seq<bv8>, n: nat)
    requires 7 <= |iv| <= 13 && data != [] && n == if |data| < 16 then |data| else 16
    ensures Ctr(ecb, iv, k, data)[..n] == Xor(data[..n], ecb(CounterAt(iv, k))[..n])
    ensures Ctr(ecb, iv, k, data)[n..] == Ctr(ecb, iv, k + 1, data[n..])
  {
    hide CounterAt, Xor;
    CtrUnfold(ecb, iv, k, data, n);
  }

  lemma SameHalves(a: seq<bv8>, b: seq<bv8>, n: nat)
    requires |a| == |b| && n <= |a| && a[..n] == b[..n] && a[n..] == b[n..]
    ensures a == b
  {
    assert a == a[..n] + a[n..] && b == b[..n] + b[n..];
  }

  lemma CtrUnfold(ecb: Block -> Block, iv: seq<bv8>, k: nat, data: seq<bv8>, n: nat)
    requires 7 <= |iv| <= 13 && data != [] && n == if |data| < 16 then |data| else 16
    ensures Ctr(ecb, iv, k, data) == Xor(data[..n], ecb(CounterAt(iv, k))[..n]) + Ctr(ecb, iv, k + 1, data[n..])
  {
    hide CounterAt, Xor;
  }

  /** What authenticated decryption answers, with the plaintext or zeros. */
  function DecryptResult(ecb: Block -> Block, iv: seq<bv8>, add: seq<bv8>, c: seq<bv8>, tag: seq<bv8>): (Status, seq<bv8>)
  {
    if !Admissible(|iv|, |add|, |c|, |tag|) then (BadInput, c)
    else
      var p := Ctr(ecb, iv, 0, c);
      if Tag(ecb, iv, add, p, |tag|) == tag then (Ok, p) else (AuthFailed, seq(|c|, _ => 0))
  }

  /** Decrypting what encryption produced returns the message, for every admissible input. */
  lemma {:induction false} CcmRoundTrip(ecb: Block -> Block, iv: seq<bv8>, add: seq<bv8>, msg: seq<bv8>, tagLen: nat)
    requires Admissible(|iv|, |add|, |msg|, tagLen)
    ensures DecryptResult(ecb, iv, add, Ctr(ecb, iv, 0, msg), Tag(ecb, iv, add, msg, tagLen)) == (Ok, msg)
  {
    CtrInvolution(ecb, iv, 0, msg);
  }

  // ---- the routine ----

  /** UPDATE_CBC_MAC: y ^= b byte by byte, then the block function. */
  method UpdateMac(ecb: Block -> Block, y: array<bv8>, b: array<bv8>)
    requires y.Length == 16 && b.Length == 16 && y != b
    modifies y
    ensures y[..] == ecb(Xor(old(y[..]), b[..]))
  {
    var i := 0;
    while i < 16
      invariant 0 <= i <= 16
      invariant forall k :: 0 <= k < i ==> y[k] == old(y[k]) ^ b[k]
      invariant forall k :: i <= k < 16 ==> y[k] == old(y[k])
    {
      y[i] := y[i] ^ b[i];
      i := i + 1;
    }
    assert y[..] == Xor(old(y[..]), b[..]);
    SetBlock(y, ecb(y[..]));
  }

  method SetBlock(a: array<bv8>, v: Block)
    requires a.Length == 16
    modifies a
    ensures a[..] == v
  {
    var i := 0;
    while i < 16
      invariant 0 <= i <= 16
      invariant forall k :: 0 <= k < i ==> a[k] == v[k]
    {
      a[i] := v[i];
      i := i + 1;
    }
  }

  /** memset and memcpy: a zero-padded block. */
  method LoadPadded(b: array<bv8>, s: seq<bv8>)
    requires b.Length == 16 && |s| <= 16
    modifies b
    ensures b[..] == Padded(s)
  {
    SetBlock(b, Padded(s));
  }

  /** CTR_CRYPT: b receives the key stream block, dst the masked bytes; src may be dst. */
  method CtrCrypt(ecb: Block -> Block, ctr: array<bv8>, b: array<bv8>, src: array<bv8>, dst: array<bv8>, pos: nat, n: nat)
    requires ctr.Length == 16 && b.Length == 16 && b != ctr && b != src && b != dst && ctr != dst
    requires n <= 16 && pos + n <= src.Length && pos + n <= dst.Length
    modifies b, dst
    ensures dst[..] == old(dst[..pos]) + Xor(old(src[pos..pos + n]), ecb(ctr[..])[..n]) + old(dst[pos + n..])
  {
    SetBlock(b, ecb(ctr[..]));
    ghost var ks := b[..];
    assert src[pos..pos + n] == old(src[pos..pos + n]);
    MaskBytes(b, src, dst, pos, n);
    assert Xor(old(src[pos..pos + n]), ks[..n]) == Xor(old(src[pos..pos + n]), ecb(ctr[..])[..n]);
  }

  /** dst[pos + i] = src[pos + i] ^ b[i] for i < n; src may be dst. */
  method MaskBytes(b: array<bv8>, src: array<bv8>, dst: array<bv8>, pos: nat, n: nat)
    requires b.Length == 16 && b != dst && n <= 16 && pos + n <= src.Length && pos + n <= dst.Length
    modifies dst
    ensures dst[..] == old(dst[..pos]) + Xor(old(src[pos..pos + n]), b[..n]) + old(dst[pos + n..])
  {
    var i := 0;
    while i < n
      invariant 0 <= i <= n
      invariant forall k :: 0 <= k < dst.Length && !(pos <= k < pos + i) ==> dst[k] == old(dst[k])
      invariant forall k :: 0 <= k < i ==> dst[pos + k] == old(src[pos + k]) ^ b[k]
    {
      dst[pos + i] := src[pos + i] ^ b[i];
      i := i + 1;
    }
    assert dst[..pos] == old(dst[..pos]) && dst[pos + n..] == old(dst[pos + n..]);
    assert dst[pos..pos + n] == Xor(old(src[pos..pos + n]), b[..n]);
    assert dst[..] == dst[..pos] + dst[pos..pos + n] + dst[pos + n..];
  }

  /** Increment the counter, stopping at the first byte that does not wrap. */
  method Increment(ctr: array<bv8>, q: nat)
    requires ctr.Length == 16 && 0 < q <= 15
    modifies ctr
    ensures ctr[..] == IncAt(old(ctr[..]), 15, q)
  {
    var i := 0;
    while i < q
      invariant 0 <= i <= q
      invariant i < q ==> IncAt(ctr[..], 15 - i, q - i) == IncAt(old(ctr[..]), 15, q)
      invariant i == q ==> ctr[..] == IncAt(old(ctr[..]), 15, q)
    {
      ghost var c := ctr[..];
      ctr[15 - i] := ctr[15 - i] + 1;
      assert ctr[..] == c[15 - i := c[15 - i] + 1];
      if ctr[15 - i] != 0 {
        break;
      }
      i := i + 1;
    }
  }

  /** Write the message length into the last q bytes of b; what does not fit is returned. */
  method WriteLength(b: array<bv8>, q: nat, length: nat) returns (left: nat)
    requires b.Length == 16 && q <= 15
    modifies b
    ensures b[..] == old(b[..16 - q]) + BigEndian(length, q)
    ensures left == 0 <==> length < Pow256(q)
  {
    hide BigEndian, Pow256;
    left := length;
    var i := 0;
    ghost var tail: seq<bv8> := [];
    LengthStart(length, q);
    while i < q
      invariant 0 <= i <= q && b[..16 - q] == old(b[..16 - q])
      invariant tail == b[16 - i..] && BigEndian(length, q) == BigEndian(left, q - i) + tail
      invariant left < Pow256(q - i) <==> length < Pow256(q)
    {
      b[15 - i] := (left % 256) as bv8;
      DropByte(left, q - i);
      LengthStep(left, q - i, tail);
      tail := [(left % 256) as bv8] + tail;
      left := left / 256;
      i := i + 1;
    }
    assert BigEndian(left, 0) == [] && Pow256(0) == 1 by { NoBytes(left); }
    assert b[..] == b[..16 - q] + b[16 - q..];
  }

  lemma NoBytes(n: nat)
    ensures BigEndian(n, 0) == [] && Pow256(0) == 1
  {
  }

  lemma LengthStep(n: nat, q: nat, tail: seq<bv8>)
    requires q > 0
    ensures BigEndian(n, q) + tail == BigEndian(n / 256, q - 1) + ([(n % 256) as bv8] + tail)
  {
  }

  lemma LengthStart(length: nat, q: nat)
    ensures BigEndian(length, q) == BigEndian(length, q) + []
  {
  }

  lemma DropByte(n: nat, q: nat)
    requires q > 0
    ensures n < Pow256(q) <==> n / 256 < Pow256(q - 1)
  {
  }

  /** The associated data in the chaining value: a block of two length bytes and 14 data bytes, then whole blocks. */
  method MacHeader(ecb: Block -> Block, y: array<bv8>, b: array<bv8>, add: seq<bv8>)
    requires y.Length == 16 && b.Length == 16 && y != b && 0 < |add| <= 0xFF00
    modifies y, b
    ensures y[..] == Mac(ecb, old(y[..]), AddHeader(add))
  {
    ghost var data := AddHeader(add);
    var useLen := if |add| < 14 then |add| else 14;
    LoadPadded(b, [(|add| / 256) as bv8, (|add| % 256) as bv8] + add[..useLen]);
    ghost var k := useLen + 2;
    assert data[..k] == [(|add| / 256) as bv8, (|add| % 256) as bv8] + add[..useLen];
    UpdateMac(ecb, y, b);
    var pos := useLen;
    assert data[k..] == add[pos..];
    while pos < |add|
      invariant 0 < pos <= |add|
      invariant Mac(ecb, old(y[..]), data) == Mac(ecb, y[..], add[pos..])
    {
      useLen := if |add| - pos > 16 then 16 else |add| - pos;
      LoadPadded(b, add[pos..pos + useLen]);
      assert add[pos..][..useLen] == add[pos..pos + useLen];
      assert add[pos..][useLen..] == add[pos + useLen..];
      UpdateMac(ecb, y, b);
      pos := pos + useLen;
    }
  }

  /** Absorb the bytes a[pos..pos+n] as one padded block. */
  method MacChunk(ecb: Block -> Block, y: array<bv8>, b: array<bv8>, a: array<bv8>, pos: nat, n: nat, ghost msg: seq<bv8>)
    requires y.Length == 16 && b.Length == 16 && y != b && a != b && a != y
    requires 0 < n <= 16 && pos + n <= a.Length == |msg| && a[pos..pos + n] == msg[pos..pos + n]
    requires n == if |msg| - pos < 16 then |msg| - pos else 16
    modifies y, b
    ensures Mac(ecb, old(y[..]), msg[pos..]) == Mac(ecb, y[..], msg[pos + n..])
  {
    LoadPadded(b, a[pos..pos + n]);
    assert msg[pos..][..n] == msg[pos..pos + n] && msg[pos..][n..] == msg[pos + n..];
    UpdateMac(ecb, y, b);
  }

  /** The message loop: authenticate before or after masking, according to the mode. */
  method CryptMessage(ecb: Block -> Block, mode: Mode, iv: seq<bv8>, q: nat, y: array<bv8>, b: array<bv8>, ctr: array<bv8>, input: array<bv8>, output: array<bv8>)
    requires 7 <= |iv| <= 13 && q == 15 - |iv| && y.Length == 16 && b.Length == 16 && ctr.Length == 16
    requires y != b && y != ctr && b != ctr && y != input && y != output && b != input && b != output && ctr != input && ctr != output
    requires input.Length == output.Length && ctr[..] == CounterBlock(iv, 1)
    modifies y, b, ctr, output
    ensures output[..] == Ctr(ecb, iv, 0, old(input[..]))
    ensures y[..] == Mac(ecb, old(y[..]), if mode == Encrypt then old(input[..]) else output[..])
    ensures ctr[..16 - q] == old(ctr[..16 - q])
  {
    hide IncAt, Mac, Ctr;
    ghost var s := input[..];
    ghost var p := Ctr(ecb, iv, 0, s);
    ghost var msg := if mode == Encrypt then s else p;
    var pos := 0;
    ghost var k := 0;
    assert s[0..] == s && msg[0..] == msg && p[0..] == p;
    assert ctr[..] == CounterAt(iv, 0);
    while pos < input.Length
      invariant 0 <= pos <= input.Length && ctr[..] == CounterAt(iv, k)
      invariant input[pos..] == s[pos..] && output[..pos] == p[..pos]
      invariant p[pos..] == Ctr(ecb, iv, k, s[pos..])
      invariant Mac(ecb, old(y[..]), msg) == Mac(ecb, y[..], msg[pos..])
    {
      var n := if input.Length - pos > 16 then 16 else input.Length - pos;
      CtrChunk(ecb, iv, k, s, p, pos, n);
      assert input[pos..pos + n] == input[pos..][..n] == s[pos..][..n] == s[pos..pos + n];
      if mode == Encrypt {
        MacChunk(ecb, y, b, input, pos, n, msg);
      }
      ghost var o := output[..pos];
      CtrCrypt(ecb, ctr, b, input, output, pos, n);
      assert output[..pos + n] == o + p[pos..pos + n];
      assert input[pos + n..] == s[pos + n..];
      if mode == Decrypt {
        MacChunk(ecb, y, b, output, pos, n, msg);
      }
      pos := pos + n;
      Increment(ctr, q);
      k := k + 1;
    }
    MacDone(ecb, y[..], msg[pos..]);
    assert output[..pos] == output[..] && p[..pos] == p;
    CounterHead(iv, k);
  }

  lemma MacDone(ecb: Block -> Block, y: Block, s: seq<bv8>)
    requires s == []
    ensures Mac(ecb, y, s) == y
  {
  }

  lemma CtrChunk(ecb: Block -> Block, iv: seq<bv8>, k: nat, s: seq<bv8>, p: seq<bv8>, pos: nat, n: nat)
    requires 7 <= |iv| <= 13 && |p| == |s| && pos < |s| && p[pos..] == Ctr(ecb, iv, k, s[pos..])
    requires n == if |s| - pos > 16 then 16 else |s| - pos
    ensures p[pos..pos + n] == Xor(s[pos..pos + n], ecb(CounterAt(iv, k))[..n])
    ensures p[pos + n..] == Ctr(ecb, iv, k + 1, s[pos + n..])
  {
    assert s[pos..][..n] == s[pos..pos + n] && s[pos..][n..] == s[pos + n..];
    assert p[pos..pos + n] == p[pos..][..n] && p[pos + n..] == p[pos..][n..];
  }

  /** Incrementing only touches the counter bytes. */
  lemma {:induction false} CounterHead(iv: seq<bv8>, k: nat)
    requires 7 <= |iv| <= 13
    ensures CounterAt(iv, k)[..|iv| + 1] == CounterBlock(iv, 1)[..|iv| + 1]
  {
    if k > 0 {
      CounterHead(iv, k - 1);
      IncHead(CounterAt(iv, k - 1), 15, 15 - |iv|);
    }
  }

  lemma {:induction false} IncHead(c: Block, j: nat, q: nat)
    requires j < 16 && q <= j + 1
    ensures IncAt(c, j, q)[..j + 1 - q] == c[..j + 1 - q]
    decreases q
  {
    if q > 1 {
      var d := c[j := c[j] + 1];
      IncHead(d, j - 1, q - 1);
      assert d[..j + 1 - q] == c[..j + 1 - q];
    }
  }

  /** The first MAC block in b, refused when the length does not fit its field. */
  method FormatFirst(b: array<bv8>, iv: seq<bv8>, addLen: nat, length: nat, tagLen: nat) returns (fits: bool)
    requires b.Length == 16 && 7 <= |iv| <= 13 && tagLen <= 16
    modifies b
    ensures b[..] == FirstBlock(iv, addLen, length, tagLen)
    ensures fits == (length < Pow256(15 - |iv|))
  {
    var q := 15 - |iv|;
    SetBlock(b, [(if addLen > 0 then 0x40 else 0) | TagField(tagLen) | ((q - 1) as bv8)] + iv + seq(q, _ => 0));
    ghost var head := b[..16 - q];
    var left := WriteLength(b, q, length);
    fits := left == 0;
  }

  /** ccm_auth_crypt; input and output may be the same buffer. */
  method AuthCrypt(ecb: Block -> Block, mode: Mode, iv: seq<bv8>, add: seq<bv8>, input: array<bv8>, output: array<bv8>, tag: array<bv8>, tagLen: nat)
    returns (ret: Status)
    requires input.Length == output.Length && (tagLen <= 16 ==> tagLen <= tag.Length) && tag != output && tag != input
    modifies output, tag
    ensures ret == if Admissible(|iv|, |add|, input.Length, tagLen) then Ok else BadInput
    ensures ret == Ok ==> output[..] == Ctr(ecb, iv, 0, old(input[..]))
    ensures ret == Ok ==> tag[..tagLen] == Tag(ecb, iv, add, if mode == Encrypt then old(input[..]) else output[..], tagLen)
    ensures ret != Ok ==> output[..] == old(output[..]) && tag[..] == old(tag[..])
  {
    if tagLen == 2 || tagLen > 16 || tagLen % 2 != 0 {
      return BadInput;
    }
    if |iv| < 7 || |iv| > 13 {
      return BadInput;
    }
    if |add| > 0xFF00 {
      return BadInput;
    }
    var q := 15 - |iv|;
    var b, y, ctr := new bv8[16], new bv8[16], new bv8[16];
    var fits := FormatFirst(b, iv, |add|, input.Length, tagLen);
    if !fits {
      return BadInput;
    }
    SetBlock(y, ZeroBlock());
    UpdateMac(ecb, y, b);
    if |add| > 0 {
      MacHeader(ecb, y, b, add);
    }
    SetBlock(ctr, CounterBlock(iv, 1));
    CryptMessage(ecb, mode, iv, q, y, b, ctr, input, output);
    FinishTag(ecb, iv, q, y, b, ctr, tag, tagLen);
    return Ok;
  }

  /** Zero the counter bytes. */
  method ResetCounter(iv: seq<bv8>, q: nat, ctr: array<bv8>)
    requires 7 <= |iv| <= 13 && q == 15 - |iv| && ctr.Length == 16
    requires ctr[..16 - q] == CounterBlock(iv, 1)[..16 - q]
    modifies ctr
    ensures ctr[..] == CounterBlock(iv, 0)
  {
    var i := 0;
    while i < q
      invariant 0 <= i <= q
      invariant ctr[..16 - q] == old(ctr[..16 - q])
      invariant forall k :: 16 - i <= k < 16 ==> ctr[k] == 0
    {
      ctr[15 - i] := 0;
      i := i + 1;
    }
    assert ctr[..] == ctr[..16 - q] + ctr[16 - q..];
    assert ctr[16 - q..] == seq(q - 1, _ => 0) + [0];
    assert CounterBlock(iv, 1)[..16 - q] == [(q - 1) as bv8] + iv;
  }

  /** Reset the counter, mask the MAC and copy the tag out. */
  method FinishTag(ecb: Block -> Block, iv: seq<bv8>, q: nat, y: array<bv8>, b: array<bv8>, ctr: array<bv8>, tag: array<bv8>, tagLen: nat)
    requires 7 <= |iv| <= 13 && q == 15 - |iv| && y.Length == 16 && b.Length == 16 && ctr.Length == 16
    requires y != b && y != ctr && b != ctr && tag != y && tag != b && tag != ctr && tagLen <= 16 && tagLen <= tag.Length
    requires ctr[..16 - q] == CounterBlock(iv, 1)[..16 - q]
    modifies y, b, ctr, tag
    ensures tag[..tagLen] == Xor(old(y[..]), ecb(CounterBlock(iv, 0)))[..tagLen]
  {
    hide CounterBlock, Xor;
    ResetCounter(iv, q, ctr);
    MaskBlock(ecb, ctr, b, y);
    CopyTag(y, tag, tagLen);
  }

  /** The key stream block of the counter over a whole block. */
  method MaskBlock(ecb: Block -> Block, ctr: array<bv8>, b: array<bv8>, y: array<bv8>)
    requires ctr.Length == 16 && b.Length == 16 && y.Length == 16 && b != ctr && b != y && ctr != y
    modifies b, y
    ensures y[..] == Xor(old(y[..]), ecb(ctr[..]))
  {
    hide Xor;
    ghost var y0, ks := y[..], ecb(ctr[..]);
    CtrCrypt(ecb, ctr, b, y, y, 0, 16);
    assert y0[0..16] == y0 && ks[..16] == ks && y0[..0] == [] && y0[16..] == [];
  }

  method CopyTag(y: array<bv8>, tag: array<bv8>, tagLen: nat)
    requires y.Length == 16 && tag != y && tagLen <= 16 && tagLen <= tag.Length
    modifies tag
    ensures tag[..tagLen] == y[..][..tagLen]
  {
    var i := 0;
    while i < tagLen
      invariant 0 <= i <= tagLen && forall k :: 0 <= k < i ==> tag[k] == y[k]
    {
      tag[i] := y[i];
      i := i + 1;
    }
  }

  /** mbedtls_ccm_star_auth_decrypt: recompute the tag, compare without early exit, wipe on mismatch. */
  method StarAuthDecrypt(ecb: Block -> Block, iv: seq<bv8>, add: seq<bv8>, input: array<bv8>, output: array<bv8>, tag: seq<bv8>, tagLen: nat)
    returns (ret: Status)
    requires input.Length == output.Length && tagLen <= |tag|
    modifies output
    ensures ret == DecryptResult(ecb, iv, add, old(input[..]), tag[..tagLen]).0
    ensures ret != BadInput ==> output[..] == DecryptResult(ecb, iv, add, old(input[..]), tag[..tagLen]).1
    ensures ret == BadInput ==> output[..] == old(output[..])
    ensures ret == Ok <==>
      && Admissible(|iv|, |add|, input.Length, tagLen)
      && Tag(ecb, iv, add, Ctr(ecb, iv, 0, old(input[..])), tagLen) == tag[..tagLen]
    ensures ret == Ok ==> output[..] == Ctr(ecb, iv, 0, old(input[..]))
    ensures ret == AuthFailed ==> forall i :: 0 <= i < output.Length ==> output[i] == 0
  {
    hide Ctr, Tag;
    var checkTag := new bv8[16];
    ret := AuthCrypt(ecb, Decrypt, iv, add, input, output, checkTag, tagLen);
    if ret != Ok {
      return;
    }
    var diff: bv8 := 0;
    var i := 0;
    ghost var t, p := checkTag[..], output[..];
    while i < tagLen
      invariant 0 <= i <= tagLen && checkTag[..] == t && output[..] == p
      invariant diff == 0 <==> tag[..i] == checkTag[..i]
    {
      OrDiffers(diff, tag[i], checkTag[i]);
      assert tag[..i + 1] == tag[..i] + [tag[i]] && checkTag[..i + 1] == checkTag[..i] + [checkTag[i]];
      diff := diff | (tag[i] ^ checkTag[i]);
      i := i + 1;
    }
    if diff != 0 {
      i := 0;
      while i < output.Length
        invariant 0 <= i <= output.Length
        invariant forall k :: 0 <= k < i ==> output[k] == 0
      {
        output[i] := 0;
        i := i + 1;
      }
      return AuthFailed;
    }
  }

  lemma OrDiffers(d: bv8, x: bv8, y: bv8)
    ensures d | (x ^ y) == 0 <==> d == 0 && x == y
  {
  }
}
