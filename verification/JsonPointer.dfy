/**
 JSON Pointer: building the pointer of a node, following a pointer, and the proof that the
 second finds what the first was built for. A node of a tree is named by the child indices that
 lead to it.
 */
module JsonPointer {
  import opened Json
  import opened JsonTree
  import opened JsonParse
  import opened JsonRoundTrip

  const SIZE_LIMIT: nat := 0x1_0000_0000_0000_0000   // one more than the largest size_t

  // ---- escaping ----

  function EncodeChar(c: char): string
  {
    if c == '/' then "~1" else if c == '~' then "~0" else [c]
  }

  /** encode_string_as_pointer */
  function Encode(s: string): string
  {
    if s == "" then "" else EncodeChar(s[0]) + Encode(s[1..])
  }

  /** The end of a path element: the end of the text or the next slash. */
  predicate AtEnd(p: string)
  {
    p == "" || p[0] == '/'
  }

  /** compare_pointers: does the name equal the first element of the pointer text? */
  function ComparePointers(name: string, p: string, cs: bool): bool
  {
    if name != "" && !AtEnd(p) then
      if p[0] == '~' then
        if |p| > 1 && ((p[1] == '0' && name[0] == '~') || (p[1] == '1' && name[0] == '/')) then
          ComparePointers(name[1..], p[2..], cs)
        else false
      else if Fold(name[0], cs) != Fold(p[0], cs) then false
      else ComparePointers(name[1..], p[1..], cs)
    else AtEnd(p) == (name == "")
  }

  /** Comparing against one encoded character. */
  lemma CompareStep(name: string, c: char, tail: string, cs: bool)
    requires name != ""
    ensures ComparePointers(name, EncodeChar(c) + tail, cs) == (Fold(name[0], cs) == Fold(c, cs) && ComparePointers(name[1..], tail, cs))
  {
    var p := EncodeChar(c) + tail;
    if c == '/' || c == '~' {
      assert p[2..] == tail;
    } else {
      assert p[1..] == tail;
    }
  }

  /** An encoded key is matched by exactly the names that compare equal to the key. */
  lemma {:induction false} CompareEncoded(name: string, key: string, rest: string, cs: bool)
    requires AtEnd(rest)
    ensures ComparePointers(name, Encode(key) + rest, cs) <==> Compare(name, key, cs) == 0
  {
    if key == "" {
      assert Encode(key) + rest == rest;
    } else {
      var tail := Encode(key[1..]) + rest;
      assert Encode(key) + rest == EncodeChar(key[0]) + tail;
      if name != "" {
        CompareEncoded(name[1..], key[1..], rest, cs);
        hide ComparePointers, Encode;
        CompareStep(name, key[0], tail, cs);
      }
    }
  }

  /** The rest of the text behind the first element. */
  function RestOf(p: string): (r: string)
    ensures AtEnd(r) && |r| <= |p|
  {
    if AtEnd(p) then p else RestOf(p[1..])
  }

  lemma {:induction false} RestOfElement(t: string, rest: string)
    requires AtEnd(rest) && '/' !in t
    ensures RestOf(t + rest) == rest
  {
    if t == "" {
      assert t + rest == rest;
    } else {
      assert (t + rest)[1..] == t[1..] + rest;
      RestOfElement(t[1..], rest);
    }
  }

  lemma {:induction false} EncodeNoSlash(s: string)
    ensures '/' !in Encode(s)
  {
    if s != "" { EncodeNoSlash(s[1..]); }
  }

  // ---- array indices ----

  /** The loop of decode_array_index_from_pointer: everything from '0' on counts as a digit. */
  function IndexRun(p: string, position: nat, parsed: nat): (r: (nat, nat))
    requires position <= |p|
    ensures position <= r.1 <= |p|
    decreases |p| - position
  {
    if position < |p| && p[position] >= '0' && p[0] <= '9'
    then IndexRun(p, position + 1, (10 * parsed + (p[position] as int - 48)) % SIZE_LIMIT)
    else (parsed, position)
  }

  /** The index at the start of a pointer text; an empty element reads as 0. */
  function DecodeIndex(p: string): Option<nat>
  {
    if |p| > 1 && p[0] == '0' && p[1] != '/' then None
    else
      var (parsed, position) := IndexRun(p, 0, 0);
      if position < |p| && p[position] != '/' then None else Some(parsed)
  }

  lemma {:induction false} DigitsPrefix(t: string, k: nat)
    requires k < |t| && forall i :: 0 <= i < |t| ==> IsDigit(t[i])
    ensures DigitsValue(t[..k + 1]) == 10 * DigitsValue(t[..k]) + (t[k] as int - 48)
    ensures DigitsValue(t[..k]) <= DigitsValue(t[..k + 1])
  {
    assert t[..k + 1][..k] == t[..k];
  }

  lemma {:induction false} DigitsMonotone(t: string, k: nat)
    requires k <= |t| && forall i :: 0 <= i < |t| ==> IsDigit(t[i])
    ensures DigitsValue(t[..k]) <= DigitsValue(t)
    decreases |t| - k
  {
    if k == |t| {
      assert t[..k] == t;
    } else {
      DigitsPrefix(t, k);
      DigitsMonotone(t, k + 1);
    }
  }

  lemma {:induction false} RunOverDigits(t: string, rest: string, k: nat)
    requires AtEnd(rest) && k <= |t| && t != "" && forall i :: 0 <= i < |t| ==> IsDigit(t[i])
    requires DigitsValue(t) < SIZE_LIMIT
    ensures IndexRun(t + rest, k, DigitsValue(t[..k])) == (DigitsValue(t), |t|)
    decreases |t| - k
  {
    hide DigitsValue;
    var p := t + rest;
    assert p[0] == t[0];
    if k == |t| {
      assert t[..k] == t;
      assert k < |p| ==> p[k] == rest[0];
    } else {
      assert p[k] == t[k];
      DigitsPrefix(t, k);
      DigitsMonotone(t, k + 1);
      RunOverDigits(t, rest, k + 1);
    }
  }

  /** The number that a run of characters stands for when each counts as its distance from '0'. */
  function Weighted(t: string): int
  {
    if t == "" then 0 else 10 * Weighted(t[..|t| - 1]) + (t[|t| - 1] as int - 48)
  }

  /**
   Which elements are taken for indices: those that start with a digit, have no character below
   '0', and no leading zero; the value is reduced to a size_t. An empty element is taken for 0.
   */
  lemma {:induction false} IndexTaken(t: string, rest: string)
    requires AtEnd(rest) && '/' !in t
    ensures var taken := t == "" || (t[0] <= '9' && (t[0] == '0' ==> |t| == 1) && forall i :: 0 <= i < |t| ==> t[i] >= '0');
      DecodeIndex(t + rest) == if taken then Some(Weighted(t) % SIZE_LIMIT) else None
  {
    var p := t + rest;
    if t == "" {
      assert p == rest;
      assert IndexRun(p, 0, 0) == (0, 0);
    } else {
      assert p[0] == t[0] && (|t| > 1 ==> p[1] == t[1]);
      assert t[..0] == "" && Weighted("") == 0;
      if t[0] <= '9' && forall i :: 0 <= i < |t| ==> t[i] >= '0' {
        WeightedRun(t, rest, 0);
      } else {
        RunStops(t, rest, 0, 0);
      }
    }
  }

  lemma {:induction false} WeightedRun(t: string, rest: string, k: nat)
    requires AtEnd(rest) && k <= |t| && t != "" && t[0] <= '9' && forall i :: 0 <= i < |t| ==> t[i] >= '0'
    ensures IndexRun(t + rest, k, Weighted(t[..k]) % SIZE_LIMIT) == (Weighted(t) % SIZE_LIMIT, |t|)
    decreases |t| - k
  {
    hide Weighted;
    var p := t + rest;
    assert p[0] == t[0];
    if k == |t| {
      assert t[..k] == t;
      assert k < |p| ==> p[k] == rest[0];
    } else {
      assert p[k] == t[k];
      WeightedStep(t, k);
      WeightedRun(t, rest, k + 1);
    }
  }

  lemma WeightedStep(t: string, k: nat)
    requires k < |t|
    ensures (10 * (Weighted(t[..k]) % SIZE_LIMIT) + (t[k] as int - 48)) % SIZE_LIMIT == Weighted(t[..k + 1]) % SIZE_LIMIT
  {
    assert t[..k + 1][..k] == t[..k];
    Reduced(Weighted(t[..k]), t[k] as int - 48);
  }

  lemma Reduced(w: int, d: int)
    ensures (10 * (w % SIZE_LIMIT) + d) % SIZE_LIMIT == (10 * w + d) % SIZE_LIMIT
  {
    var q := w / SIZE_LIMIT;
    assert w == SIZE_LIMIT * q + w % SIZE_LIMIT;
    Multiple(10 * (w % SIZE_LIMIT) + d, 10 * q);
  }

  lemma Multiple(x: int, q: int)
    ensures (x + SIZE_LIMIT * q) % SIZE_LIMIT == x % SIZE_LIMIT
  {
  }

  /** The run ends in front of the first character that is none of its own. */
  lemma {:induction false} RunStops(t: string, rest: string, k: nat, parsed: nat)
    requires k < |t| && '/' !in t && (t[0] > '9' || exists i :: k <= i < |t| && t[i] < '0')
    ensures var e := IndexRun(t + rest, k, parsed).1; e < |t + rest| && (t + rest)[e] != '/'
    decreases |t| - k
  {
    var p := t + rest;
    assert p[0] == t[0];
    assert p[k] == t[k] && t[k] in t;
    if p[k] >= '0' && p[0] <= '9' { RunStops(t, rest, k + 1, (10 * parsed + (p[k] as int - 48)) % SIZE_LIMIT); }
  }

  lemma {:induction false} NoLeadingZero(n: nat)
    ensures |Digits(n)| > 1 ==> Digits(n)[0] != '0'
    ensures Digits(n)[0] == '0' ==> n == 0
  {
    if n >= 10 {
      DigitsRoundTrip(n / 10);
      NoLeadingZero(n / 10);
      assert Digits(n)[0] == Digits(n / 10)[0];
    }
  }

  /** The printed index of an array element reads back. */
  lemma {:induction false} IndexRoundTrip(n: nat, rest: string)
    requires n < SIZE_LIMIT && AtEnd(rest)
    ensures DecodeIndex(Digits(n) + rest) == Some(n) && '/' !in Digits(n)
  {
    hide Digits, DigitsValue, IndexRun;
    DigitsRoundTrip(n);
    NoLeadingZero(n);
    var t := Digits(n);
    var p := t + rest;
    assert t[..0] == "";
    assert DigitsValue(t[..0]) == 0 by { EmptyValue(); }
    RunOverDigits(t, rest, 0);
    assert |p| > |t| ==> p[|t|] == rest[0];
    assert p[0] == t[0];
  }

  lemma EmptyValue()
    ensures DigitsValue("") == 0
  {
  }

  // ---- following ----

  function Children(v: Json): (n: nat)
  {
    match v case Array(items) => |items| case Object(ms) => |ms| case _ => 0
  }

  function ChildAt(v: Json, k: nat): Json
    requires k < Children(v)
  {
    if v.Array? then v.items[k] else v.members[k].value
  }

  /** The first member that the element at the start of p names. */
  function NamedIndex(ms: seq<Member>, p: string, cs: bool): (i: nat)
    ensures i <= |ms| && (i < |ms| ==> ComparePointers(ms[i].key, p, cs))
    ensures forall j :: 0 <= j < i ==> !ComparePointers(ms[j].key, p, cs)
  {
    if ms == [] then 0
    else if ComparePointers(ms[0].key, p, cs) then 0
    else
      var k := NamedIndex(ms[1..], p, cs);
      assert forall j :: 1 <= j < k + 1 ==> ms[j] == ms[1..][j - 1];
      k + 1
  }

  /** The child that the element at the start of p names. */
  function Child(v: Json, p: string, cs: bool): (r: Option<nat>)
    ensures r.Some? ==> r.value < Children(v)
  {
    match v
    case Array(items) =>
      var i := DecodeIndex(p);
      if i.Some? && i.value < |items| then i else None
    case Object(ms) =>
      var i := NamedIndex(ms, p, cs);
      if i < |ms| then Some(i) else None
    case _ => None
  }

  /** get_item_from_pointer: the node that p leads to, as a sequence of child indices. */
  function Locate(v: Json, p: string, cs: bool): Option<seq<nat>>
    decreases v
  {
    if p == "" || p[0] != '/' then Some([])
    else
      var k := Child(v, p[1..], cs);
      if k == None then None
      else
        var r := Locate(ChildAt(v, k.value), RestOf(p[1..]), cs);
        if r == None then None else Some([k.value] + r.value)
  }

  // ---- building ----

  predicate IsNode(v: Json, path: seq<nat>)
    decreases v
  {
    path == [] || (path[0] < Children(v) && IsNode(ChildAt(v, path[0]), path[1..]))
  }

  function Element(v: Json, k: nat): string
    requires k < Children(v)
  {
    if v.Array? then Digits(k) else Encode(v.members[k].key)
  }

  /** The pointer of a node. */
  function PointerOf(v: Json, path: seq<nat>): (p: string)
    requires IsNode(v, path)
    ensures AtEnd(p)
    decreases v
  {
    if path == [] then ""
    else "/" + Element(v, path[0]) + PointerOf(ChildAt(v, path[0]), path[1..])
  }

  /** Sibling keys are distinct and arrays have fewer elements than a size_t can count. */
  predicate Addressable(v: Json)
    decreases v
  {
    match v
    case Array(items) => |items| <= SIZE_LIMIT && forall i :: 0 <= i < |items| ==> Addressable(items[i])
    case Object(ms) => DistinctKeys(ms) && forall i :: 0 <= i < |ms| ==> Addressable(ms[i].value)
    case _ => true
  }

  /** What following one element relies on: this node's own keys or size. */
  predicate Nameable(v: Json, cs: bool)
  {
    match v
    case Array(items) => |items| <= SIZE_LIMIT
    case Object(ms) => Told(ms, cs)
    case _ => true
  }

  /** The element printed for child k names child k. */
  lemma {:induction false} ElementNames(v: Json, k: nat, rest: string, cs: bool)
    requires Nameable(v, cs) && k < Children(v) && AtEnd(rest)
    ensures Child(v, Element(v, k) + rest, cs) == Some(k) && RestOf(Element(v, k) + rest) == rest
  {
    var t := Element(v, k);
    if v.Array? {
      IndexRoundTrip(k, rest);
    } else {
      EncodeNoSlash(v.members[k].key);
      forall j | 0 <= j < |v.members| ensures ComparePointers(v.members[j].key, t + rest, cs) <==> j == k {
        CompareEncoded(v.members[j].key, v.members[k].key, rest, cs);
        EqualKeys(v.members[j].key, v.members[k].key, cs);
      }
    }
    RestOfElement(t, rest);
  }

  /** Following the pointer built for a node leads to exactly that node. */
  lemma {:induction false} FollowFound(v: Json, path: seq<nat>)
    requires Addressable(v) && IsNode(v, path)
    ensures Locate(v, PointerOf(v, path), true) == Some(path)
    decreases v
  {
    if path != [] {
      hide Child, RestOf, Element, ChildAt, Locate, Addressable, Nameable;
      var c := ChildAt(v, path[0]);
      AddressableChild(v, path[0]);
      FollowFound(c, path[1..]);
      FollowStep(v, path[0], PointerOf(c, path[1..]), path[1..]);
      assert [path[0]] + path[1..] == path;
    }
  }

  lemma FollowStep(v: Json, k: nat, rest: string, tail: seq<nat>)
    requires Nameable(v, true) && k < Children(v) && AtEnd(rest) && Locate(ChildAt(v, k), rest, true) == Some(tail)
    ensures Locate(v, "/" + Element(v, k) + rest, true) == Some([k] + tail)
  {
    hide Child, RestOf, Element, ChildAt, Locate, Nameable;
    ElementNames(v, k, rest, true);
    LocateStep(v, Element(v, k) + rest, true);
    assert "/" + Element(v, k) + rest == "/" + (Element(v, k) + rest);
  }

  /** One step of following. */
  lemma LocateStep(v: Json, e: string, cs: bool)
    ensures Locate(v, "/" + e, cs) ==
      var k := Child(v, e, cs);
      if k == None then None
      else
        var r := Locate(ChildAt(v, k.value), RestOf(e), cs);
        if r == None then None else Some([k.value] + r.value)
  {
    hide Child, RestOf;
    assert ("/" + e)[1..] == e;
  }

  lemma AddressableChild(v: Json, k: nat)
    requires Addressable(v) && k < Children(v)
    ensures Addressable(ChildAt(v, k)) && ChildAt(v, k) < v && Nameable(v, true)
  {
    if v.Object? { ToldExactly(v.members); }
  }

  /** Different nodes have different pointers. */
  lemma PointersDiffer(v: Json, a: seq<nat>, b: seq<nat>)
    requires Addressable(v) && IsNode(v, a) && IsNode(v, b) && a != b
    ensures PointerOf(v, a) != PointerOf(v, b)
  {
    FollowFound(v, a);
    FollowFound(v, b);
  }

  // ---- decode_pointer_inplace ----

  /** The buffer after decoding from read position s with write position d. */
  function DecodeFrom(buf: string, d: nat, s: nat): (r: string)
    requires d <= s <= |buf|
    decreases |buf| - s
  {
    if s == |buf| then buf[..d]
    else if buf[s] == '~' then
      if s + 1 < |buf| && buf[s + 1] == '0' then DecodeFrom(buf[d := '~'], d + 1, s + 2)
      else if s + 1 < |buf| && buf[s + 1] == '1' then DecodeFrom(buf[d + 1 := '/'], d + 1, s + 2)
      else buf
    else DecodeFrom(buf, d + 1, s + 1)
  }

  function DecodeInPlace(s: string): string
  {
    DecodeFrom(s, 0, 0)
  }

  /** decode_pointer_inplace on the characters of an array; the result is its first n characters. */
  method DecodePointerInPlace(a: array<char>) returns (n: nat)
    modifies a
    ensures n <= a.Length && a[..n] == DecodeInPlace(old(a[..]))
  {
    var d: nat, s: nat := 0, 0;
    while s < a.Length
      invariant d <= s <= a.Length
      invariant DecodeFrom(a[..], d, s) == DecodeInPlace(old(a[..]))
    {
      if a[s] == '~' {
        if s + 1 < a.Length && a[s + 1] == '0' {
          assert a[..][d := '~'][..] == a[..][d := '~'];
          a[d] := '~';
        } else if s + 1 < a.Length && a[s + 1] == '1' {
          a[d + 1] := '/';
        } else {
          assert a[..a.Length] == a[..];
          return a.Length;
        }
        s := s + 1;
      }
      d := d + 1;
      s := s + 1;
    }
    assert a[..][..d] == a[..d];
    return d;
  }

  /** Text without an escape is left alone. */
  lemma {:induction false} DecodePlain(buf: string, s: nat)
    requires s <= |buf| && '~' !in buf
    ensures DecodeFrom(buf, s, s) == buf
    decreases |buf| - s
  {
    if s == |buf| { assert buf[..s] == buf; } else { DecodePlain(buf, s + 1); }
  }

  lemma {:induction false} EncodePlain(key: string)
    requires '~' !in key && '/' !in key
    ensures Encode(key) == key
  {
    if key != "" {
      EncodePlain(key[1..]);
      assert key == [key[0]] + key[1..];
    }
  }

  /**
   The exact condition under which an encoded key is decoded to itself: no slash, and each
   character other than '~' stands in the encoded text where it stands in the key, since
   decoding never moves a character.
   */
  predicate Decodable(key: string)
  {
    '/' !in key && |key| <= |Encode(key)| && forall j :: 0 <= j < |key| ==> key[j] == '~' || Encode(key)[j] == key[j]
  }

  lemma {:induction false} EncodeLonger(key: string)
    ensures |key| <= |Encode(key)|
  {
    if key != "" { EncodeLonger(key[1..]); }
  }

  /** What has been written in front of the write position stays. */
  lemma {:induction false} PrefixKept(buf: string, d: nat, s: nat)
    requires d <= s <= |buf|
    ensures var r := DecodeFrom(buf, d, s); |r| >= d && r[..d] == buf[..d]
    decreases |buf| - s, 0
  {
    if s == |buf| {
    } else if buf[s] == '~' {
      if s + 1 < |buf| && buf[s + 1] == '0' {
        PrefixStep(buf, buf[d := '~'], d, s + 2);
      } else if s + 1 < |buf| && buf[s + 1] == '1' {
        PrefixStep(buf, buf[d + 1 := '/'], d, s + 2);
      }
    } else {
      PrefixStep(buf, buf, d, s + 1);
    }
  }

  lemma {:induction false} PrefixStep(buf: string, next: string, d: nat, s: nat)
    requires d + 1 <= s <= |buf| == |next| && next[..d] == buf[..d]
    ensures var r := DecodeFrom(next, d + 1, s); |r| >= d + 1 && r[..d] == buf[..d] && r[d] == next[d]
    decreases |buf| - s, 1
  {
    PrefixKept(next, d + 1, s);
    var r := DecodeFrom(next, d + 1, s);
    assert r[..d] == r[..d + 1][..d] == next[..d + 1][..d] == next[..d];
    assert r[d] == r[..d + 1][d] == next[..d + 1][d];
  }

  /** The encoded rest of the key still lies ahead. */
  predicate Ahead(key: string, buf: string, d: nat, s: nat)
  {
    d <= |key| && d <= s <= |buf| && buf[s..] == Encode(key[d..])
  }

  /** What decoding the encoded character c changes in the buffer. */
  function Written(c: char, buf: string, d: nat): (r: string)
    requires d + 1 < |buf| || (d < |buf| && c != '/')
    ensures |r| == |buf|
  {
    if c == '~' then buf[d := '~'] else if c == '/' then buf[d + 1 := '/'] else buf
  }

  /** One encoded character ahead. */
  lemma {:induction false} AheadStep(key: string, buf: string, d: nat, s: nat)
    requires Ahead(key, buf, d, s) && d < |key|
    ensures var n := |EncodeChar(key[d])|;
      && s + n <= |buf| && d + n <= |buf| && (key[d] == '/' ==> n == 2)
      && Ahead(key, Written(key[d], buf, d), d + 1, s + n)
      && DecodeFrom(buf, d, s) == DecodeFrom(Written(key[d], buf, d), d + 1, s + n)
  {
    hide DecodeFrom;
    assert key[d..][0] == key[d] && key[d..][1..] == key[d + 1..];
    AheadChar(buf, s, key[d], Encode(key[d + 1..]));
    hide Encode;
    var n := |EncodeChar(key[d])|;
    WrittenBefore(key[d], buf, d, s + n);
    DecodeStep(key[d], buf, d, s);
  }

  /** The encoded character at the read position and what follows it. */
  lemma AheadChar(buf: string, s: nat, c: char, rest: string)
    requires s <= |buf| && buf[s..] == EncodeChar(c) + rest
    ensures var e := EncodeChar(c);
      s + |e| <= |buf| && buf[s + |e|..] == rest && buf[s] == e[0] && (|e| == 2 ==> buf[s + 1] == e[1])
  {
    var e := EncodeChar(c);
    assert buf[s + |e|..] == buf[s..][|e|..];
    assert buf[s] == buf[s..][0];
    if |e| == 2 { assert buf[s + 1] == buf[s..][1]; }
  }

  lemma WrittenBefore(c: char, buf: string, d: nat, k: nat)
    requires d + |EncodeChar(c)| <= k <= |buf|
    ensures Written(c, buf, d)[k..] == buf[k..]
  {
  }

  lemma DecodeStep(c: char, buf: string, d: nat, s: nat)
    requires d <= s && s + |EncodeChar(c)| <= |buf| && buf[s] == EncodeChar(c)[0]
    requires |EncodeChar(c)| == 2 ==> buf[s + 1] == EncodeChar(c)[1]
    ensures DecodeFrom(buf, d, s) == DecodeFrom(Written(c, buf, d), d + 1, s + |EncodeChar(c)|)
  {
  }

  lemma {:induction false} DecodeAhead(key: string, buf: string, d: nat, s: nat)
    requires Ahead(key, buf, d, s) && '/' !in key
    ensures var r := DecodeFrom(buf, d, s);
      |r| == |key| <= |buf| && forall j :: d <= j < |key| ==> r[j] == if key[j] == '~' then '~' else buf[j]
    decreases |key| - d
  {
    hide DecodeFrom, Encode, EncodeChar;
    EncodeLonger(key[d..]);
    assert |key| <= |buf|;
    if d == |key| {
      DecodeNothing(key, buf, d, s);
    } else {
      AheadStep(key, buf, d, s);
      hide Ahead;
      var n := |EncodeChar(key[d])|;
      var next := Written(key[d], buf, d);
      assert next[..d] == buf[..d];
      PrefixStep(buf, next, d, s + n);
      DecodeAhead(key, next, d + 1, s + n);
    }
  }

  lemma DecodeNothing(key: string, buf: string, d: nat, s: nat)
    requires Ahead(key, buf, d, s) && d == |key|
    ensures |DecodeFrom(buf, d, s)| == d
  {
    assert key[d..] == "" && buf[s..] == "";
  }

  /** The first slash of a key is never restored. */
  lemma {:induction false} DecodeSlash(key: string, buf: string, d: nat, s: nat, m: nat)
    requires Ahead(key, buf, d, s) && d <= m < |key| && key[m] == '/'
    requires forall j :: d <= j < m ==> key[j] != '/'
    requires forall j :: d <= j < |buf| ==> buf[j] != '/'
    ensures var r := DecodeFrom(buf, d, s); |r| > m && r[m] != '/'
    decreases |key| - d
  {
    hide DecodeFrom, Encode, EncodeChar;
    AheadStep(key, buf, d, s);
    hide Ahead;
    var n := |EncodeChar(key[d])|;
    var next := Written(key[d], buf, d);
    if d == m {
      assert next[..d] == buf[..d];
      PrefixStep(buf, next, d, s + n);
    } else {
      DecodeSlash(key, next, d + 1, s + n, m);
    }
  }

  lemma {:induction false} FirstSlash(key: string) returns (m: nat)
    requires '/' in key
    ensures m < |key| && key[m] == '/' && forall j :: 0 <= j < m ==> key[j] != '/'
  {
    if key[0] == '/' { m := 0; } else { m := FirstSlash(key[1..]); m := m + 1; }
  }

  /** decode_pointer_inplace undoes encoding exactly on decodable keys. */
  lemma {:induction false} DecodeExact(key: string)
    ensures DecodeInPlace(Encode(key)) == key <==> Decodable(key)
  {
    hide DecodeFrom;
    var buf := Encode(key);
    assert key[0..] == key && buf[0..] == buf;
    EncodeLonger(key);
    EncodeNoSlash(key);
    if '/' in key {
      var m := FirstSlash(key);
      DecodeSlash(key, buf, 0, 0, m);
    } else {
      DecodeAhead(key, buf, 0, 0);
    }
  }

  lemma {:induction false} EncodeSplit(a: string, b: string)
    ensures Encode(a + b) == Encode(a) + Encode(b)
  {
    if a == "" {
      assert a + b == b;
    } else {
      assert (a + b)[1..] == a[1..] + b;
      EncodeSplit(a[1..], b);
    }
  }

  predicate TildesAndZeros(s: string)
  {
    forall i :: 0 <= i < |s| ==> s[i] == '~' || s[i] == '0'
  }

  lemma {:induction false} EncodeTildes(s: string)
    requires TildesAndZeros(s)
    ensures TildesAndZeros(Encode(s)) && (s != "" && s[0] == '~' ==> |Encode(s)| > |s|)
  {
    if s != "" {
      EncodeTildes(s[1..]);
      EncodeLonger(s[1..]);
    }
  }

  /** Behind the first '~' at p, a key that its own encoding resembles has only '~' and '0'. */
  lemma {:induction false} ResemblesBehind(key: string, p: nat, j: nat)
    requires p < j <= |key| <= |Encode(key)| && key[p] == '~' && '~' !in key[..p] && '/' !in key
    requires forall i :: p <= i < j ==> key[i] == '~' || ToLower(Encode(key)[i]) == ToLower(key[i])
    ensures TildesAndZeros(key[p..j]) && (j < |key| ==> Encode(key)[j] == '~' || Encode(key)[j] == '0')
    decreases j
  {
    hide Encode;
    var a, b, c := key[..p], key[p..j], key[j..];
    if j > p + 1 {
      ResemblesBehind(key, p, j - 1);
      assert b == key[p..j - 1] + [key[j - 1]];
    }
    assert key == a + (b + c);
    EncodeSplit(a, b + c);
    EncodeSplit(b, c);
    EncodePlain(a);
    assert b[0] == '~';
    EncodeTildes(b);
    assert j < |key| ==> Encode(key)[j] == Encode(b)[j - p];
  }

  /** In front of the first '~' the encoding is the key. */
  lemma {:induction false} ResemblesBefore(key: string, j: nat)
    requires j < |key| && '/' !in key && '~' !in key[..j + 1]
    ensures j < |Encode(key)| && Encode(key)[j] == key[j]
  {
    hide Encode;
    var a := key[..j + 1];
    assert key == a + key[j + 1..];
    EncodeSplit(a, key[j + 1..]);
    EncodePlain(a);
  }

  lemma {:induction false} FirstTilde(s: string) returns (p: nat)
    requires '~' in s
    ensures p < |s| && s[p] == '~' && '~' !in s[..p] && forall i :: 0 <= i < p ==> s[i] != '~'
  {
    if s[0] == '~' {
      p := 0;
    } else {
      p := FirstTilde(s[1..]);
      assert s[..p + 1] == [s[0]] + s[1..][..p];
      p := p + 1;
    }
  }

  lemma {:induction false} Resembles(key: string)
    requires '/' !in key && |key| <= |Encode(key)|
    requires forall i :: 0 <= i < |key| ==> key[i] == '~' || ToLower(Encode(key)[i]) == ToLower(key[i])
    ensures Decodable(key)
  {
    hide Encode;
    forall j | 0 <= j < |key| ensures key[j] == '~' || Encode(key)[j] == key[j] {
      if '~' in key[..j] {
        var p := FirstTilde(key[..j]);
        assert key[..j][..p] == key[..p];
        ResemblesBehind(key, p, j);
      } else if key[j] != '~' {
        assert key[..j + 1] == key[..j] + [key[j]];
        ResemblesBefore(key, j);
      }
    }
  }

  /** What an encoded key is decoded to differs from the key in more than case, unless it is the key. */
  lemma {:induction false} DecodedTells(key: string)
    ensures Tells(DecodeInPlace(Encode(key)), key, false)
  {
    hide DecodeFrom;
    var buf := Encode(key);
    var r := DecodeInPlace(buf);
    assert key[0..] == key && buf[0..] == buf;
    CompareChars(r, key, false);
    EncodeLonger(key);
    EncodeNoSlash(key);
    hide Encode;
    if '/' in key {
      var m := FirstSlash(key);
      DecodeSlash(key, buf, 0, 0, m);
      assert Fold(r[m], false) != Fold(key[m], false);
    } else if Compare(r, key, false) == 0 {
      DecodeAhead(key, buf, 0, 0);
      forall i | 0 <= i < |key| ensures key[i] == '~' || ToLower(buf[i]) == ToLower(key[i]) {
        assert Fold(r[i], false) == Fold(key[i], false);
      }
      Resembles(key);
      DecodeExact(key);
    }
  }

  // ---- decodable keys by their own characters ----

  function Tildes(s: string): nat
  {
    if s == "" then 0 else Tildes(s[..|s| - 1]) + if s[|s| - 1] == '~' then 1 else 0
  }

  /** Where the encoding of character i stands. */
  function Place(key: string, i: nat): nat
    requires i <= |key|
  {
    i + Tildes(key[..i])
  }

  /**
   No slash; behind the first '~' only '~' and '0'; and where the encoding of a '~' stands, the key
   has a '~' as well or has ended.
   */
  predicate Steady(key: string)
  {
    && '/' !in key
    && (forall i, j :: 0 <= i < j < |key| && key[i] == '~' ==> key[j] == '~' || key[j] == '0')
    && (forall i :: 0 <= i < |key| && key[i] == '~' && Place(key, i) < |key| ==> key[Place(key, i)] == '~')
  }

  lemma {:induction false} EncodedLength(s: string)
    requires '/' !in s
    ensures |Encode(s)| == |s| + Tildes(s)
    decreases |s|
  {
    if s != "" {
      var a, c := s[..|s| - 1], s[|s| - 1];
      assert s == a + [c] && [c][1..] == "";
      EncodedLength(a);
      EncodeSplit(a, [c]);
      assert Encode([c]) == EncodeChar(c) + Encode("");
    }
  }

  lemma {:induction false} EncodedAt(key: string, i: nat)
    requires '/' !in key && i < |key|
    ensures var e, k := Encode(key), Place(key, i);
      && k < |e| && e[k] == key[i] && Place(key, i + 1) == k + (if key[i] == '~' then 2 else 1)
      && (key[i] == '~' ==> k + 1 < |e| && e[k + 1] == '0')
  {
    var a, b := key[..i], key[i..];
    assert key == a + b && b[0] == key[i];
    EncodeSplit(a, b);
    EncodedLength(a);
    assert key[..i + 1] == a + [key[i]];
    assert (a + [key[i]])[..i] == a;
    assert Encode(b) == EncodeChar(key[i]) + Encode(b[1..]);
  }

  /** Each character of the encoding belongs to one of the key. */
  lemma {:induction false} EncodedFrom(key: string, n: nat, j: nat) returns (i: nat)
    requires '/' !in key && n <= |key| && j < Place(key, n)
    ensures i < n && (j == Place(key, i) || (key[i] == '~' && j == Place(key, i) + 1))
    decreases n
  {
    EncodedAt(key, n - 1);
    if j < Place(key, n - 1) {
      i := EncodedFrom(key, n - 1, j);
    } else {
      i := n - 1;
    }
  }

  lemma {:induction false} SteadyDecodable(key: string, j: nat)
    requires Steady(key) && j < |key| <= |Encode(key)| && key[j] != '~'
    ensures Encode(key)[j] == key[j]
  {
    hide Encode;
    if '~' in key[..j] {
      var p := FirstTilde(key[..j]);
      assert key[..j][..p] == key[..p] && key[p] == '~';
      var a, b := key[..p], key[p..];
      assert key == a + b;
      EncodeSplit(a, b);
      EncodePlain(a);
      EncodeTildes(b);
      assert Encode(key)[j] == Encode(b)[j - p];
      assert key[..|key|] == key;
      EncodedLength(key);
      var i := EncodedFrom(key, |key|, j);
      EncodedAt(key, i);
    } else {
      assert key[..j + 1] == key[..j] + [key[j]];
      ResemblesBefore(key, j);
    }
  }

  /** Decodable keys, told by their own characters. */
  lemma {:induction false} DecodableClosed(key: string)
    ensures Decodable(key) <==> Steady(key)
  {
    hide Encode;
    EncodeLonger(key);
    if Decodable(key) {
      forall i, j | 0 <= i < j < |key| && key[i] == '~' ensures key[j] == '~' || key[j] == '0' {
        var p := FirstTilde(key);
        assert p <= i;
        ResemblesBehind(key, p, |key|);
        assert key[p..|key|][j - p] == key[j];
      }
      forall i | 0 <= i < |key| && key[i] == '~' && Place(key, i) < |key| ensures key[Place(key, i)] == '~' {
        EncodedAt(key, i);
      }
    }
    if Steady(key) {
      forall j | 0 <= j < |key| ensures key[j] == '~' || Encode(key)[j] == key[j] {
        if key[j] != '~' { SteadyDecodable(key, j); }
      }
    }
  }

  /** The escapes of section 3 of RFC 6901, on two names of its section 5. */
  lemma TokenExamples()
    ensures Encode("a/b") == "a~1b" && Encode("m~n") == "m~0n"
  {
    assert "a/b"[1..] == "/b" && "/b"[1..] == "b" && "b"[1..] == "";
    assert Encode("b") == "b" + Encode("") && Encode("/b") == "~1" + Encode("b");
    assert "m~n"[1..] == "~n" && "~n"[1..] == "n" && "n"[1..] == "";
    assert Encode("n") == "n" + Encode("") && Encode("~n") == "~0" + Encode("n");
  }

  /** "a/b" and "~a" are not decodable. */
  lemma SlashLost()
    ensures !Decodable("a/b") && !Decodable("~a") && Decodable("a~")
  {
    assert Encode("a~") == "a~0" by {
      assert "a~"[1..] == "~" && "~"[1..] == "";
      assert Encode("~") == "~0" + Encode("");
    }
    assert "a/b"[1] == '/';
    assert Encode("~a") == "~0a" by {
      assert "~a"[1..] == "a" && "a"[1..] == "";
      assert Encode("a") == "a" + Encode("");
    }
    assert "~a"[1] == 'a' && "~0a"[1] == '0';
  }

  // ---- the code ----

  /** compare_pointers */
  method DoComparePointers(name: string, p: string, cs: bool) returns (same: bool)
    ensures same == ComparePointers(name, p, cs)
  {
    var n: nat, q: nat := 0, 0;
    assert name[0..] == name && p[0..] == p;
    while n < |name| && q < |p| && p[q] != '/'
      invariant n <= |name| && q <= |p|
      invariant ComparePointers(name, p, cs) == ComparePointers(name[n..], p[q..], cs)
    {
      assert name[n..][1..] == name[n + 1..] && p[q..][1..] == p[q + 1..];
      if p[q] == '~' {
        var escape := if q + 1 < |p| then p[q + 1] else NUL;
        if (escape != '0' || name[n] != '~') && (escape != '1' || name[n] != '/') {
          return false;
        } else {
          assert p[q..][2..] == p[q + 2..];
          q := q + 1;
        }
      } else if (!cs && ToLower(name[n]) != ToLower(p[q])) || (cs && name[n] != p[q]) {
        return false;
      }
      n := n + 1;
      q := q + 1;
    }
    if (q < |p| && p[q] != '/') != (n < |name|) {
      return false;
    }
    return true;
  }

  /** pointer_encoded_length: what encoding will write. */
  method PointerEncodedLength(s: string) returns (length: nat)
    ensures length == |Encode(s)|
  {
    length := 0;
    var i: nat := 0;
    assert s[0..] == s;
    while i < |s|
      invariant i <= |s| && length + |Encode(s[i..])| == |Encode(s)|
    {
      assert s[i..][0] == s[i] && s[i..][1..] == s[i + 1..];
      if s[i] == '~' || s[i] == '/' {
        length := length + 1;
      }
      i := i + 1;
      length := length + 1;
    }
  }

  /** encode_string_as_pointer, into memory that pointer_encoded_length has sized */
  method EncodeStringAsPointer(destination: array<char>, at: nat, source: string)
    requires at + |Encode(source)| < destination.Length
    modifies destination
    ensures destination[..at + |Encode(source)|] == old(destination[..at]) + Encode(source)
    ensures destination[at + |Encode(source)|] == NUL
  {
    ghost var pre := destination[..at];
    ghost var done := "";
    var d := at;
    var i: nat := 0;
    assert source[0..] == source && pre + done == pre && done + Encode(source) == Encode(source);
    while i < |source|
      invariant i <= |source| && d == at + |done|
      invariant done + Encode(source[i..]) == Encode(source)
      invariant destination[..d] == pre + done
    {
      EncodeProgress(source, i, done);
      hide Encode;
      ghost var e := EncodeChar(source[i]);
      d := EncodeOne(destination, d, source[i]);
      i := i + 1;
      assert pre + done + e == pre + (done + e);
      done := done + e;
    }
    assert Encode(source[i..]) == "" && done + "" == done;
    destination[d] := NUL;
  }

  method EncodeOne(destination: array<char>, at: nat, c: char) returns (d: nat)
    requires at + |EncodeChar(c)| <= destination.Length
    modifies destination
    ensures d == at + |EncodeChar(c)| && destination[..d] == old(destination[..at]) + EncodeChar(c)
  {
    d := at;
    if c == '/' {
      destination[d] := '~';
      destination[d + 1] := '1';
      d := d + 1;
    } else if c == '~' {
      destination[d] := '~';
      destination[d + 1] := '0';
      d := d + 1;
    } else {
      destination[d] := c;
    }
    d := d + 1;
  }

  lemma EncodeProgress(s: string, i: nat, done: string)
    requires i < |s| && done + Encode(s[i..]) == Encode(s)
    ensures done + EncodeChar(s[i]) + Encode(s[i + 1..]) == Encode(s)
    ensures |done| + |EncodeChar(s[i])| <= |Encode(s)|
  {
    assert s[i..][0] == s[i] && s[i..][1..] == s[i + 1..];
    assert Encode(s[i..]) == EncodeChar(s[i]) + Encode(s[i + 1..]);
  }

  /** decode_array_index_from_pointer */
  method DecodeArrayIndex(p: string) returns (r: Option<nat>)
    ensures r == DecodeIndex(p)
  {
    if |p| > 0 && p[0] == '0' && |p| > 1 && p[1] != '/' {
      return None;
    }
    var parsed: nat, position: nat := 0, 0;
    while position < |p| && p[position] >= '0' && p[0] <= '9'
      invariant position <= |p| && IndexRun(p, position, parsed) == IndexRun(p, 0, 0)
    {
      parsed := (10 * parsed + (p[position] as int - 48)) % SIZE_LIMIT;
      position := position + 1;
    }
    if position < |p| && p[position] != '/' {
      return None;
    }
    return Some(parsed);
  }

  function Onto(path: seq<nat>, r: Option<seq<nat>>): Option<seq<nat>>
  {
    if r == None then None else Some(path + r.value)
  }

  lemma OntoTwice(a: seq<nat>, b: seq<nat>, r: Option<seq<nat>>)
    ensures Onto(a, Onto(b, r)) == Onto(a + b, r) && Onto([], r) == r
  {
    if r.Some? { assert a + (b + r.value) == (a + b) + r.value && [] + r.value == r.value; }
  }

  /** get_item_from_pointer */
  method GetItemFromPointer(v: Json, pointer: string, cs: bool) returns (r: Option<seq<nat>>)
    ensures r == Locate(v, pointer, cs)
  {
    hide Locate, Child;
    var current, path, p := v, [], pointer;
    OntoTwice([], [], Locate(v, pointer, cs));
    while p != "" && p[0] == '/'
      invariant Locate(v, pointer, cs) == Onto(path, Locate(current, p, cs))
      decreases |p|
    {
      assert p == "/" + p[1..];
      p := p[1..];
      LocateStep(current, p, cs);
      var k := FindChild(current, p, cs);
      if k == None {
        return None;
      }
      OntoTwice(path, [k.value], Locate(ChildAt(current, k.value), RestOf(p), cs));
      current := ChildAt(current, k.value);
      path := path + [k.value];
      ghost var rest := RestOf(p);
      ghost var bound := |p|;
      while p != "" && p[0] != '/'
        invariant RestOf(p) == rest && |p| <= bound
        decreases |p|
      {
        p := p[1..];
      }
    }
    LocateHere(current, p, cs);
    assert path + [] == path;
    return Some(path);
  }

  lemma LocateHere(v: Json, p: string, cs: bool)
    requires p == "" || p[0] != '/'
    ensures Locate(v, p, cs) == Some([])
  {
  }

  /** The search for one path element inside the loop. */
  method FindChild(v: Json, p: string, cs: bool) returns (r: Option<nat>)
    ensures r == Child(v, p, cs)
  {
    if v.Array? {
      var index := DecodeArrayIndex(p);
      if index == None {
        return None;
      }
      return if index.value < |v.items| then index else None;
    } else if v.Object? {
      var i: nat := 0;
      ghost var found := NamedIndex(v.members, p, cs);
      while i < |v.members|
        invariant i <= |v.members| && forall j :: 0 <= j < i ==> !ComparePointers(v.members[j].key, p, cs)
      {
        var same := DoComparePointers(v.members[i].key, p, cs);
        if same {
          assert found == i;
          return Some(i);
        }
        i := i + 1;
      }
      return None;
    } else {
      return None;
    }
  }

  /**
   cJSONUtils_FindPointerFromObjectTo: search the tree below `here` for the node `target`. A
   pointer comes back exactly when the target lies in this subtree.
   */
  method FindPointer(v: Json, here: seq<nat>, target: seq<nat>) returns (r: Option<string>)
    ensures r == if here <= target && IsNode(v, target[|here|..]) then Some(PointerOf(v, target[|here|..])) else None
    decreases v
  {
    if here == target {
      return Some("");
    }
    var k: nat := 0;
    while k < Children(v)
      invariant k <= Children(v)
      invariant here < target && IsNode(v, target[|here|..]) ==> k <= target[|here|]
    {
      var child := ChildAt(v, k);
      assert here < target && target[|here|] == k ==> here + [k] <= target && target[|here + [k]|..] == target[|here|..][1..];
      var targetPointer := FindPointer(child, here + [k], target);
      if targetPointer.Some? {
        ghost var path := target[|here|..];
        assert target == here + path && path[0] == k;
        assert target[|here + [k]|..] == path[1..];
        if v.Array? {
          return Some("/" + Digits(k) + targetPointer.value);
        } else {
          var encoded := Encode(v.members[k].key);
          return Some("/" + encoded + targetPointer.value);
        }
      }
      k := k + 1;
    }
    return None;
  }
}
