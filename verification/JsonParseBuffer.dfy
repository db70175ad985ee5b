/**
 The parser's code: methods on a buffer with a moving offset and a nesting depth, proved to
 compute the functions of JsonParse. String bodies are decoded into an array of the size that
 the first pass over the literal computes, and containers become trees of fresh items whose
 child lists are complete rings.
 */
module JsonParseBuffer {
  import opened Json
  import opened JsonParse
  import opened JsonList
  import opened JsonHeap

  // ---- the size estimate of parse_string ----

  /** Number of two-character escapes the first pass sees in s[i..end]. */
  function Skips(s: string, i: nat, end: nat): (n: nat)
    requires end <= |s|
    ensures i <= end ==> n <= end - i
    decreases end - i
  {
    if i >= end then 0
    else if s[i] == '\\' && i + 1 < end then 1 + Skips(s, i + 2, end)
    else Skips(s, i + 1, end)
  }

  /**
   Bytes that may still be written when decoding stands at i. Decoding can get out of step with
   the first pass behind a malformed \u sequence; then i is the second half of an escape.
   */
  function Room(s: string, i: nat, end: nat, inStep: bool): int
    requires end <= |s|
  {
    if inStep then end - i - Skips(s, i, end) else end - i - Skips(s, i + 1, end)
  }

  /** The first pass stops at end: no escape reaches beyond it. */
  predicate Ends(s: string, i: nat, end: nat)
    requires end <= |s|
    ensures Ends(s, i, end) ==> i <= end
    decreases end - i
  {
    if i >= end then i == end else if s[i] == '\\' then Ends(s, i + 2, end) else Ends(s, i + 1, end)
  }

  /** Where decoding stands: in step with the first pass, or on the second half of an escape. */
  predicate Aligned(s: string, i: nat, end: nat, inStep: bool)
    requires end <= |s|
  {
    if inStep then Ends(s, i, end) else i < end && Ends(s, i + 1, end)
  }

  lemma {:induction false} FindQuoteEnds(s: string, i: nat)
    requires i <= |s| && FindQuote(s, i).Done?
    ensures Ends(s, i, FindQuote(s, i).next)
    decreases |s| - i
  {
    if s[i] == '\"' {
    } else if s[i] == '\\' {
      FindQuoteEnds(s, i + 2);
    } else {
      FindQuoteEnds(s, i + 1);
    }
  }

  /** An ordinary character uses up its own place. */
  lemma RoomPlain(s: string, i: nat, end: nat, inStep: bool)
    requires i < end <= |s| && Aligned(s, i, end, inStep) && s[i] != '\\'
    ensures Aligned(s, i + 1, end, true) && Room(s, i + 1, end, true) + 1 <= Room(s, i, end, inStep)
  {
  }

  /** A two-character escape leaves room for one; whether decoding is in step behind it. */
  lemma RoomEscape(s: string, i: nat, end: nat, inStep: bool) returns (inStep': bool)
    requires i < end < |s| && Aligned(s, i, end, inStep) && s[i] == '\\'
    ensures inStep' == (inStep || s[i + 1] != '\\' || i + 1 == end)
    ensures i + 2 <= end ==> Aligned(s, i + 2, end, inStep') && Room(s, i + 2, end, inStep') + 1 <= Room(s, i, end, inStep)
    ensures i + 2 > end ==> 1 <= Room(s, i, end, inStep)
  {
    inStep' := inStep || s[i + 1] != '\\' || i + 1 == end;
  }

  function After(s: string, i: nat): (j: nat)
    requires i < |s|
    ensures i < j <= i + 2
  {
    if s[i] == '\\' then i + 2 else i + 1
  }

  /** Each step of the first pass uses up room for one byte. */
  lemma RoomStep(s: string, i: nat, end: nat)
    requires i < end <= |s| && Ends(s, i, end)
    ensures Ends(s, After(s, i), end) && After(s, i) <= end
    ensures Room(s, After(s, i), end, true) + 1 == Room(s, i, end, true)
  {
  }

  /** Four characters from i on, in step: at least two steps of the first pass, four without an escape. */
  lemma RoomFour(s: string, i: nat, end: nat) returns (inStep: bool)
    requires i + 4 <= end <= |s| && Ends(s, i, end)
    ensures Aligned(s, i + 4, end, inStep) && Room(s, i + 4, end, inStep) + 2 <= Room(s, i, end, true)
    ensures (forall k :: i <= k < i + 4 ==> s[k] != '\\') ==> inStep && Room(s, i + 4, end, inStep) + 4 <= Room(s, i, end, true)
  {
    RoomStep(s, i, end);
    var a := After(s, i);
    RoomStep(s, a, end);
    var b := After(s, a);
    inStep := true;
    if b < i + 4 {
      RoomStep(s, b, end);
      var c := After(s, b);
      if c < i + 4 {
        RoomStep(s, c, end);
        inStep := After(s, c) == i + 4;
      } else {
        inStep := c == i + 4;
      }
    }
  }

  /** A \u sequence at i uses up at least as much room as it writes. */
  lemma RoomLiteral(s: string, i: nat, end: nat, inStep: bool) returns (inStep': bool)
    requires i + 1 < end < |s| && Aligned(s, i, end, inStep) && s[i] == '\\' && s[i + 1] == 'u'
    requires Utf16Literal(s, i, end).Done?
    ensures var u := Utf16Literal(s, i, end);
      Aligned(s, u.next, end, inStep') && Room(s, u.next, end, inStep') + |u.value| <= Room(s, i, end, inStep)
  {
    if inStep { RoomStep(s, i, end); } else { RoomStep(s, i + 1, end); }
    assert Ends(s, i + 2, end) && Room(s, i + 2, end, true) + 1 <= Room(s, i, end, inStep);
    HexNoEscape(s, i + 2);
    inStep' := RoomFour(s, i + 2, end);
    hide Room, Ends, Hex4, Utf8;
    if 0xD800 <= Hex4(s, i + 2) <= 0xDBFF {
      EndsAt(s, i + 6, end, inStep');
      RoomStep(s, i + 6, end);
      HexNoEscape(s, i + 8);
      inStep' := RoomFour(s, i + 8, end);
    } else {
      ShortUtf8(Hex4(s, i + 2));
    }
  }

  lemma EndsAt(s: string, i: nat, end: nat, inStep: bool)
    requires i <= end <= |s| && Aligned(s, i, end, inStep) && inStep
    ensures Ends(s, i, end)
  {
  }

  lemma HexNoEscape(s: string, i: nat)
    requires i + 4 <= |s|
    ensures Hex4(s, i) != 0 ==> forall k :: i <= k < i + 4 ==> s[k] != '\\'
  {
  }

  lemma ShortUtf8(cp: nat)
    requires cp < 0x1_0000
    ensures |Utf8(cp)| <= 3 && (cp == 0 ==> |Utf8(cp)| == 1)
  {
  }

  // ---- \u sequences ----

  function HexPrefix(s: string, i: nat, n: nat): nat
    requires i + n <= |s|
  {
    if n == 0 then 0 else 16 * HexPrefix(s, i, n - 1) + HexValue(s[i + n - 1])
  }

  lemma HexPrefixIs(s: string, i: nat)
    requires i + 4 <= |s| && forall k :: i <= k < i + 4 ==> HexValue(s[k]) < 16
    ensures Hex4(s, i) == HexPrefix(s, i, 4)
  {
    assert HexPrefix(s, i, 1) == HexValue(s[i]);
    assert HexPrefix(s, i, 2) == 16 * HexPrefix(s, i, 1) + HexValue(s[i + 1]);
    assert HexPrefix(s, i, 3) == 16 * HexPrefix(s, i, 2) + HexValue(s[i + 2]);
  }

  /** parse_hex4 */
  method ParseHex4(s: string, at: nat) returns (h: nat)
    requires at + 4 <= |s|
    ensures h == Hex4(s, at)
  {
    h := 0;
    var i: nat := 0;
    while i < 4
      invariant i <= 4
      invariant forall k :: at <= k < at + i ==> HexValue(s[k]) < 16
      invariant h == if i == 4 then HexPrefix(s, at, 4) else 16 * HexPrefix(s, at, i)
    {
      var c := s[at + i];
      assert HexPrefix(s, at, i + 1) == 16 * HexPrefix(s, at, i) + HexValue(s[at + i]);
      if '0' <= c && c <= '9' {
        h := h + (c as int - 48);
      } else if 'A' <= c && c <= 'F' {
        h := h + 10 + (c as int - 65);
      } else if 'a' <= c && c <= 'f' {
        h := h + 10 + (c as int - 97);
      } else {
        assert HexValue(s[at + i]) == 16;
        return 0;
      }
      if i < 3 {
        h := h * 16;
      }
      i := i + 1;
    }
    HexPrefixIs(s, at);
  }

  function Shifted(cp: nat, n: nat): nat
  {
    if n == 0 then cp else Shifted(cp, n - 1) / 64
  }

  function LeadMark(n: nat): nat
  {
    if n == 1 then 0 else if n == 2 then 0xC0 else if n == 3 then 0xE0 else 0xF0
  }

  lemma Utf8Bytes(cp: nat)
    requires cp < 0x11_0000
    ensures var b := Utf8(cp);
      && LeadMark(|b|) + Shifted(cp, |b| - 1) < 256 && b[0] as int == LeadMark(|b|) + Shifted(cp, |b| - 1)
      && forall j :: 1 <= j < |b| ==> b[j] as int == 0x80 + Shifted(cp, |b| - 1 - j) % 64
  {
    assert Shifted(cp, 1) == Shifted(cp, 0) / 64;
    assert Shifted(cp, 2) == Shifted(cp, 1) / 64;
    assert Shifted(cp, 3) == Shifted(cp, 2) / 64;
    var q := cp / 64;
    var r := q / 64;
    assert cp / 4096 == r && cp / 262144 == r / 64;
  }

  /** The encoding loop: from the last byte back to the first. */
  method WriteUtf8(cp: nat, length: nat, output: array<char>, at: nat)
    requires cp < 0x11_0000 && length == |Utf8(cp)| && at + length <= output.Length
    modifies output
    ensures output[..] == old(output[..at]) + Utf8(cp) + old(output[at + length..])
  {
    hide Utf8;
    Utf8Bytes(cp);
    ghost var b := Utf8(cp);
    var codepoint, position := cp, length - 1;
    while position > 0
      invariant 0 <= position <= length - 1
      invariant codepoint == Shifted(cp, length - 1 - position)
      invariant forall k :: 0 <= k < output.Length && !(at + position < k < at + length) ==> output[k] == old(output[k])
      invariant forall j :: position < j < length ==> output[at + j] == b[j]
    {
      output[at + position] := (0x80 + codepoint % 64) as char;
      codepoint := codepoint / 64;
      position := position - 1;
    }
    output[at] := (LeadMark(length) + codepoint) as char;
    assert forall j :: 0 <= j < length ==> output[at + j] == b[j];
    assert output[at..at + length] == b;
    assert output[..at] == old(output[..at]);
    assert output[at + length..] == old(output[at + length..]);
    assert output[..] == output[..at] + output[at..at + length] + output[at + length..];
  }

  /** utf16_literal_to_utf8; a length of 0 reports a failure. */
  method Utf16LiteralToUtf8(s: string, i: nat, end: nat, output: array<char>, at: nat) returns (sequenceLength: nat, written: nat)
    requires i <= end <= |s|
    requires var u := Utf16Literal(s, i, end); u.Done? ==> at + |u.value| <= output.Length
    modifies output
    ensures var u := Utf16Literal(s, i, end);
      if u.Failed? then sequenceLength == 0 && output[..] == old(output[..])
      else
        && sequenceLength == u.next - i && written == |u.value|
        && output[..] == old(output[..at]) + u.value + old(output[at + written..])
  {
    hide Hex4;
    var codepoint: nat := 0;
    written := 0;
    if end - i < 6 {
      return 0, 0;
    }
    var firstCode := ParseHex4(s, i + 2);
    if 0xDC00 <= firstCode && firstCode <= 0xDFFF {
      return 0, 0;
    }
    if 0xD800 <= firstCode && firstCode <= 0xDBFF {
      sequenceLength := 12;
      if end - (i + 6) < 6 {
        return 0, 0;
      }
      if s[i + 6] != '\\' || s[i + 7] != 'u' {
        return 0, 0;
      }
      var secondCode := ParseHex4(s, i + 8);
      if secondCode < 0xDC00 || secondCode > 0xDFFF {
        return 0, 0;
      }
      codepoint := 0x1_0000 + (firstCode - 0xD800) * 1024 + (secondCode - 0xDC00);
    } else {
      sequenceLength := 6;
      codepoint := firstCode;
    }
    if codepoint < 0x80 {
      written := 1;
    } else if codepoint < 0x800 {
      written := 2;
    } else if codepoint < 0x1_0000 {
      written := 3;
    } else {
      written := 4;
    }
    WriteUtf8(codepoint, written, output, at);
  }

  lemma PrependTwice(a: string, b: string, r: Parsed<string>)
    ensures Prepend(a, Prepend(b, r)) == Prepend(a + b, r)
  {
    if r.Done? { assert a + (b + r.value) == (a + b) + r.value; }
  }

  lemma PrependNothing(r: Parsed<string>)
    ensures Prepend("", r) == r
  {
    if r.Done? { assert "" + r.value == r.value; }
  }

  lemma RoomLeft(s: string, i: nat, end: nat, inStep: bool)
    requires i <= end <= |s| && Aligned(s, i, end, inStep)
    ensures Room(s, i, end, inStep) >= 0
  {
  }

  /** Decoding one character or escape at i adds this much. */
  function Chunk(s: string, i: nat, end: nat): (r: Parsed<string>)
    requires i < end < |s|
    ensures r.Done? ==> i < r.next <= end + 1
  {
    if s[i] != '\\' then Done([s[i]], i + 1)
    else if s[i + 1] == 'u' then Utf16Literal(s, i, end)
    else if Unescape(s[i + 1]) == NUL then Failed
    else Done([Unescape(s[i + 1])], i + 2)
  }

  lemma DecodeChunk(s: string, i: nat, end: nat)
    requires i < end < |s|
    ensures var c := Chunk(s, i, end);
      Decode(s, i, end) == if c.Failed? then Failed else Prepend(c.value, Decode(s, c.next, end))
  {
    hide Utf16Literal;
  }

  /** How much has been written when decoding stands at i, and how much may still be. */
  predicate WithinRoom(s: string, start: nat, i: nat, end: nat, inStep: bool, written: nat)
    requires start <= end <= |s|
  {
    && i <= end + 1
    && written <= Room(s, start, end, true)
    && (i <= end ==> Aligned(s, i, end, inStep) && written + Room(s, i, end, inStep) <= Room(s, start, end, true))
  }

  /** A chunk always fits into the room that is left. */
  lemma ChunkFits(s: string, start: nat, i: nat, end: nat, inStep: bool, written: nat) returns (inStep': bool)
    requires start <= end < |s| && i < end && WithinRoom(s, start, i, end, inStep, written)
    requires Chunk(s, i, end).Done?
    ensures var c := Chunk(s, i, end); WithinRoom(s, start, c.next, end, inStep', written + |c.value|)
  {
    inStep' := true;
    if s[i] != '\\' {
      RoomPlain(s, i, end, inStep);
      RoomLeft(s, i + 1, end, true);
    } else if s[i + 1] == 'u' {
      inStep' := RoomLiteral(s, i, end, inStep);
      hide Utf16Literal, Room, Aligned;
      RoomLeft(s, Utf16Literal(s, i, end).next, end, inStep');
    } else {
      inStep' := RoomEscape(s, i, end, inStep);
      if i + 2 <= end { RoomLeft(s, i + 2, end, inStep'); }
    }
  }

  /**
   The copying loop of parse_string. The array has the size the first pass asked for, and every
   write stays inside it, also behind malformed \u sequences.
   */
  method DecodeBody(s: string, start: nat, end: nat, output: array<char>) returns (ok: bool, n: nat)
    requires start <= end < |s| && Ends(s, start, end)
    requires output.Length == end - start + 1 - Skips(s, start, end) + 1
    modifies output
    ensures ok <==> Decode(s, start, end).Done?
    ensures ok ==> n < output.Length && output[n] == NUL && output[..n] == Decode(s, start, end).value
  {
    hide Decode, Utf16Literal, Ends, Skips;
    var i := start;
    n := 0;
    ghost var inStep := true;
    assert output[..0] == "";
    PrependNothing(Decode(s, start, end));
    while i < end
      invariant start <= i && WithinRoom(s, start, i, end, inStep, n)
      invariant n < output.Length
      invariant Decode(s, start, end) == Prepend(output[..n], Decode(s, i, end))
    {
      ghost var before := output[..n];
      ghost var c := Chunk(s, i, end);
      DecodeChunk(s, i, end);
      if c.Done? {
        ghost var next := ChunkFits(s, start, i, end, inStep, n);
        inStep := next;
        PrependTwice(before, c.value, Decode(s, c.next, end));
      }
      ghost var was := n;
      if s[i] != '\\' {
        output[n] := s[i];
        n := n + 1;
        i := i + 1;
      } else {
        var sequenceLength: nat := 2;
        var e := s[i + 1];
        if e == 'b' || e == 'f' || e == 'n' || e == 'r' || e == 't' || e == '\"' || e == '\\' || e == '/' {
          output[n] := Unescape(e);
          n := n + 1;
        } else if e == 'u' {
          var written;
          sequenceLength, written := Utf16LiteralToUtf8(s, i, end, output, n);
          if sequenceLength == 0 {
            return false, n;
          }
          n := n + written;
        } else {
          return false, n;
        }
        i := i + sequenceLength;
      }
      assert n == was + |c.value| && i == c.next;
      assert output[..n] == before + c.value;
    }
    assert Decode(s, i, end) == Done("", i) by { DecodeEnd(s, i, end); }
    assert output[..n] + "" == output[..n];
    output[n] := NUL;
    ok := true;
  }

  lemma DecodeEnd(s: string, i: nat, end: nat)
    requires end < |s| && end <= i <= end + 1
    ensures Decode(s, i, end) == Done("", i)
  {
  }

  function Chain<T>(front: seq<T>, r: Parsed<seq<T>>): Parsed<seq<T>>
  {
    if r.Done? then Done(front + r.value, r.next) else Failed
  }

  lemma ChainTwice<T>(a: seq<T>, b: seq<T>, r: Parsed<seq<T>>)
    ensures Chain(a, Chain(b, r)) == Chain(a + b, r)
    ensures Chain([], r) == r
  {
    if r.Done? {
      assert a + (b + r.value) == (a + b) + r.value;
      assert [] + r.value == r.value;
    }
  }

  /** Trees of fresh items in a full child list. */
  ghost predicate Grown(child: Item?, us: seq<Tree>)
    reads KidsNodes(us)`child, Inner(us)`next, Inner(us)`prev, Roots(us)`next, Roots(us)`prev
  {
    AreTrees(us, true) && IsRing(child, Roots(us))
  }

  /** The list that a container's loop has built: from head to current. */
  ghost predicate Growing(head: Item?, current: Item?, ts: seq<Tree>)
    reads KidsNodes(ts)`child, Inner(ts)`next, Inner(ts)`prev, Roots(ts)`next, Roots(ts)`prev
  {
    AreTrees(ts, true) && ChainTo(ts, current) && head == if ts == [] then null else ts[0].item
  }

  /** A new item with a parsed value. */
  method NewParsed(key: string, kind: Json, child: Item?, ghost us: seq<Tree>) returns (item: Item)
    requires Grown(child, us)
    ensures fresh(item) && item.key == key && item.content == kind && item.next == null
    ensures IsTree(Tree(item, us), true) && Nodes(Tree(item, us)) == KidsNodes(us) + {item}
  {
    assert allocated(us) && allocated(KidsNodes(us)) && allocated(Inner(us));
    RootsIn(us);
    item := new Item(key, kind);
    hide KidsNodes, Inner;
    item.child := child;
  }

  /** A parsed value becomes an item at the end of the list. */
  method AttachParsed(head: Item?, current: Item?, key: string, kind: Json, child: Item?, ghost ts: seq<Tree>, ghost us: seq<Tree>)
    returns (head': Item, current': Item, ghost ts': seq<Tree>)
    requires Growing(head, current, ts) && Grown(child, us) && KidsNodes(us) !! KidsNodes(ts)
    modifies Roots(ts)`next
    ensures Growing(head', current', ts') && fresh(current')
    ensures ts' == ts + [Tree(current', us)] && current'.key == key && current'.content == kind
    ensures KidsNodes(ts') == KidsNodes(ts) + KidsNodes(us) + {current'}
  {
    assert allocated(ts) && allocated(KidsNodes(ts)) && allocated(Inner(ts));
    RootsIn(ts);
    hide Nodes, KidsNodes, Inner, AreTrees, IsTree, Grown;
    current' := NewParsed(key, kind, child, us);
    ghost var u := Tree(current', us);
    AppendNodes(ts, u);
    ts' := ts + [u];
    LinkItem(current, current', ts, u);
    head' := if head == null then current' else head;
  }

  class ParseBuffer {
    const content: string
    var offset: nat
    var depth: nat

    ghost predicate Valid()
      reads this
    {
      offset <= |content| && depth <= NESTING_LIMIT
    }

    constructor (content: string)
      ensures Valid() && this.content == content && offset == 0 && depth == 0
    {
      this.content := content;
      offset, depth := 0, 0;
    }

    /** buffer_skip_whitespace */
    method SkipWhitespace()
      requires Valid()
      modifies this`offset
      ensures Valid() && offset == Skip(content, old(offset))
    {
      if offset >= |content| {
        return;
      }
      while offset < |content| && content[offset] <= ' '
        invariant old(offset) <= offset <= |content|
        invariant SkipEnd(content, offset) == SkipEnd(content, old(offset))
      {
        offset := offset + 1;
      }
      if offset == |content| {
        offset := offset - 1;
      }
    }

    /** parse_number: copy at most 63 characters, then strtod on the copy. */
    method DoParseNumber() returns (ok: bool, v: Json)
      requires Valid()
      modifies this`offset
      ensures Valid() && ok == ParseNumber(content, old(offset)).Done?
      ensures ok ==> v == ParseNumber(content, old(offset)).value && offset == ParseNumber(content, old(offset)).next
      ensures if ok then v.Int? else offset == old(offset)
    {
      var i: nat := 0;
      while i < 63 && offset + i < |content| && NumberChar(content[offset + i])
        invariant i <= 63 && offset + i <= |content|
        invariant SpanEnd(content, offset, NUMBER_LIMIT) == SpanEnd(content, offset + i, NUMBER_LIMIT - i)
      {
        i := i + 1;
      }
      assert offset + i == SpanEnd(content, offset, NUMBER_LIMIT);
      var r := IntegerToken(content[offset..offset + i]);
      if r.Failed? {
        return false, Null;
      }
      offset := offset + r.next;
      return true, Int(r.value);
    }

    /** parse_string, with the string's bytes up to the first NUL as the result */
    method DoParseString() returns (ok: bool, t: string)
      requires Valid() && offset < |content|
      modifies this`offset
      ensures Valid() && ok == ParseString(content, old(offset)).Done?
      ensures ok ==> t == ParseString(content, old(offset)).value && offset == ParseString(content, old(offset)).next
    {
      hide Decode, Ends, CString;
      if content[offset] != '\"' {
        return false, "";
      }
      var start := offset + 1;
      var inputEnd := start;
      var skippedBytes: nat := 0;
      ghost var q := FindQuote(content, start);
      while inputEnd < |content| && content[inputEnd] != '\"'
        invariant start <= inputEnd <= |content|
        invariant FindQuote(content, inputEnd) == q
        invariant q.Done? ==> inputEnd <= q.next && Skips(content, start, q.next) == skippedBytes + Skips(content, inputEnd, q.next)
      {
        if content[inputEnd] == '\\' {
          if inputEnd + 1 >= |content| {
            return false, "";
          }
          skippedBytes := skippedBytes + 1;
          inputEnd := inputEnd + 1;
        }
        inputEnd := inputEnd + 1;
      }
      if inputEnd >= |content| || content[inputEnd] != '\"' {
        return false, "";
      }
      FindQuoteEnds(content, start);
      assert skippedBytes == Skips(content, start, inputEnd);
      var allocationLength := inputEnd - offset - skippedBytes;
      var output := new char[allocationLength + 1];
      var n;
      ok, n := DecodeBody(content, start, inputEnd, output);
      if !ok {
        return false, "";
      }
      t := CString(output[..n]);
      offset := inputEnd + 1;
    }

    /** parse_value: the type and scalar value of an item, and its children. */
    method DoParseValue() returns (ok: bool, kind: Json, child: Item?, ghost us: seq<Tree>)
      requires Valid()
      modifies this
      ensures Valid() && ok == ParseValue(content, old(offset), old(depth)).Done?
      ensures ok ==> Done(Holding(kind, us), offset) == ParseValue(content, old(offset), old(depth)) && depth == old(depth)
      ensures Grown(child, us) && fresh(KidsNodes(us))
      decreases NESTING_LIMIT - depth, 2
    {
      hide ParseItems, ParseMembers, ParseNumber, ParseString, Skip;
      kind, child, us := Null, null, [];
      if offset + 4 <= |content| && content[offset..offset + 4] == "null" {
        offset := offset + 4;
        return true, Null, null, [];
      }
      if offset + 5 <= |content| && content[offset..offset + 5] == "false" {
        offset := offset + 5;
        return true, Bool(false), null, [];
      }
      if offset + 4 <= |content| && content[offset..offset + 4] == "true" {
        offset := offset + 4;
        return true, Bool(true), null, [];
      }
      if offset < |content| && content[offset] == '\"' {
        var t;
        ok, t := DoParseString();
        return ok, String(t), null, [];
      }
      if offset < |content| && (content[offset] == '-' || ('0' <= content[offset] && content[offset] <= '9')) {
        ok, kind := DoParseNumber();
        return ok, kind, null, [];
      }
      if offset < |content| && content[offset] == '[' {
        ok, child, us := DoParseArray();
        return ok, Array([]), child, us;
      }
      if offset < |content| && content[offset] == '{' {
        ok, child, us := DoParseObject();
        return ok, Object([]), child, us;
      }
      return false, Null, null, [];
    }

    /** parse_array */
    method DoParseArray() returns (ok: bool, child: Item?, ghost us: seq<Tree>)
      requires Valid() && offset < |content| && content[offset] == '['
      modifies this
      ensures Valid() && ok == ArrayResult(content, old(offset), old(depth)).Done?
      ensures ok ==> Done(Array(ItemsOf(us)), offset) == ArrayResult(content, old(offset), old(depth)) && depth == old(depth)
      ensures Grown(child, us) && fresh(KidsNodes(us))
      decreases NESTING_LIMIT - depth, 1
    {
      hide ParseValue, ParseItems, Skip, IsTree, Nodes, Inner;
      child, us := null, [];
      if depth >= NESTING_LIMIT {
        return false, null, [];
      }
      depth := depth + 1;
      offset := offset + 1;
      SkipWhitespace();
      if offset < |content| && content[offset] == ']' {
        depth := depth - 1;
        offset := offset + 1;
        return true, null, [];
      }
      if offset >= |content| {
        return false, null, [];
      }
      var head, current;
      ghost var ts;
      ok, head, current, ts := ParseElements();
      if !ok {
        return false, null, [];
      }
      depth := depth - 1;
      RootsIn(ts);
      CloseChain(head, current, ts);
      offset := offset + 1;
      return true, head, ts;
    }

    /** The loop of parse_array; it ends in front of the closing bracket. */
    method ParseElements() returns (ok: bool, head: Item?, current: Item?, ghost ts: seq<Tree>)
      requires Valid() && offset < |content| && 0 < offset && 0 < depth
      modifies this
      ensures Valid() && ok == ParseItems(content, old(offset), old(depth)).Done?
      ensures ok ==> depth == old(depth) && Done(ItemsOf(ts), offset + 1) == ParseItems(content, old(offset), old(depth))
      ensures Growing(head, current, ts) && fresh(KidsNodes(ts))
      decreases NESTING_LIMIT - depth, 4
    {
      hide ParseValue, ParseItems, Skip, ItemsPending, Growing, ItemsOf, MembersOf, ValueOf, Inner, Nodes;
      ghost var all := ParseItems(content, offset, depth);
      head, current, ts := null, null, [];
      GrowingNothing();
      offset := offset - 1;
      ItemsBegin(content, all, offset, depth);
      var more := true;
      while more
        invariant Valid() && offset < |content| && depth == old(depth)
        invariant ItemsPending(content, all, ItemsOf(ts), offset, depth, more)
        invariant Growing(head, current, ts) && fresh(KidsNodes(ts))
        decreases |content| - offset, if more then 1 else 0
      {
        ghost var here := offset;
        ghost var front := ItemsOf(ts);
        RootsIn(ts);
        assert allocated(ts) && allocated(KidsNodes(ts)) && allocated(Inner(ts));
        offset := offset + 1;
        SkipWhitespace();
        ok, head, current, ts := ParseElement("", head, current, ts);
        ItemsAdvance(content, all, front, here, old(depth), if ok then Done(ValueOf(ts[|ts| - 1]), offset) else Failed);
        if !ok {
          return false, head, current, ts;
        }
        RootsIn(ts);
        assert allocated(ts) && allocated(KidsNodes(ts)) && allocated(Inner(ts)) && allocated(Roots(ts));
        SkipWhitespace();
        if offset >= |content| {
          return false, head, current, ts;
        }
        more := content[offset] == ',';
      }
      ItemsFinish(content, all, ItemsOf(ts), offset, depth);
      ok := content[offset] == ']';
    }

    /** Parse a value and attach it as the next item; on failure the list stays as it is. */
    method ParseElement(key: string, head: Item?, current: Item?, ghost ts: seq<Tree>)
      returns (ok: bool, head': Item?, current': Item?, ghost ts': seq<Tree>)
      requires Valid() && Growing(head, current, ts)
      modifies this, Roots(ts)`next
      ensures Valid() && ok == ParseValue(content, old(offset), old(depth)).Done?
      ensures Growing(head', current', ts') && forall x :: x in KidsNodes(ts') ==> x in KidsNodes(ts) || fresh(x)
      ensures ok ==> depth == old(depth) && |ts'| == |ts| + 1 && ts'[..|ts|] == ts && ts'[|ts|].item.key == key
      ensures ok ==> Done(ValueOf(ts'[|ts|]), offset) == ParseValue(content, old(offset), old(depth))
      ensures ok ==> ItemsOf(ts') == ItemsOf(ts) + [ValueOf(ts'[|ts|])]
      ensures ok ==> MembersOf(ts') == MembersOf(ts) + [Member(key, ValueOf(ts'[|ts|]))]
      decreases NESTING_LIMIT - depth, 3
    {
      hide ParseValue, ItemsOf, MembersOf;
      head', current', ts' := head, current, ts;
      var kind, child;
      ghost var us;
      assert allocated(ts) && allocated(KidsNodes(ts)) && allocated(Inner(ts));
      RootsIn(ts);
      ok, kind, child, us := DoParseValue();
      if !ok {
        return;
      }
      hide Growing, Grown;
      head', current', ts' := AttachParsed(head, current, key, kind, child, ts, us);
      AppendValue(ts, Tree(current', us));
    }

    /** parse_object */
    method DoParseObject() returns (ok: bool, child: Item?, ghost us: seq<Tree>)
      requires Valid() && offset < |content| && content[offset] == '{'
      modifies this
      ensures Valid() && ok == ObjectResult(content, old(offset), old(depth)).Done?
      ensures ok ==> Done(Object(MembersOf(us)), offset) == ObjectResult(content, old(offset), old(depth)) && depth == old(depth)
      ensures Grown(child, us) && fresh(KidsNodes(us))
      decreases NESTING_LIMIT - depth, 1
    {
      hide ParseValue, ParseMembers, Skip, IsTree, Nodes, Inner;
      child, us := null, [];
      if depth >= NESTING_LIMIT {
        return false, null, [];
      }
      depth := depth + 1;
      offset := offset + 1;
      SkipWhitespace();
      if offset < |content| && content[offset] == '}' {
        depth := depth - 1;
        offset := offset + 1;
        return true, null, [];
      }
      if offset >= |content| {
        return false, null, [];
      }
      var head, current;
      ghost var ts;
      ok, head, current, ts := ParseNamed();
      if !ok {
        return false, null, [];
      }
      depth := depth - 1;
      RootsIn(ts);
      CloseChain(head, current, ts);
      offset := offset + 1;
      return true, head, ts;
    }

    /** The loop of parse_object; it ends in front of the closing brace. */
    method ParseNamed() returns (ok: bool, head: Item?, current: Item?, ghost ts: seq<Tree>)
      requires Valid() && offset < |content| && 0 < offset && 0 < depth
      modifies this
      ensures Valid() && ok == ParseMembers(content, old(offset), old(depth)).Done?
      ensures ok ==> depth == old(depth) && Done(MembersOf(ts), offset + 1) == ParseMembers(content, old(offset), old(depth))
      ensures Growing(head, current, ts) && fresh(KidsNodes(ts))
      decreases NESTING_LIMIT - depth, 5
    {
      hide ParseMember, ParseMembers, MembersPending, Growing, MembersOf;
      ghost var all := ParseMembers(content, offset, depth);
      head, current, ts := null, null, [];
      GrowingNothing();
      offset := offset - 1;
      MembersBegin(content, all, offset, depth);
      var more := true;
      while more
        invariant Valid() && offset < |content| && depth == old(depth)
        invariant MembersPending(content, all, MembersOf(ts), offset, depth, more)
        invariant Growing(head, current, ts) && fresh(KidsNodes(ts))
        decreases |content| - offset, if more then 1 else 0
      {
        ghost var here := offset;
        ghost var front := MembersOf(ts);
        ghost var m;
        RootsIn(ts);
        ok, head, current, ts, m := ParseOneMember(head, current, ts);
        MembersAdvance(content, all, front, here, old(depth), if ok then Done(m, offset) else Failed);
        if !ok {
          return false, head, current, ts;
        }
        if offset >= |content| {
          return false, head, current, ts;
        }
        more := content[offset] == ',';
      }
      MembersFinish(content, all, MembersOf(ts), offset, depth);
      ok := content[offset] == '}';
    }

    /** Name, colon and value behind an opening brace or a comma. */
    method ParseOneMember(head: Item?, current: Item?, ghost ts: seq<Tree>)
      returns (ok: bool, head': Item?, current': Item?, ghost ts': seq<Tree>, ghost m: Member)
      requires Valid() && offset < |content| && Growing(head, current, ts)
      modifies this, Roots(ts)`next
      ensures Valid() && ok == ParseMember(content, old(offset) + 1, old(depth)).Done?
      ensures Growing(head', current', ts') && forall x :: x in KidsNodes(ts') ==> x in KidsNodes(ts) || fresh(x)
      ensures ok ==> depth == old(depth) && Done(m, offset) == ParseMember(content, old(offset) + 1, old(depth))
      ensures ok ==> MembersOf(ts') == MembersOf(ts) + [m]
      decreases NESTING_LIMIT - depth, 4
    {
      hide ParseValue, ParseString, Skip, MembersOf, ItemsOf, ValueOf, Growing, KidsNodes, Inner, IsTree, AreTrees;
      head', current', ts', m := head, current, ts, Member("", Null);
      assert allocated(ts) && allocated(KidsNodes(ts)) && allocated(Inner(ts)) && allocated(Roots(ts));
      RootsIn(ts);
      if offset + 1 >= |content| {
        return false, head', current', ts', m;
      }
      offset := offset + 1;
      SkipWhitespace();
      var name;
      ok, name := DoParseString();
      if !ok {
        return;
      }
      SkipWhitespace();
      if offset >= |content| || content[offset] != ':' {
        return false, head', current', ts', m;
      }
      offset := offset + 1;
      SkipWhitespace();
      ok, head', current', ts' := ParseElement(name, head, current, ts);
      if !ok {
        return;
      }
      m := Member(name, ValueOf(ts'[|ts|]));
      RootsIn(ts');
      assert allocated(ts') && allocated(KidsNodes(ts')) && allocated(Inner(ts')) && allocated(Roots(ts'));
      SkipWhitespace();
    }

    /** cJSON_ParseWithLengthOpts on a fresh buffer */
    method ParseDocument(requireNul: bool) returns (ok: bool, item: Item?, ghost us: seq<Tree>)
      requires Valid() && offset == 0 && depth == 0
      modifies this
      ensures ok == ParseText(content, requireNul).Done?
      ensures ok ==> item != null && Done(ValueOf(Tree(item, us)), offset) == ParseText(content, requireNul)
      ensures ok ==> IsTree(Tree(item, us), true) && fresh(Nodes(Tree(item, us)))
    {
      hide ParseValue, Skip;
      if content == "" {
        return false, null, [];
      }
      if offset + 4 < |content| && content[0] == 0xEF as char && content[1] == 0xBB as char && content[2] == 0xBF as char {
        offset := offset + 3;
      }
      SkipWhitespace();
      var kind, child;
      ok, kind, child, us := DoParseValue();
      if !ok {
        return false, null, [];
      }
      assert allocated(us) && allocated(KidsNodes(us)) && allocated(Inner(us));
      RootsIn(us);
      if requireNul {
        SkipWhitespace();
        if offset >= |content| || content[offset] != NUL {
          return false, null, [];
        }
      }
      hide Grown, IsTree, AreTrees;
      item := NewParsed("", kind, child, us);
    }
  }

  lemma GrowingNothing()
    ensures Growing(null, null, []) && KidsNodes([]) == {} && ItemsOf([]) == [] && MembersOf([]) == []
  {
  }

  /** The array case of ParseValue. */
  function ArrayResult(s: string, i: nat, d: nat): Parsed<Json>
    requires i < |s| && d <= NESTING_LIMIT
  {
    if d >= NESTING_LIMIT then Failed
    else
      var j := Skip(s, i + 1);
      if j == |s| then Failed
      else if s[j] == ']' then Done(Array([]), j + 1)
      else
        var r := ParseItems(s, j, d + 1);
        if r.Done? then Done(Array(r.value), r.next) else Failed
  }

  lemma ItemsUnfold(s: string, i: nat, d: nat, v: Parsed<Json>)
    requires i <= |s| && d <= NESTING_LIMIT && v == ParseValue(s, Skip(s, i), d)
    ensures ParseItems(s, i, d) ==
      if v.Failed? then Failed
      else
        var k := Skip(s, v.next);
        if k == |s| then Failed
        else if s[k] == ',' then Chain([v.value], ParseItems(s, k + 1, d))
        else if s[k] == ']' then Done([v.value], k + 1)
        else Failed
  {
    hide ParseValue, Skip;
  }

  function ObjectResult(s: string, i: nat, d: nat): Parsed<Json>
    requires i < |s| && d <= NESTING_LIMIT
  {
    if d >= NESTING_LIMIT then Failed
    else
      var j := Skip(s, i + 1);
      if j == |s| then Failed
      else if s[j] == '}' then Done(Object([]), j + 1)
      else
        var r := ParseMembers(s, j, d + 1);
        if r.Done? then Done(Object(r.value), r.next) else Failed
  }

  lemma MembersUnfold(s: string, i: nat, d: nat, m: Parsed<Member>)
    requires i <= |s| && d <= NESTING_LIMIT && m == ParseMember(s, i, d)
    ensures ParseMembers(s, i, d) ==
      if m.Failed? || m.next == |s| then Failed
      else if s[m.next] == ',' then Chain([m.value], ParseMembers(s, m.next + 1, d))
      else if s[m.next] == '}' then Done([m.value], m.next + 1)
      else Failed
  {
    hide ParseMember;
  }

  /** Where the loop stands: a separator at o asks for more, a closing character ends it. */
  predicate ItemsPending(s: string, all: Parsed<seq<Json>>, front: seq<Json>, o: nat, d: nat, more: bool)
  {
    && o < |s| && d <= NESTING_LIMIT
    && (more ==> all == Chain(front, ParseItems(s, o + 1, d)))
    && (!more ==> if s[o] == ']' then all == Done(front, o + 1) else all.Failed?)
  }

  lemma ItemsBegin(s: string, all: Parsed<seq<Json>>, o: nat, d: nat)
    requires o < |s| && d <= NESTING_LIMIT && all == ParseItems(s, o + 1, d)
    ensures ItemsPending(s, all, [], o, d, true)
  {
    hide ParseItems;
    ChainTwice([], [], all);
  }

  lemma ItemsFinish(s: string, all: Parsed<seq<Json>>, front: seq<Json>, o: nat, d: nat)
    requires ItemsPending(s, all, front, o, d, false)
    ensures if s[o] == ']' then all == Done(front, o + 1) else all.Failed?
  {
  }

  lemma ItemsAdvance(s: string, all: Parsed<seq<Json>>, front: seq<Json>, o: nat, d: nat, v: Parsed<Json>)
    requires ItemsPending(s, all, front, o, d, true) && v == ParseValue(s, Skip(s, o + 1), d)
    ensures v.Failed? ==> all.Failed?
    ensures v.Done? ==>
      var k := Skip(s, v.next);
      if k == |s| then all.Failed? else ItemsPending(s, all, front + [v.value], k, d, s[k] == ',')
  {
    hide ParseValue, ParseItems, Skip;
    ItemsUnfold(s, o + 1, d, v);
    if v.Done? {
      var k := Skip(s, v.next);
      if k < |s| && s[k] == ',' {
        ChainTwice(front, [v.value], ParseItems(s, k + 1, d));
      }
    }
  }

  /** Where the loop stands: a separator at o asks for more, a closing character ends it. */
  predicate MembersPending(s: string, all: Parsed<seq<Member>>, front: seq<Member>, o: nat, d: nat, more: bool)
  {
    && o < |s| && d <= NESTING_LIMIT
    && (more ==> all == Chain(front, ParseMembers(s, o + 1, d)))
    && (!more ==> if s[o] == '}' then all == Done(front, o + 1) else all.Failed?)
  }

  lemma MembersBegin(s: string, all: Parsed<seq<Member>>, o: nat, d: nat)
    requires o < |s| && d <= NESTING_LIMIT && all == ParseMembers(s, o + 1, d)
    ensures MembersPending(s, all, [], o, d, true)
  {
    hide ParseMembers;
    ChainTwice([], [], all);
  }

  lemma MembersFinish(s: string, all: Parsed<seq<Member>>, front: seq<Member>, o: nat, d: nat)
    requires MembersPending(s, all, front, o, d, false)
    ensures if s[o] == '}' then all == Done(front, o + 1) else all.Failed?
  {
  }

  lemma MembersAdvance(s: string, all: Parsed<seq<Member>>, front: seq<Member>, o: nat, d: nat, m: Parsed<Member>)
    requires MembersPending(s, all, front, o, d, true) && m == ParseMember(s, o + 1, d)
    ensures m.Failed? || m.next == |s| ==> all.Failed?
    ensures m.Done? && m.next < |s| ==>
      MembersPending(s, all, front + [m.value], m.next, d, s[m.next] == ',')
  {
    hide ParseMember, ParseMembers;
    MembersUnfold(s, o + 1, d, m);
    if m.Done? && m.next < |s| && s[m.next] == ',' {
      ChainTwice(front, [m.value], ParseMembers(s, m.next + 1, d));
    }
  }
}
