/**
 Parsing the printed text of a value gives the value back and reads the whole text.
 */
module JsonRoundTrip {
  import opened Json
  import opened JsonParse

  lemma AtSplit(s: string, i: nat, a: string, b: string)
    requires At(s, i, a + b)
    ensures At(s, i, a) && At(s, i + |a|, b)
  {
    var t := s[i..i + |a + b|];
    assert t == a + b;
    assert s[i..i + |a|] == t[..|a|] == a;
    assert s[i + |a|..i + |a| + |b|] == t[|a|..] == b;
  }

  /** Three parts in a row, as most texts are made. */
  lemma AtSplit3(s: string, i: nat, a: string, b: string, c: string)
    requires At(s, i, a + b + c)
    ensures At(s, i, a) && At(s, i + |a|, b) && At(s, i + |a| + |b|, c)
  {
    AtSplit(s, i, a + b, c);
    AtSplit(s, i, a, b);
  }

  lemma AtChar(s: string, i: nat, t: string, k: nat)
    requires At(s, i, t) && k < |t|
    ensures i + k < |s| && s[i + k] == t[k]
  {
    assert s[i..i + |t|][k] == t[k];
  }

  // ---- white space ----

  lemma {:induction false} SkipTo(s: string, i: nat, j: nat)
    requires i <= j < |s| && s[j] > ' '
    requires forall k :: i <= k < j ==> s[k] <= ' '
    ensures Skip(s, i) == j
  {
    var e := SkipEnd(s, i);
    assert e < |s| ==> s[e] > ' ';
  }

  // ---- numbers ----

  lemma {:induction false} DigitsRoundTrip(n: nat)
    ensures Digits(n) != "" && forall k :: 0 <= k < |Digits(n)| ==> IsDigit(Digits(n)[k])
    ensures DigitsValue(Digits(n)) == n
  {
    if n < 10 {
      var t := Digits(n);
      assert t[..0] == "";
    } else {
      DigitsRoundTrip(n / 10);
      var t := Digits(n);
      assert t[..|t| - 1] == Digits(n / 10);
      assert t[|t| - 1] == Digit(n % 10);
    }
  }

  lemma {:induction false} DigitsLength(n: nat, p: nat, k: nat)
    requires k >= 1 && n < p && p == TenTo(k)
    ensures |Digits(n)| <= k
  {
    if n >= 10 {
      assert TenTo(1) == 10 * TenTo(0);
      DigitsLength(n / 10, TenTo(k - 1), k - 1);
    }
  }

  function TenTo(k: nat): nat { if k == 0 then 1 else 10 * TenTo(k - 1) }

  lemma IntDigits(n: nat)
    requires n <= 0x8000_0000
    ensures |Digits(n)| <= 10
  {
    assert TenTo(5) == 100000 && TenTo(10) == 100000 * TenTo(5);
    DigitsLength(n, TenTo(10), 10);
  }

  lemma {:induction false} SpanIs(s: string, i: nat, e: nat, room: nat)
    requires i <= e <= |s| && e - i <= room
    requires forall k :: i <= k < e ==> NumberChar(s[k])
    requires e == |s| || !NumberChar(s[e])
    ensures SpanEnd(s, i, room) == e
    decreases e - i
  {
    if i < e { SpanIs(s, i + 1, e, room - 1); }
  }

  lemma {:induction false} DigitsEndIs(s: string, i: nat, e: nat)
    requires i <= e <= |s| && forall k :: i <= k < e ==> IsDigit(s[k])
    ensures DigitsEnd(s, i, e) == e
    decreases e - i
  {
    if i < e { DigitsEndIs(s, i + 1, e); }
  }

  /** Text that goes on with something no number token can contain. */
  predicate Delimited(s: string, i: nat)
  {
    i <= |s| && (i < |s| ==> !NumberChar(s[i]))
  }

  lemma {:induction false} TokenRoundTrip(n: int)
    requires INT_MIN <= n <= INT_MAX
    ensures IntegerToken(Decimal(n)) == Done(n, |Decimal(n)|)
    ensures |Decimal(n)| <= 11 && forall k :: 0 <= k < |Decimal(n)| ==> NumberChar(Decimal(n)[k])
  {
    hide Digits, DigitsEnd, DigitsValue;
    var m := if n < 0 then 0 - n else n;
    DigitsRoundTrip(m);
    IntDigits(m);
    var t := Decimal(n);
    var a := if n < 0 then 1 else 0;
    assert t[a..] == Digits(m);
    forall k | a <= k < |t| ensures IsDigit(t[k]) { assert t[k] == Digits(m)[k - a]; }
    DigitsEndIs(t, a, |t|);
    assert t[a..|t|] == Digits(m);
  }

  lemma {:induction false} NumberRoundTrip(s: string, i: nat, n: int)
    requires INT_MIN <= n <= INT_MAX && At(s, i, Decimal(n)) && Delimited(s, i + |Decimal(n)|)
    ensures ParseNumber(s, i) == Done(Int(n), i + |Decimal(n)|)
  {
    hide IntegerToken, SpanEnd;
    TokenRoundTrip(n);
    var e := i + |Decimal(n)|;
    forall k | i <= k < e ensures NumberChar(s[k]) { AtChar(s, i, Decimal(n), k - i); }
    SpanIs(s, i, e, NUMBER_LIMIT);
  }

  // ---- strings ----

  /** One escaped character is decoded to itself. */
  lemma DecodeEscape(s: string, i: nat, end: nat, c: char)
    requires c != NUL && end < |s| && At(s, i, Escape(c)) && i + |Escape(c)| <= end
    ensures Decode(s, i, end) == Prepend([c], Decode(s, i + |Escape(c)|, end))
  {
    var t := Escape(c);
    AtChar(s, i, t, 0);
    if t[0] == '\\' {
      AtChar(s, i, t, 1);
      if t[1] == 'u' {
        AtChar(s, i, t, 2);
        AtChar(s, i, t, 3);
        AtChar(s, i, t, 4);
        AtChar(s, i, t, 5);
        assert HexValue('0') == 0;
        assert HexValue(HexDigit(c as int / 16)) == c as int / 16;
        assert HexValue(HexDigit(c as int % 16)) == c as int % 16;
        assert Hex4(s, i + 2) == c as int;
        assert Utf16Literal(s, i, end) == Done([c], i + 6);
      } else {
        assert Unescape(t[1]) == c;
      }
    }
  }

  lemma {:induction false} DecodeEscaped(s: string, i: nat, end: nat, t: string)
    requires IsCString(t) && end < |s| && At(s, i, Escaped(t)) && i + |Escaped(t)| == end
    ensures Decode(s, i, end) == Done(t, end)
    decreases |t|
  {
    hide Escape;
    if t != "" {
      assert Escaped(t) == Escape(t[0]) + Escaped(t[1..]);
      hide Escaped, Decode;
      AtSplit(s, i, Escape(t[0]), Escaped(t[1..]));
      DecodeEscape(s, i, end, t[0]);
      DecodeEscaped(s, i + |Escape(t[0])|, end, t[1..]);
      assert [t[0]] + t[1..] == t;
    }
  }

  lemma FindQuoteEscape(s: string, i: nat, c: char)
    requires c != NUL && At(s, i, Escape(c))
    ensures FindQuote(s, i) == FindQuote(s, i + |Escape(c)|)
  {
    var t := Escape(c);
    AtChar(s, i, t, 0);
    if t[0] == '\\' {
      AtChar(s, i, t, 1);
      if t[1] == 'u' {
        AtChar(s, i, t, 2);
        AtChar(s, i, t, 3);
        AtChar(s, i, t, 4);
        AtChar(s, i, t, 5);
        assert FindQuote(s, i) == FindQuote(s, i + 2);
        assert FindQuote(s, i + 2) == FindQuote(s, i + 3);
        assert FindQuote(s, i + 3) == FindQuote(s, i + 4);
        assert FindQuote(s, i + 4) == FindQuote(s, i + 5);
        assert FindQuote(s, i + 5) == FindQuote(s, i + 6);
      }
    }
  }

  lemma {:induction false} FindQuoteEscaped(s: string, i: nat, t: string)
    requires IsCString(t) && At(s, i, Escaped(t) + "\"")
    ensures FindQuote(s, i) == Done((), i + |Escaped(t)|)
    decreases |t|
  {
    hide Escape, At;
    if t == "" {
      AtSplit(s, i, "", "\"");
      AtChar(s, i, "\"", 0);
    } else {
      assert Escaped(t) + "\"" == Escape(t[0]) + (Escaped(t[1..]) + "\"");
      hide Escaped, FindQuote;
      AtSplit(s, i, Escape(t[0]), Escaped(t[1..]) + "\"");
      FindQuoteEscape(s, i, t[0]);
      FindQuoteEscaped(s, i + |Escape(t[0])|, t[1..]);
    }
  }

  lemma {:induction false} CStringKeeps(t: string)
    requires IsCString(t)
    ensures CString(t) == t
  {
    if t != "" {
      CStringKeeps(t[1..]);
      assert [t[0]] + t[1..] == t;
    }
  }

  lemma {:induction false} StringRoundTrip(s: string, i: nat, t: string)
    requires IsCString(t) && At(s, i, Quoted(t))
    ensures ParseString(s, i) == Done(t, i + |Quoted(t)|)
  {
    hide Escaped, Decode, FindQuote, CString;
    assert Quoted(t) == "\"" + (Escaped(t) + "\"");
    AtSplit(s, i, "\"", Escaped(t) + "\"");
    AtChar(s, i, "\"", 0);
    FindQuoteEscaped(s, i + 1, t);
    AtSplit(s, i + 1, Escaped(t), "\"");
    DecodeEscaped(s, i + 1, i + 1 + |Escaped(t)|, t);
    CStringKeeps(t);
  }

  // ---- values ----

  /** No text starts with white space or with a byte order mark. */
  lemma {:induction false} TextStart(v: Json, format: bool, depth: nat)
    ensures var t := Text(v, format, depth);
      t != "" && ' ' < t[0] < 0x80 as char && t[0] != ']' && t[0] != '}'
  {
    if v.Int? {
      DigitsRoundTrip(if v.n < 0 then 0 - v.n else v.n);
      assert v.n >= 0 ==> IsDigit(Digits(v.n)[0]);
    }
  }

  lemma {:induction false} LeafRoundTrip(s: string, i: nat, v: Json, format: bool, depth: nat, d: nat)
    requires !v.Array? && !v.Object? && WellFormed(v) && d <= NESTING_LIMIT
    requires At(s, i, Text(v, format, depth)) && Delimited(s, i + |Text(v, format, depth)|)
    ensures ParseValue(s, i, d) == Done(v, i + |Text(v, format, depth)|)
  {
    hide Digits, Escaped, Decode, FindQuote, CString, ParseItems, ParseMembers;
    TextStart(v, format, depth);
    var t := Text(v, format, depth);
    AtChar(s, i, t, 0);
    assert s[i] != 'n' ==> !At(s, i, "null") by { if At(s, i, "null") { AtChar(s, i, "null", 0); } }
    assert s[i] != 'f' ==> !At(s, i, "false") by { if At(s, i, "false") { AtChar(s, i, "false", 0); } }
    assert s[i] != 't' ==> !At(s, i, "true") by { if At(s, i, "true") { AtChar(s, i, "true", 0); } }
    match v
    case String(q) => StringRoundTrip(s, i, q);
    case Int(n) =>
      NumberRoundTrip(s, i, n);
      DigitsRoundTrip(if n < 0 then 0 - n else n);
      assert n >= 0 ==> IsDigit(Digits(n)[0]);
    case _ =>
  }

  /**
   Wherever the text of v stands in a buffer, with something behind it that cannot continue a
   number, parsing there yields v and stops right behind the text.
   */
  lemma {:induction false} ValueRoundTrip(s: string, i: nat, v: Json, format: bool, depth: nat, d: nat)
    requires WellFormed(v) && d + Nesting(v) <= NESTING_LIMIT
    requires At(s, i, Text(v, format, depth)) && Delimited(s, i + |Text(v, format, depth)|)
    ensures ParseValue(s, i, d) == Done(v, i + |Text(v, format, depth)|)
    decreases v
  {
    match v
    case Array(items) => ArrayRoundTrip(s, i, v, format, depth, d);
    case Object(ms) => ObjectRoundTrip(s, i, v, format, depth, d);
    case _ => LeafRoundTrip(s, i, v, format, depth, d);
  }

  lemma Opens(s: string, i: nat, c: char)
    requires i < |s| && s[i] == c && (c == '[' || c == '{')
    ensures !At(s, i, "null") && !At(s, i, "false") && !At(s, i, "true")
  {
    assert !At(s, i, "null") by { if At(s, i, "null") { AtChar(s, i, "null", 0); } }
    assert !At(s, i, "false") by { if At(s, i, "false") { AtChar(s, i, "false", 0); } }
    assert !At(s, i, "true") by { if At(s, i, "true") { AtChar(s, i, "true", 0); } }
  }

  lemma ArrayLayout(s: string, i: nat, items: seq<Json>, format: bool, depth: nat)
    requires At(s, i, Text(Array(items), format, depth))
    ensures var t := ItemsText(items, format, depth + 1);
      && |Text(Array(items), format, depth)| == |t| + 2
      && i + |t| + 1 < |s| && s[i] == '[' && s[i + 1 + |t|] == ']' && At(s, i + 1, t) && At(s, i + 1 + |t|, "]")
  {
    hide ItemsText, At;
    var t := ItemsText(items, format, depth + 1);
    AtSplit3(s, i, "[", t, "]");
    AtChar(s, i, "[", 0);
    AtChar(s, i + 1 + |t|, "]", 0);
  }

  /** What ParseValue does at an opening bracket. */
  lemma AtBracket(s: string, i: nat, d: nat)
    requires i < |s| && s[i] == '[' && d < NESTING_LIMIT
    requires var j := Skip(s, i + 1); j < |s|
    ensures var j := Skip(s, i + 1);
      ParseValue(s, i, d) ==
      if s[j] == ']' then Done(Array([]), j + 1)
      else var r := ParseItems(s, j, d + 1); if r.Done? then Done(Array(r.value), r.next) else Failed
  {
    hide Skip, ParseItems, ParseMembers, ParseString, ParseNumber;
    Opens(s, i, '[');
  }

  lemma {:induction false} ArrayRoundTrip(s: string, i: nat, v: Json, format: bool, depth: nat, d: nat)
    requires v.Array? && WellFormed(v) && d + Nesting(v) <= NESTING_LIMIT
    requires At(s, i, Text(v, format, depth))
    ensures ParseValue(s, i, d) == Done(v, i + |Text(v, format, depth)|)
    decreases v, 0
  {
    hide Text, ItemsText, ParseValue, ParseItems, ItemsNesting, At, Skip;
    var items := v.items;
    ArrayLayout(s, i, items, format, depth);
    if items == [] {
      ItemsTextEmpty(format, depth + 1);
    } else {
      ItemsStart(s, i + 1, items, format, depth + 1);
    }
    SkipTo(s, i + 1, i + 1);
    AtBracket(s, i, d);
    if items != [] {
      ItemsRoundTrip(s, i + 1, i + 1, items, format, depth + 1, d + 1);
    }
  }

  lemma ItemsTextEmpty(format: bool, depth: nat)
    ensures ItemsText([], format, depth) == ""
  {
  }

  lemma {:induction false} ItemsStart(s: string, i: nat, items: seq<Json>, format: bool, depth: nat)
    requires items != [] && At(s, i, ItemsText(items, format, depth))
    ensures i < |s| && s[i] > ' ' && s[i] != ']'
  {
    hide At, Text, ItemsText;
    var a := Text(items[0], format, depth);
    TextStart(items[0], format, depth);
    ItemsParts(s, i, items, format, depth);
    AtChar(s, i, a, 0);
  }

  lemma ItemsParts(s: string, i: nat, items: seq<Json>, format: bool, depth: nat)
    requires items != [] && At(s, i, ItemsText(items, format, depth))
    ensures var a, sep := Text(items[0], format, depth), if |items| > 1 then ItemSep(format) else "";
      var rest := ItemsText(items[1..], format, depth);
      && |ItemsText(items, format, depth)| == |a| + |sep| + |rest|
      && At(s, i, a) && At(s, i + |a|, sep) && At(s, i + |a| + |sep|, rest)
  {
    hide At, Text, ItemSep;
    var a, sep := Text(items[0], format, depth), if |items| > 1 then ItemSep(format) else "";
    var rest := ItemsText(items[1..], format, depth);
    assert ItemsText(items, format, depth) == a + sep + rest;
    hide ItemsText;
    AtSplit3(s, i, a, sep, rest);
  }

  /** The first element, its separator and what follows. */
  lemma {:induction false} ItemsLayout(s: string, i: nat, items: seq<Json>, format: bool, depth: nat)
    requires items != [] && At(s, i, ItemsText(items, format, depth))
    requires At(s, i + |ItemsText(items, format, depth)|, "]")
    ensures var a := Text(items[0], format, depth);
      var n := |ItemsText(items, format, depth)|;
      && At(s, i, a) && i + |a| < |s|
      && (|items| == 1 ==> n == |a| && s[i + |a|] == ']')
      && (|items| > 1 ==>
            var rest := ItemsText(items[1..], format, depth);
            var k := i + |a| + if format then 2 else 1;
            && i + n == k + |rest| && At(s, k, rest) && At(s, k + |rest|, "]")
            && s[i + |a|] == ',' && (format ==> s[i + |a| + 1] == ' ') && k < |s| && s[k] > ' ')
  {
    hide Text, ItemsText, At;
    ItemsParts(s, i, items, format, depth);
    var a := Text(items[0], format, depth);
    var sep := if |items| > 1 then ItemSep(format) else "";
    if |items| > 1 {
      AtChar(s, i + |a|, sep, 0);
      if format { AtChar(s, i + |a|, sep, 1); }
      ItemsStart(s, i + |a| + |sep|, items[1..], format, depth);
    } else {
      assert items[1..] == [];
      ItemsTextEmpty(format, depth);
      AtChar(s, i + |a|, "]", 0);
    }
  }

  /** What ParseItems does once the value it starts with is known. */
  lemma ItemsStep(s: string, i0: nat, i: nat, d: nat, v: Json, e: nat)
    requires i0 <= |s| && Skip(s, i0) == i && d <= NESTING_LIMIT && ParseValue(s, i, d) == Done(v, e)
    requires e < |s| && s[e] > ' '
    ensures s[e] == ']' ==> ParseItems(s, i0, d) == Done([v], e + 1)
    ensures s[e] == ',' ==>
      var r := ParseItems(s, e + 1, d);
      ParseItems(s, i0, d) == if r.Done? then Done([v] + r.value, r.next) else Failed
  {
    hide Skip, ParseValue, ParseItems;
    SkipTo(s, e, e);
    ItemsOnce(s, i0, d, v, e);
  }

  lemma ItemsOnce(s: string, i0: nat, d: nat, v: Json, e: nat)
    requires i0 <= |s| && d <= NESTING_LIMIT && ParseValue(s, Skip(s, i0), d) == Done(v, e) && e < |s| && Skip(s, e) == e
    ensures ParseItems(s, i0, d) ==
      if s[e] == ',' then (var r := ParseItems(s, e + 1, d); if r.Done? then Done([v] + r.value, r.next) else Failed)
      else if s[e] == ']' then Done([v], e + 1)
      else Failed
  {
    hide Skip, ParseValue;
  }

  lemma {:induction false} ItemsRoundTrip(s: string, i0: nat, i: nat, items: seq<Json>, format: bool, depth: nat, d: nat)
    requires items != [] && d + ItemsNesting(items) <= NESTING_LIMIT
    requires forall k :: 0 <= k < |items| ==> WellFormed(items[k])
    requires i0 <= |s| && Skip(s, i0) == i
    requires At(s, i, ItemsText(items, format, depth)) && At(s, i + |ItemsText(items, format, depth)|, "]")
    ensures ParseItems(s, i0, d) == Done(items, i + |ItemsText(items, format, depth)| + 1)
    decreases items, 1
  {
    hide Text, ItemsText, ParseItems, ParseValue, At, Skip;
    ItemsLayout(s, i, items, format, depth);
    var e := i + |Text(items[0], format, depth)|;
    ValueRoundTrip(s, i, items[0], format, depth, d);
    ItemsStep(s, i0, i, d, items[0], e);
    if |items| > 1 {
      var k := e + if format then 2 else 1;
      SkipTo(s, e + 1, k);
      ItemsRoundTrip(s, e + 1, k, items[1..], format, depth, d);
      assert [items[0]] + items[1..] == items;
    } else {
      assert [items[0]] == items;
    }
  }

  lemma ObjectParts(s: string, i: nat, ms: seq<Member>, format: bool, depth: nat)
    requires At(s, i, Text(Object(ms), format, depth))
    ensures var nl, t, ind := Newline(format), MembersText(ms, format, depth + 1), Indent(format, depth);
      && |Text(Object(ms), format, depth)| == 2 + |nl| + |t| + |ind|
      && At(s, i, "{") && At(s, i + 1, nl) && At(s, i + 1 + |nl|, t)
      && At(s, i + 1 + |nl| + |t|, ind) && At(s, i + 1 + |nl| + |t| + |ind|, "}")
  {
    hide MembersText, At, Newline, Indent;
    var nl, t, ind := Newline(format), MembersText(ms, format, depth + 1), Indent(format, depth);
    assert Text(Object(ms), format, depth) == ("{" + nl + t) + ind + "}";
    hide Text;
    AtSplit3(s, i, "{" + nl + t, ind, "}");
    AtSplit3(s, i, "{", nl, t);
  }

  lemma BlankIndent(s: string, i: nat, format: bool, depth: nat)
    requires At(s, i, Indent(format, depth))
    ensures |Indent(format, depth)| == if format then depth else 0
    ensures i + |Indent(format, depth)| <= |s| && forall k :: i <= k < i + |Indent(format, depth)| ==> s[k] <= ' '
  {
    var ind := Indent(format, depth);
    forall k | i <= k < i + |ind| ensures s[k] <= ' ' { AtChar(s, i, ind, k - i); }
  }

  lemma {:induction false} ObjectLayout(s: string, i: nat, ms: seq<Member>, format: bool, depth: nat)
    requires At(s, i, Text(Object(ms), format, depth))
    ensures var t := MembersText(ms, format, depth + 1);
      var j := i + 1 + if format then 1 else 0;
      var e := j + |t| + if format then depth else 0;
      && i + |Text(Object(ms), format, depth)| == e + 1 && e < |s| && At(s, j, t)
      && s[i] == '{' && s[e] == '}'
      && (forall k :: i < k < j ==> s[k] <= ' ') && (forall k :: j + |t| <= k < e ==> s[k] <= ' ')
  {
    hide Text, MembersText, At, Indent;
    ObjectParts(s, i, ms, format, depth);
    var t := MembersText(ms, format, depth + 1);
    var nl := Newline(format);
    var j := i + 1 + |nl|;
    AtChar(s, i, "{", 0);
    if format { AtChar(s, i + 1, nl, 0); }
    BlankIndent(s, j + |t|, format, depth);
    AtChar(s, j + |t| + |Indent(format, depth)|, "}", 0);
  }

  lemma AtBrace(s: string, i: nat, d: nat)
    requires i < |s| && s[i] == '{' && d < NESTING_LIMIT
    requires var j := Skip(s, i + 1); j < |s|
    ensures var j := Skip(s, i + 1);
      ParseValue(s, i, d) ==
      if s[j] == '}' then Done(Object([]), j + 1)
      else var r := ParseMembers(s, j, d + 1); if r.Done? then Done(Object(r.value), r.next) else Failed
  {
    hide Skip, ParseItems, ParseMembers, ParseString, ParseNumber;
    Opens(s, i, '{');
  }

  lemma {:induction false} ObjectRoundTrip(s: string, i: nat, v: Json, format: bool, depth: nat, d: nat)
    requires v.Object? && WellFormed(v) && d + Nesting(v) <= NESTING_LIMIT
    requires At(s, i, Text(v, format, depth))
    ensures ParseValue(s, i, d) == Done(v, i + |Text(v, format, depth)|)
    decreases v, 0
  {
    hide Text, MembersText, ParseValue, ParseMembers, MembersNesting, At, Skip;
    var ms := v.members;
    ObjectLayout(s, i, ms, format, depth);
    var t := MembersText(ms, format, depth + 1);
    var j := i + 1 + if format then 1 else 0;
    var e := j + |t| + if format then depth else 0;
    if ms == [] {
      MembersTextEmpty(format, depth + 1);
      SkipTo(s, i + 1, e);
      AtBrace(s, i, d);
    } else {
      MembersStart(s, j, ms, format, depth + 1);
      var q := j + if format then depth + 1 else 0;
      SkipTo(s, i + 1, q);
      AtBrace(s, i, d);
      SkipTo(s, q, q);
      MembersRoundTrip(s, q, j, ms, format, depth + 1, d + 1, e);
    }
  }

  lemma MembersTextEmpty(format: bool, depth: nat)
    ensures MembersText([], format, depth) == ""
  {
  }

  /** The members begin with white space and then a quote. */
  lemma {:induction false} MembersStart(s: string, i: nat, ms: seq<Member>, format: bool, depth: nat)
    requires ms != [] && At(s, i, MembersText(ms, format, depth))
    ensures var q := i + if format then depth else 0;
      && q < |s| && s[q] == '\"' && forall k :: i <= k < q ==> s[k] <= ' '
  {
    hide Text, Escaped, At, MemberText, MembersText, Indent;
    MembersTextFirst(s, i, ms, format, depth);
    MemberParts(s, i, ms[0], |ms| == 1, format, depth);
    BlankIndent(s, i, format, depth);
    AtChar(s, i + |Indent(format, depth)|, Quoted(ms[0].key), 0);
  }

  lemma MemberTextParts(m: Member, last: bool, format: bool, depth: nat)
    ensures MemberText(m, last, format, depth) ==
            (Indent(format, depth) + Quoted(m.key) + KeySep(format))
            + (Text(m.value, format, depth) + (if last then "" else ",") + Newline(format))
  {
    hide Quoted, Text, Indent, KeySep, Newline;
  }

  lemma MemberParts(s: string, i: nat, m: Member, last: bool, format: bool, depth: nat)
    requires At(s, i, MemberText(m, last, format, depth))
    ensures var ind, key, sep := Indent(format, depth), Quoted(m.key), KeySep(format);
      var val, comma, nl := Text(m.value, format, depth), if last then "" else ",", Newline(format);
      var a := i + |ind|;
      var b := a + |key|;
      var c := b + |sep|;
      var e := c + |val|;
      && At(s, i, ind) && At(s, a, key) && At(s, b, sep) && At(s, c, val) && At(s, e, comma) && At(s, e + |comma|, nl)
      && i + |MemberText(m, last, format, depth)| == e + |comma| + |nl|
  {
    hide Quoted, Text, MemberText, At, Indent, KeySep, Newline;
    var ind, key, sep := Indent(format, depth), Quoted(m.key), KeySep(format);
    var val, comma, nl := Text(m.value, format, depth), if last then "" else ",", Newline(format);
    MemberTextParts(m, last, format, depth);
    AtSplit(s, i, ind + key + sep, val + comma + nl);
    AtSplit3(s, i, ind, key, sep);
    AtSplit3(s, i + |ind| + |key| + |sep|, val, comma, nl);
  }

  lemma {:induction false} MemberLayout(s: string, i: nat, m: Member, last: bool, format: bool, depth: nat)
    requires At(s, i, MemberText(m, last, format, depth))
    ensures var a := i + if format then depth else 0;
      var b := a + |Quoted(m.key)|;
      var c := b + if format then 2 else 1;
      var e := c + |Text(m.value, format, depth)|;
      && At(s, a, Quoted(m.key)) && b < |s| && s[b] == ':' && (forall k :: b < k < c ==> s[k] <= ' ')
      && At(s, c, Text(m.value, format, depth)) && (!last ==> e < |s| && s[e] == ',')
      && (format ==> e + (if last then 0 else 1) < |s| && s[e + if last then 0 else 1] == '\n')
      && i + |MemberText(m, last, format, depth)| == e + (if last then 0 else 1) + (if format then 1 else 0)
  {
    hide Quoted, Text, MemberText, At, Indent;
    MemberParts(s, i, m, last, format, depth);
    BlankIndent(s, i, format, depth);
    var sep, comma, nl := KeySep(format), if last then "" else ",", Newline(format);
    var b := i + |Indent(format, depth)| + |Quoted(m.key)|;
    var e := b + |sep| + |Text(m.value, format, depth)|;
    AtChar(s, b, sep, 0);
    if format { AtChar(s, b, sep, 1); AtChar(s, e + |comma|, nl, 0); }
    if !last { AtChar(s, e, comma, 0); }
  }

  /** What ParseMember does once its parts are known. */
  lemma MemberStep(s: string, i0: nat, a: nat, b: nat, c: nat, e: nat, m: Member, d: nat)
    requires i0 < |s| && Skip(s, i0) == a && a < |s| && ParseString(s, a) == Done(m.key, b)
    requires b < c <= |s| && s[b] == ':' && Skip(s, b + 1) == c
    requires d <= NESTING_LIMIT && ParseValue(s, c, d) == Done(m.value, e)
    ensures e <= |s| && ParseMember(s, i0, d) == Done(m, Skip(s, e))
  {
    SkipTo(s, b, b);
    hide Skip, ParseString, ParseValue;
  }

  /** One member: i0 is any offset from which white space leads to the key. */
  lemma {:induction false} MemberRoundTrip(s: string, i0: nat, i: nat, m: Member, last: bool, format: bool, depth: nat, d: nat, next: nat)
    requires IsCString(m.key) && WellFormed(m.value) && d + Nesting(m.value) <= NESTING_LIMIT
    requires At(s, i, MemberText(m, last, format, depth))
    requires i0 < |s| && Skip(s, i0) == i + if format then depth else 0
    requires var e := i + |MemberText(m, last, format, depth)|;
      if last then e <= next < |s| && s[next] == '}' && forall k :: e <= k < next ==> s[k] <= ' '
      else next == e - (if format then 2 else 1)
    ensures ParseMember(s, i0, d) == Done(m, next) && (!last ==> next < |s| && s[next] == ',')
    decreases m
  {
    hide Text, Quoted, MemberText, At, Skip, ParseMember, ParseValue, ParseString, WellFormed, Nesting;
    MemberLayout(s, i, m, last, format, depth);
    var a := i + if format then depth else 0;
    var b := a + |Quoted(m.key)|;
    var c := b + if format then 2 else 1;
    var e := c + |Text(m.value, format, depth)|;
    TextStart(m.value, format, depth);
    AtChar(s, c, Text(m.value, format, depth), 0);
    StringRoundTrip(s, a, m.key);
    SkipTo(s, b + 1, c);
    assert Delimited(s, e);
    ValueRoundTrip(s, c, m.value, format, depth, d);
    MemberStep(s, i0, a, b, c, e, m, d);
    SkipTo(s, e, next);
  }

  /** What ParseMembers does once its first member is known. */
  lemma MembersStep(s: string, i0: nat, d: nat, m: Member, e: nat)
    requires i0 <= |s| && d <= NESTING_LIMIT && ParseMember(s, i0, d) == Done(m, e) && e < |s|
    ensures s[e] == '}' ==> ParseMembers(s, i0, d) == Done([m], e + 1)
    ensures s[e] == ',' ==>
      var r := ParseMembers(s, e + 1, d);
      ParseMembers(s, i0, d) == if r.Done? then Done([m] + r.value, r.next) else Failed
  {
    hide ParseMember;
  }

  lemma MembersTextFirst(s: string, i: nat, ms: seq<Member>, format: bool, depth: nat)
    requires ms != [] && At(s, i, MembersText(ms, format, depth))
    ensures var t := MemberText(ms[0], |ms| == 1, format, depth);
      var rest := MembersText(ms[1..], format, depth);
      At(s, i, t) && At(s, i + |t|, rest) && |MembersText(ms, format, depth)| == |t| + |rest|
  {
    hide At, MemberText;
    AtSplit(s, i, MemberText(ms[0], |ms| == 1, format, depth), MembersText(ms[1..], format, depth));
  }

  /** From the comma behind one member, white space leads to the key of the next. */
  lemma {:induction false} NextMember(s: string, i: nat, ms: seq<Member>, format: bool, depth: nat)
    requires |ms| > 1 && At(s, i, MembersText(ms, format, depth))
    ensures var e := i + |MemberText(ms[0], false, format, depth)|;
      var next := e - if format then 2 else 1;
      i <= next < e < |s| && Skip(s, next + 1) == e + if format then depth else 0
  {
    hide MemberText, MembersText, Skip, At, Text, Quoted;
    MembersTextFirst(s, i, ms, format, depth);
    MemberLayout(s, i, ms[0], false, format, depth);
    var e := i + |MemberText(ms[0], false, format, depth)|;
    MembersStart(s, e, ms[1..], format, depth);
    SkipTo(s, e - (if format then 2 else 1) + 1, e + if format then depth else 0);
  }

  lemma {:induction false} MembersRoundTrip(s: string, i0: nat, i: nat, ms: seq<Member>, format: bool, depth: nat, d: nat, end: nat)
    requires ms != [] && d + MembersNesting(ms) <= NESTING_LIMIT
    requires forall k :: 0 <= k < |ms| ==> IsCString(ms[k].key) && WellFormed(ms[k].value)
    requires At(s, i, MembersText(ms, format, depth))
    requires i0 < |s| && Skip(s, i0) == i + if format then depth else 0
    requires i + |MembersText(ms, format, depth)| <= end < |s| && s[end] == '}'
    requires forall k :: i + |MembersText(ms, format, depth)| <= k < end ==> s[k] <= ' '
    ensures ParseMembers(s, i0, d) == Done(ms, end + 1)
    decreases ms, 1
  {
    hide MemberText, MembersText, Skip, ParseMember, ParseMembers, WellFormed, At, IsCString;
    MembersTextFirst(s, i, ms, format, depth);
    var e := i + |MemberText(ms[0], |ms| == 1, format, depth)|;
    if |ms| == 1 {
      assert ms[1..] == [];
      MembersTextEmpty(format, depth);
      MemberRoundTrip(s, i0, i, ms[0], true, format, depth, d, end);
      MembersStep(s, i0, d, ms[0], end);
      assert [ms[0]] == ms;
    } else {
      NextMember(s, i, ms, format, depth);
      var next := e - if format then 2 else 1;
      MemberRoundTrip(s, i0, i, ms[0], false, format, depth, d, next);
      MembersStep(s, i0, d, ms[0], next);
      MembersRoundTrip(s, next + 1, e, ms[1..], format, depth, d, end);
      assert [ms[0]] + ms[1..] == ms;
    }
  }

  /**
   Printing any tree, formatted or not, and parsing the text gives the same tree and consumes
   the whole text: with the terminating NUL in the buffer (cJSON_Parse), where demanding the
   terminator makes no difference, and without it (cJSON_ParseWithLength).
   */
  lemma {:induction false} PrintThenParse(v: Json, format: bool, requireNul: bool)
    requires WellFormed(v) && Nesting(v) <= NESTING_LIMIT
    ensures ParseText(Text(v, format, 0) + [NUL], requireNul) == Done(v, |Text(v, format, 0)|)
    ensures ParseText(Text(v, format, 0), false) == Done(v, |Text(v, format, 0)|)
  {
    hide Text, ParseValue;
    var t := Text(v, format, 0);
    var s := t + [NUL];
    TextStart(v, format, 0);
    assert s[..|t|] == t && t[..|t|] == t;
    SkipTo(s, 0, 0);
    SkipTo(t, 0, 0);
    ValueRoundTrip(s, 0, v, format, 0, 0);
    ValueRoundTrip(t, 0, v, format, 0, 0);
    assert s[|t|] == NUL;
    assert Skip(s, |t|) == |t|;
  }

  // ---- everything the parser accepts can be printed and read again ----

  lemma {:induction false} ParsedValueFits(s: string, i: nat, d: nat)
    requires i <= |s| && d <= NESTING_LIMIT && ParseValue(s, i, d).Done?
    ensures var v := ParseValue(s, i, d).value; WellFormed(v) && d + Nesting(v) <= NESTING_LIMIT
    decreases NESTING_LIMIT - d, 0, 0
  {
    hide ParseItems, ParseMembers, ParseMember, Skip;
    var v := ParseValue(s, i, d).value;
    if v.Array? && v.items != [] {
      ParsedItemsFit(s, Skip(s, i + 1), d + 1);
    } else if v.Object? && v.members != [] {
      ParsedMembersFit(s, Skip(s, i + 1), d + 1);
    }
  }

  lemma {:induction false} ParsedItemsFit(s: string, i: nat, d: nat)
    requires i <= |s| && d <= NESTING_LIMIT && ParseItems(s, i, d).Done?
    ensures var vs := ParseItems(s, i, d).value;
      d + ItemsNesting(vs) <= NESTING_LIMIT && forall k :: 0 <= k < |vs| ==> WellFormed(vs[k])
    decreases NESTING_LIMIT - d, 1, |s| - i
  {
    hide ParseValue, Skip, WellFormed, Nesting;
    var v := ParseValue(s, Skip(s, i), d);
    ParsedValueFits(s, Skip(s, i), d);
    var k := Skip(s, v.next);
    var vs := ParseItems(s, i, d).value;
    if s[k] == ',' {
      ParsedItemsFit(s, k + 1, d);
      assert vs[1..] == ParseItems(s, k + 1, d).value;
    }
  }

  lemma {:induction false} ParsedMembersFit(s: string, i: nat, d: nat)
    requires i <= |s| && d <= NESTING_LIMIT && ParseMembers(s, i, d).Done?
    ensures var ms := ParseMembers(s, i, d).value;
      && d + MembersNesting(ms) <= NESTING_LIMIT
      && forall k :: 0 <= k < |ms| ==> IsCString(ms[k].key) && WellFormed(ms[k].value)
    decreases NESTING_LIMIT - d, 2, |s| - i
  {
    hide ParseMember, WellFormed, Nesting, IsCString;
    var m := ParseMember(s, i, d);
    ParsedMemberFits(s, i, d);
    var ms := ParseMembers(s, i, d).value;
    if s[m.next] == ',' {
      ParsedMembersFit(s, m.next + 1, d);
      assert ms[1..] == ParseMembers(s, m.next + 1, d).value;
    }
  }

  lemma {:induction false} ParsedMemberFits(s: string, i: nat, d: nat)
    requires i <= |s| && d <= NESTING_LIMIT && ParseMember(s, i, d).Done?
    ensures var m := ParseMember(s, i, d).value;
      IsCString(m.key) && WellFormed(m.value) && d + Nesting(m.value) <= NESTING_LIMIT
    decreases NESTING_LIMIT - d, 1, |s| - i
  {
    hide ParseValue, Skip, WellFormed, Nesting, IsCString;
    var name := ParseString(s, Skip(s, i));
    ParsedValueFits(s, Skip(s, Skip(s, name.next) + 1), d);
  }

  /** Whatever text was accepted, printing the result and parsing that gives the same result. */
  lemma {:induction false} ParsePrintParse(s: string, requireNul: bool, format: bool)
    requires ParseText(s, requireNul).Done?
    ensures var v := ParseText(s, requireNul).value;
      ParseText(Text(v, format, 0) + [NUL], true) == Done(v, |Text(v, format, 0)|)
  {
    hide ParseValue, Skip;
    var i := Skip(s, AfterBom(s));
    ParsedValueFits(s, i, 0);
    PrintThenParse(ParseValue(s, i, 0).value, format, true);
  }

  // ---- \u sequences ----

  /** The code point that a well-formed UTF-8 sequence encodes, by its length. */
  function CodePoint(b: string): int
    requires 1 <= |b| <= 4
  {
    if |b| == 1 then b[0] as int
    else if |b| == 2 then (b[0] as int - 0xC0) * 64 + (b[1] as int - 0x80)
    else if |b| == 3 then ((b[0] as int - 0xE0) * 64 + (b[1] as int - 0x80)) * 64 + (b[2] as int - 0x80)
    else (((b[0] as int - 0xF0) * 64 + (b[1] as int - 0x80)) * 64 + (b[2] as int - 0x80)) * 64 + (b[3] as int - 0x80)
  }

  /** UTF-8 output encodes the code point, in the shortest form, with the right lead and tail bytes. */
  lemma Utf8Encodes(cp: nat)
    requires cp < 0x11_0000
    ensures var b := Utf8(cp);
      && CodePoint(b) == cp
      && (|b| == 1 ==> b[0] as int < 0x80) && (|b| == 2 ==> 0xC2 <= b[0] as int < 0xE0)
      && (|b| == 3 ==> 0xE0 <= b[0] as int < 0xF0) && (|b| == 4 ==> 0xF0 <= b[0] as int < 0xF5)
      && (forall k :: 1 <= k < |b| ==> 0x80 <= b[k] as int < 0xC0)
      && |b| == (if cp < 0x80 then 1 else if cp < 0x800 then 2 else if cp < 0x1_0000 then 3 else 4)
  {
    var q := cp / 64;
    var r := q / 64;
    assert cp / 4096 == r && cp / 262144 == r / 64;
  }

  /** The hexadecimal digits are the sixteen usual ones, letters in either case, and nothing else. */
  lemma HexTable(c: char)
    ensures forall k :: 0 <= k < 16 ==> HexValue("0123456789abcdef"[k]) == k == HexValue("0123456789ABCDEF"[k])
    ensures HexValue(c) == 16 <==> c !in "0123456789abcdefABCDEF"
  {
    var t := "0123456789abcdefABCDEF";
    assert t[0] == '0' && t[9] == '9' && t[10] == 'a' && t[15] == 'f' && t[16] == 'A' && t[21] == 'F';
    if HexValue(c) < 10 {
      assert t[c as int - 48] == c;
    } else if HexValue(c) < 16 {
      assert c >= 'a' ==> t[c as int - 87] == c;
      assert c < 'a' ==> t[c as int - 49] == c;
    }
  }

  lemma Hex4At(s: string, i: nat, t: string)
    requires At(s, i, t) && IsHex(t)
    ensures i + 4 <= |s| && Hex4(s, i) == Hex4(t, 0)
  {
    AtChar(s, i, t, 0);
    AtChar(s, i, t, 1);
    AtChar(s, i, t, 2);
    AtChar(s, i, t, 3);
  }

  /** A \u sequence outside the surrogate range stands for its code point. */
  lemma PlainLiteral(s: string, i: nat, end: nat, t: string, cp: nat)
    requires At(s, i, "\\u" + t) && i + 6 <= end <= |s| && IsHex(t) && Hex4(t, 0) == cp && !(0xD800 <= cp <= 0xDFFF)
    ensures Utf16Literal(s, i, end) == Done(Utf8(cp), i + 6)
  {
    AtSplit(s, i, "\\u", t);
    Hex4At(s, i + 2, t);
  }

  /** A surrogate pair stands for the code point above 0xFFFF that section 7 of RFC 8259 gives it. */
  lemma SurrogatePair(s: string, i: nat, end: nat, t: string, u: string, cp: nat)
    requires 0x1_0000 <= cp < 0x11_0000 && i + 12 <= end <= |s|
    requires At(s, i, "\\u" + t) && At(s, i + 6, "\\u" + u)
    requires IsHex(t) && Hex4(t, 0) == 0xD800 + (cp - 0x1_0000) / 1024 && IsHex(u) && Hex4(u, 0) == 0xDC00 + (cp - 0x1_0000) % 1024
    ensures Utf16Literal(s, i, end) == Done(Utf8(cp), i + 12)
  {
    AtSplit(s, i, "\\u", t);
    AtSplit(s, i + 6, "\\u", u);
    AtChar(s, i + 6, "\\u", 0);
    AtChar(s, i + 6, "\\u", 1);
    hide Utf8, At, Hex4;
    Hex4At(s, i + 2, t);
    Hex4At(s, i + 8, u);
  }

  /** Half a pair is refused, whatever stands behind it. */
  lemma LoneSurrogate(s: string, i: nat, end: nat, t: string, h: nat)
    requires At(s, i, "\\u" + t) && i + 6 <= end <= |s| && IsHex(t) && Hex4(t, 0) == h && 0xD800 <= h <= 0xDFFF
    requires i + 12 <= end ==>
      h >= 0xDC00 || s[i + 6] != '\\' || s[i + 7] != 'u' || Hex4(s, i + 8) < 0xDC00 || Hex4(s, i + 8) > 0xDFFF
    ensures Utf16Literal(s, i, end).Failed?
  {
    AtSplit(s, i, "\\u", t);
    Hex4At(s, i + 2, t);
  }
}
