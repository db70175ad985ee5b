/**
 The texts of RFC 8259 with integer numbers, as syntax trees that choose their own white space
 and escapes, and the proof that the parser accepts each of them with the right value.
 */
module JsonGrammar {
  import opened Json
  import opened JsonParse
  import opened JsonRoundTrip

  // ---- strings ----

  /** One character of a string as section 7 allows to write it. */
  datatype Piece = Plain(c: char) | Short(c: char) | Unit(t: string) | Pair(t: string, u: string)

  predicate ValidPiece(p: Piece)
  {
    match p
    case Plain(c) => c >= ' ' && c != '\"' && c != '\\'
    case Short(c) => c in "\"\\/bfnrt"
    case Unit(t) => IsHex(t) && !(0xD800 <= Hex4(t, 0) <= 0xDFFF)
    case Pair(t, u) => IsHex(t) && IsHex(u) && 0xD800 <= Hex4(t, 0) <= 0xDBFF && 0xDC00 <= Hex4(u, 0) <= 0xDFFF
  }

  function PieceText(p: Piece): string
  {
    match p
    case Plain(c) => [c]
    case Short(c) => ['\\', c]
    case Unit(t) => "\\u" + t
    case Pair(t, u) => "\\u" + t + "\\u" + u
  }

  /**
   What the parser takes for one: any character but a backslash is plain, and four characters that
   are not all hexadecimal digits count as U+0000.
   */
  predicate LoosePiece(p: Piece)
  {
    match p
    case Plain(c) => c != '\\'
    case Short(c) => c in "\"\\/bfnrt"
    case Unit(t) => |t| == 4 && !(0xD800 <= Hex4(t, 0) <= 0xDFFF)
    case Pair(t, u) => |t| == 4 && |u| == 4 && 0xD800 <= Hex4(t, 0) <= 0xDBFF && 0xDC00 <= Hex4(u, 0) <= 0xDFFF
  }

  predicate LoosePieces(ps: seq<Piece>)
  {
    forall k :: 0 <= k < |ps| ==> LoosePiece(ps[k])
  }

  /** What section 7 lets it stand for, in UTF-8. */
  function PieceValue(p: Piece): string
    requires LoosePiece(p)
  {
    match p
    case Plain(c) => [c]
    case Short(c) =>
      [if c == 'b' then BACKSPACE else if c == 'f' then FORMFEED else if c == 'n' then '\n'
       else if c == 'r' then '\r' else if c == 't' then '\t' else c]
    case Unit(t) => Utf8(Hex4(t, 0))
    case Pair(t, u) => Utf8(0x1_0000 + (Hex4(t, 0) - 0xD800) * 1024 + (Hex4(u, 0) - 0xDC00))
  }

  predicate ValidPieces(ps: seq<Piece>)
  {
    forall k :: 0 <= k < |ps| ==> ValidPiece(ps[k])
  }

  function PiecesText(ps: seq<Piece>): string
  {
    if ps == [] then "" else PieceText(ps[0]) + PiecesText(ps[1..])
  }

  function PiecesValue(ps: seq<Piece>): string
    requires LoosePieces(ps)
  {
    if ps == [] then "" else PieceValue(ps[0]) + PiecesValue(ps[1..])
  }

  lemma HexAt(s: string, i: nat, t: string)
    requires At(s, i, t) && IsHex(t)
    ensures i + 4 <= |s| && Hex4(s, i) == Hex4(t, 0)
    ensures forall k :: i <= k < i + 4 ==> s[k] != '\"' && s[k] != '\\'
  {
    AtChar(s, i, t, 0);
    AtChar(s, i, t, 1);
    AtChar(s, i, t, 2);
    AtChar(s, i, t, 3);
    assert HexValue('\"') == 16 && HexValue('\\') == 16;
  }

  lemma UnitLiteral(s: string, i: nat, end: nat, h: string)
    requires ValidPiece(Unit(h)) && end <= |s| && At(s, i, "\\u" + h) && i + 6 <= end
    ensures s[i] == '\\' && s[i + 1] == 'u'
    ensures Utf16Literal(s, i, end) == Done(PieceValue(Unit(h)), i + 6)
  {
    AtSplit(s, i, "\\u", h);
    AtChar(s, i, "\\u", 0);
    AtChar(s, i, "\\u", 1);
    HexAt(s, i + 2, h);
    hide Hex4, Utf8, At;
  }

  lemma PairLiteral(s: string, i: nat, end: nat, h: string, l: string)
    requires ValidPiece(Pair(h, l)) && end <= |s| && At(s, i, "\\u" + h + "\\u" + l) && i + 12 <= end
    ensures s[i] == '\\' && s[i + 1] == 'u'
    ensures Utf16Literal(s, i, end) == Done(PieceValue(Pair(h, l)), i + 12)
  {
    AtSplit3(s, i, "\\u" + h, "\\u", l);
    AtSplit(s, i, "\\u", h);
    AtChar(s, i, "\\u", 0);
    AtChar(s, i, "\\u", 1);
    AtChar(s, i + 6, "\\u", 0);
    AtChar(s, i + 6, "\\u", 1);
    HexAt(s, i + 2, h);
    HexAt(s, i + 8, l);
    hide Hex4, Utf8, At;
  }

  /** Decoding one piece writes its value and moves behind it. */
  lemma DecodePiece(s: string, i: nat, end: nat, p: Piece)
    requires ValidPiece(p) && end < |s| && At(s, i, PieceText(p)) && i + |PieceText(p)| <= end
    ensures Decode(s, i, end) == Prepend(PieceValue(p), Decode(s, i + |PieceText(p)|, end))
  {
    hide Utf16Literal, Utf8, Hex4, IsHex;
    match p
    case Plain(c) => AtChar(s, i, PieceText(p), 0);
    case Short(c) => AtChar(s, i, PieceText(p), 0); AtChar(s, i, PieceText(p), 1);
    case Unit(h) =>
      IsFour(h);
      UnitLiteral(s, i, end, h);
    case Pair(h, l) =>
      IsFour(h);
      IsFour(l);
      PairLiteral(s, i, end, h, l);
  }

  lemma IsFour(t: string)
    requires IsHex(t)
    ensures |t| == 4
  {
  }

  lemma FindQuotePiece(s: string, i: nat, p: Piece)
    requires ValidPiece(p) && At(s, i, PieceText(p))
    ensures FindQuote(s, i) == FindQuote(s, i + |PieceText(p)|)
  {
    var t := PieceText(p);
    AtChar(s, i, t, 0);
    match p
    case Plain(c) =>
    case Short(c) => AtChar(s, i, t, 1);
    case Unit(h) =>
      AtSplit(s, i, "\\u", h);
      AtChar(s, i, t, 1);
      HexAt(s, i + 2, h);
      FindQuoteOver(s, i + 2, 4);
    case Pair(h, l) =>
      AtSplit3(s, i, "\\u" + h, "\\u", l);
      AtSplit(s, i, "\\u", h);
      AtChar(s, i + 6, "\\u", 0);
      AtChar(s, i + 6, "\\u", 1);
      HexAt(s, i + 2, h);
      HexAt(s, i + 8, l);
      FindQuoteOver(s, i + 2, 4);
      FindQuoteOver(s, i + 8, 4);
      assert FindQuote(s, i) == FindQuote(s, i + 2);
      assert FindQuote(s, i + 6) == FindQuote(s, i + 8);
  }

  lemma {:induction false} FindQuoteOver(s: string, i: nat, n: nat)
    requires i + n <= |s| && forall k :: i <= k < i + n ==> s[k] != '\"' && s[k] != '\\'
    ensures FindQuote(s, i) == FindQuote(s, i + n)
    decreases n
  {
    if n > 0 { FindQuoteOver(s, i + 1, n - 1); }
  }

  lemma {:induction false} DecodePieces(s: string, i: nat, end: nat, ps: seq<Piece>)
    requires ValidPieces(ps) && end < |s| && At(s, i, PiecesText(ps)) && i + |PiecesText(ps)| == end
    ensures Decode(s, i, end) == Done(PiecesValue(ps), end)
    decreases |ps|
  {
    if ps != [] {
      hide Decode, PieceText, PieceValue, At;
      AtSplit(s, i, PieceText(ps[0]), PiecesText(ps[1..]));
      DecodePiece(s, i, end, ps[0]);
      DecodePieces(s, i + |PieceText(ps[0])|, end, ps[1..]);
    }
  }

  lemma {:induction false} FindQuotePieces(s: string, i: nat, ps: seq<Piece>)
    requires ValidPieces(ps) && At(s, i, PiecesText(ps) + "\"")
    ensures FindQuote(s, i) == Done((), i + |PiecesText(ps)|)
    decreases |ps|
  {
    hide PieceText, At;
    if ps == [] {
      AtSplit(s, i, "", "\"");
      AtChar(s, i, "\"", 0);
    } else {
      assert PiecesText(ps) + "\"" == PieceText(ps[0]) + (PiecesText(ps[1..]) + "\"");
      hide FindQuote, PiecesText;
      AtSplit(s, i, PieceText(ps[0]), PiecesText(ps[1..]) + "\"");
      FindQuotePiece(s, i, ps[0]);
      FindQuotePieces(s, i + |PieceText(ps[0])|, ps[1..]);
      PiecesCons(ps);
    }
  }

  lemma PiecesCons(ps: seq<Piece>)
    requires ps != []
    ensures |PiecesText(ps)| == |PieceText(ps[0])| + |PiecesText(ps[1..])|
  {
    hide PieceText;
  }

  function StringText(ps: seq<Piece>): string
  {
    "\"" + PiecesText(ps) + "\""
  }

  /** The value as a C string. */
  function StringValue(ps: seq<Piece>): (r: string)
    requires ValidPieces(ps)
    ensures IsCString(r)
  {
    CString(PiecesValue(ps))
  }

  /** Every string of the grammar is read as what it stands for. */
  lemma {:induction false} StringAccepted(s: string, i: nat, ps: seq<Piece>)
    requires ValidPieces(ps) && At(s, i, StringText(ps))
    ensures ParseString(s, i) == Done(StringValue(ps), i + |StringText(ps)|)
  {
    hide PiecesText, PiecesValue, Decode, FindQuote, CString, At;
    assert StringText(ps) == "\"" + (PiecesText(ps) + "\"");
    AtSplit(s, i, "\"", PiecesText(ps) + "\"");
    AtChar(s, i, "\"", 0);
    FindQuotePieces(s, i + 1, ps);
    AtSplit(s, i + 1, PiecesText(ps), "\"");
    AtChar(s, i + 1 + |PiecesText(ps)|, "\"", 0);
    DecodePieces(s, i + 1, i + 1 + |PiecesText(ps)|, ps);
  }

  // ---- values ----

  /** A value as it may be written: white space and escapes are part of the tree. */
  datatype Doc =
    | DNull
    | DTrue
    | DFalse
    | DInt(n: int)
    | DMinusZero
    | DString(ps: seq<Piece>)
    | DArray(space: string, items: seq<DItem>)
    | DObject(space: string, members: seq<DMember>)

  datatype DItem = DItem(before: string, doc: Doc, after: string)

  datatype DMember = DMember(before: string, key: seq<Piece>, middle: string, behind: string, doc: Doc, after: string)

  /** The white space of section 2. */
  predicate IsSpace(w: string)
  {
    forall k :: 0 <= k < |w| ==> w[k] in " \t\n\r"
  }

  predicate ValidDoc(v: Doc)
    decreases v
  {
    match v
    case DInt(n) => INT_MIN <= n <= INT_MAX
    case DString(ps) => ValidPieces(ps)
    case DArray(w, items) => IsSpace(w) && forall k :: 0 <= k < |items| ==> ValidItem(items[k])
    case DObject(w, ms) => IsSpace(w) && forall k :: 0 <= k < |ms| ==> ValidMember(ms[k])
    case _ => true
  }

  predicate ValidItem(x: DItem)
    decreases x
  {
    IsSpace(x.before) && IsSpace(x.after) && ValidDoc(x.doc)
  }

  predicate ValidMember(m: DMember)
    decreases m
  {
    IsSpace(m.before) && IsSpace(m.middle) && IsSpace(m.behind) && IsSpace(m.after) && ValidPieces(m.key) && ValidDoc(m.doc)
  }

  function DocText(v: Doc): string
    decreases v
  {
    match v
    case DNull => "null"
    case DTrue => "true"
    case DFalse => "false"
    case DInt(n) => Decimal(n)
    case DMinusZero => "-0"
    case DString(ps) => StringText(ps)
    case DArray(w, items) => if items == [] then "[" + w + "]" else "[" + DItemsText(items) + "]"
    case DObject(w, ms) => if ms == [] then "{" + w + "}" else "{" + DMembersText(ms) + "}"
  }

  function DItemText(x: DItem): string
    decreases x
  {
    x.before + DocText(x.doc) + x.after
  }

  function DItemsText(items: seq<DItem>): string
    requires items != []
    decreases items
  {
    DItemText(items[0]) + if |items| == 1 then "" else "," + DItemsText(items[1..])
  }

  function DMemberText(m: DMember): string
    decreases m
  {
    m.before + StringText(m.key) + m.middle + ":" + m.behind + DocText(m.doc) + m.after
  }

  function DMembersText(ms: seq<DMember>): string
    requires ms != []
    decreases ms
  {
    DMemberText(ms[0]) + if |ms| == 1 then "" else "," + DMembersText(ms[1..])
  }

  function DocValue(v: Doc): Json
    requires ValidDoc(v)
    decreases v
  {
    match v
    case DNull => Null
    case DTrue => Bool(true)
    case DFalse => Bool(false)
    case DInt(n) => Int(n)
    case DMinusZero => Int(0)
    case DString(ps) => String(StringValue(ps))
    case DArray(_, items) => Array(DItemsValue(items))
    case DObject(_, ms) => Object(DMembersValue(ms))
  }

  function DItemsValue(items: seq<DItem>): seq<Json>
    requires forall k :: 0 <= k < |items| ==> ValidItem(items[k])
    decreases items
  {
    if items == [] then []
    else
      assert ValidItem(items[0]);
      [DocValue(items[0].doc)] + DItemsValue(items[1..])
  }

  function DMembersValue(ms: seq<DMember>): seq<Member>
    requires forall k :: 0 <= k < |ms| ==> ValidMember(ms[k])
    decreases ms
  {
    if ms == [] then []
    else
      assert ValidMember(ms[0]);
      [Member(StringValue(ms[0].key), DocValue(ms[0].doc))] + DMembersValue(ms[1..])
  }

  function DocNesting(v: Doc): nat
    decreases v
  {
    match v
    case DArray(_, items) => 1 + DItemsNesting(items)
    case DObject(_, ms) => 1 + DMembersNesting(ms)
    case _ => 0
  }

  function DItemsNesting(items: seq<DItem>): nat
    decreases items
  {
    if items == [] then 0 else Max(DocNesting(items[0].doc), DItemsNesting(items[1..]))
  }

  function DMembersNesting(ms: seq<DMember>): nat
    decreases ms
  {
    if ms == [] then 0 else Max(DocNesting(ms[0].doc), DMembersNesting(ms[1..]))
  }

  // ---- acceptance ----

  lemma SpaceAt(s: string, i: nat, w: string)
    requires At(s, i, w) && IsSpace(w)
    ensures i + |w| <= |s| && forall k :: i <= k < i + |w| ==> s[k] <= ' '
  {
    forall k | i <= k < i + |w| ensures s[k] <= ' ' {
      AtChar(s, i, w, k - i);
      assert w[k - i] in " \t\n\r";
    }
  }

  lemma {:induction false} DocStart(v: Doc)
    ensures var t := DocText(v); t != "" && ' ' < t[0] < 0x80 as char && t[0] != ']' && t[0] != '}'
  {
    if v.DInt? {
      DigitsRoundTrip(if v.n < 0 then 0 - v.n else v.n);
      assert v.n >= 0 ==> IsDigit(Digits(v.n)[0]);
    }
  }

  lemma MinusZero(s: string, i: nat)
    requires At(s, i, "-0") && Delimited(s, i + 2)
    ensures ParseNumber(s, i) == Done(Int(0), i + 2)
  {
    AtChar(s, i, "-0", 0);
    AtChar(s, i, "-0", 1);
    SpanIs(s, i, i + 2, NUMBER_LIMIT);
    var t := s[i..i + 2];
    assert t == "-0" && t[1] == '0';
    DigitsEndIs(t, 1, 2);
    assert t[1..2] == "0";
    assert DigitsValue("0") == 0 by { assert "0"[..0] == ""; }
  }

  /** The first character decides the branch of parse_value. */
  lemma FirstDecides(s: string, i: nat)
    requires i < |s|
    ensures s[i] != 'n' ==> !At(s, i, "null")
    ensures s[i] != 'f' ==> !At(s, i, "false")
    ensures s[i] != 't' ==> !At(s, i, "true")
  {
    assert s[i] != 'n' ==> !At(s, i, "null") by { if At(s, i, "null") { AtChar(s, i, "null", 0); } }
    assert s[i] != 'f' ==> !At(s, i, "false") by { if At(s, i, "false") { AtChar(s, i, "false", 0); } }
    assert s[i] != 't' ==> !At(s, i, "true") by { if At(s, i, "true") { AtChar(s, i, "true", 0); } }
  }

  lemma {:induction false} LeafAccepted(s: string, i: nat, v: Doc, d: nat)
    requires !v.DArray? && !v.DObject? && ValidDoc(v) && d <= NESTING_LIMIT
    requires At(s, i, DocText(v)) && Delimited(s, i + |DocText(v)|)
    ensures ParseValue(s, i, d) == Done(DocValue(v), i + |DocText(v)|)
  {
    hide Digits, ParseNumber, ParseString, ParseItems, ParseMembers, PiecesText, StringValue;
    DocStart(v);
    AtChar(s, i, DocText(v), 0);
    FirstDecides(s, i);
    match v
    case DString(ps) => StringAccepted(s, i, ps);
    case DInt(n) =>
      NumberRoundTrip(s, i, n);
      DigitsRoundTrip(if n < 0 then 0 - n else n);
      assert n >= 0 ==> IsDigit(Digits(n)[0]);
    case DMinusZero => MinusZero(s, i);
    case _ =>
  }

  /** Every value of the grammar is accepted wherever it stands, with the right value and end. */
  lemma {:induction false} DocAccepted(s: string, i: nat, v: Doc, d: nat)
    requires ValidDoc(v) && d + DocNesting(v) <= NESTING_LIMIT
    requires At(s, i, DocText(v)) && Delimited(s, i + |DocText(v)|)
    ensures ParseValue(s, i, d) == Done(DocValue(v), i + |DocText(v)|)
    decreases v, 1
  {
    match v
    case DArray(_, _) => ArrayAccepted(s, i, v, d);
    case DObject(_, _) => ObjectAccepted(s, i, v, d);
    case _ => LeafAccepted(s, i, v, d);
  }

  lemma {:induction false} ArrayAccepted(s: string, i: nat, v: Doc, d: nat)
    requires v.DArray? && ValidDoc(v) && d + DocNesting(v) <= NESTING_LIMIT && At(s, i, DocText(v))
    ensures ParseValue(s, i, d) == Done(DocValue(v), i + |DocText(v)|)
    decreases v, 0
  {
    hide ParseValue, ParseItems, At, Skip, DItemsText, DItemsValue, ValidItem, IsSpace, DItemsNesting;
    var items := v.items;
    var body := if items == [] then v.space else DItemsText(items);
    AtSplit3(s, i, "[", body, "]");
    AtChar(s, i, "[", 0);
    AtChar(s, i + 1 + |body|, "]", 0);
    if items == [] {
      SpaceAt(s, i + 1, v.space);
      SkipTo(s, i + 1, i + 1 + |body|);
      AtBracket(s, i, d);
      NoItems();
    } else {
      var j := ItemsOpen(s, i + 1, items);
      SkipTo(s, i + 1, j);
      SkipTo(s, j, j);
      AtBracket(s, i, d);
      ItemsAccepted(s, j, i + 1, items, d + 1);
    }
  }

  lemma NoItems()
    ensures DItemsValue([]) == [] && DMembersValue([]) == []
  {
  }

  lemma ItemParts(s: string, i: nat, items: seq<DItem>)
    requires items != [] && At(s, i, DItemsText(items))
    ensures var x := items[0];
      var a := i + |x.before|;
      var b := a + |DocText(x.doc)|;
      var c := b + |x.after|;
      && At(s, i, x.before) && At(s, a, DocText(x.doc)) && At(s, b, x.after)
      && (|items| == 1 ==> i + |DItemsText(items)| == c)
      && (|items| > 1 ==> At(s, c, ",") && At(s, c + 1, DItemsText(items[1..])) && i + |DItemsText(items)| == c + 1 + |DItemsText(items[1..])|)
  {
    hide At, DocText;
    var x := items[0];
    var rest := if |items| == 1 then "" else "," + DItemsText(items[1..]);
    assert DItemsText(items) == DItemText(x) + rest;
    hide DItemsText;
    AtSplit(s, i, DItemText(x), rest);
    AtSplit3(s, i, x.before, DocText(x.doc), x.after);
    if |items| > 1 { AtSplit(s, i + |DItemText(x)|, ",", DItemsText(items[1..])); }
  }

  /** White space leads to the first value. */
  lemma ItemsOpen(s: string, i: nat, items: seq<DItem>) returns (j: nat)
    requires items != [] && ValidItem(items[0]) && At(s, i, DItemsText(items))
    ensures j == i + |items[0].before| && j < |s| && s[j] > ' ' && s[j] != ']' && forall k :: i <= k < j ==> s[k] <= ' '
  {
    hide At, DocText, DItemsText, IsSpace;
    ItemParts(s, i, items);
    j := i + |items[0].before|;
    SpaceAt(s, i, items[0].before);
    DocStart(items[0].doc);
    AtChar(s, j, DocText(items[0].doc), 0);
  }

  /** i0 is any offset from which white space leads to the first value. */
  lemma {:induction false} ItemsAccepted(s: string, i0: nat, i: nat, items: seq<DItem>, d: nat)
    requires items != [] && d + DItemsNesting(items) <= NESTING_LIMIT
    requires forall k :: 0 <= k < |items| ==> ValidItem(items[k])
    requires i0 <= |s| && Skip(s, i0) == i + |items[0].before|
    requires At(s, i, DItemsText(items)) && At(s, i + |DItemsText(items)|, "]")
    ensures ParseItems(s, i0, d) == Done(DItemsValue(items), i + |DItemsText(items)| + 1)
    decreases items, 2
  {
    hide ParseItems, ParseValue, At, Skip, DocText, DItemsText, IsSpace, DocNesting;
    ItemParts(s, i, items);
    var x := items[0];
    var b := i + |x.before| + |DocText(x.doc)|;
    var c := b + |x.after|;
    SpaceAt(s, b, x.after);
    AtChar(s, c, if |items| == 1 then "]" else ",", 0);
    SkipTo(s, b, c);
    assert Delimited(s, b);
    DocAccepted(s, i + |x.before|, x.doc, d);
    OneItem(s, i0, d, DocValue(x.doc), b, c);
    if |items| == 1 {
      assert items[1..] == [];
      NoItems();
      assert [DocValue(x.doc)] + [] == [DocValue(x.doc)];
    } else {
      var j := ItemsOpen(s, c + 1, items[1..]);
      SkipTo(s, c + 1, j);
      ItemsAccepted(s, c + 1, c + 1, items[1..], d);
    }
  }

  lemma OneItem(s: string, i0: nat, d: nat, v: Json, b: nat, c: nat)
    requires i0 <= |s| && d <= NESTING_LIMIT && ParseValue(s, Skip(s, i0), d) == Done(v, b)
    requires b <= c < |s| && Skip(s, b) == c
    ensures s[c] == ']' ==> ParseItems(s, i0, d) == Done([v], c + 1)
    ensures s[c] == ',' ==>
      var r := ParseItems(s, c + 1, d);
      ParseItems(s, i0, d) == if r.Done? then Done([v] + r.value, r.next) else Failed
  {
    hide Skip, ParseValue;
  }

  lemma {:induction false} ObjectAccepted(s: string, i: nat, v: Doc, d: nat)
    requires v.DObject? && ValidDoc(v) && d + DocNesting(v) <= NESTING_LIMIT && At(s, i, DocText(v))
    ensures ParseValue(s, i, d) == Done(DocValue(v), i + |DocText(v)|)
    decreases v, 0
  {
    hide ParseValue, ParseMembers, At, Skip, DMembersText, DMembersValue, ValidMember, IsSpace, DMembersNesting;
    var ms := v.members;
    var body := if ms == [] then v.space else DMembersText(ms);
    AtSplit3(s, i, "{", body, "}");
    AtChar(s, i, "{", 0);
    AtChar(s, i + 1 + |body|, "}", 0);
    if ms == [] {
      SpaceAt(s, i + 1, v.space);
      SkipTo(s, i + 1, i + 1 + |body|);
      AtBrace(s, i, d);
      NoItems();
    } else {
      var j := MembersOpen(s, i + 1, ms);
      SkipTo(s, i + 1, j);
      SkipTo(s, j, j);
      AtBrace(s, i, d);
      MembersAccepted(s, j, i + 1, ms, d + 1);
    }
  }

  lemma DMemberParts(s: string, i: nat, m: DMember)
    requires At(s, i, DMemberText(m))
    ensures var a := i + |m.before|;
      var b := a + |StringText(m.key)|;
      var c := b + |m.middle|;
      var e := c + 1 + |m.behind|;
      var f := e + |DocText(m.doc)|;
      && At(s, i, m.before) && At(s, a, StringText(m.key)) && At(s, b, m.middle) && At(s, c, ":")
      && At(s, c + 1, m.behind) && At(s, e, DocText(m.doc)) && At(s, f, m.after)
      && i + |DMemberText(m)| == f + |m.after|
  {
    hide At, DocText, StringText;
    var front := m.before + StringText(m.key) + m.middle;
    var back := ":" + m.behind + DocText(m.doc) + m.after;
    assert DMemberText(m) == front + back;
    hide DMemberText;
    AtSplit(s, i, front, back);
    AtSplit3(s, i, m.before, StringText(m.key), m.middle);
    var c := i + |front|;
    assert back == ":" + m.behind + (DocText(m.doc) + m.after);
    AtSplit3(s, c, ":", m.behind, DocText(m.doc) + m.after);
    AtSplit(s, c + 1 + |m.behind|, DocText(m.doc), m.after);
  }

  lemma MembersParts(s: string, i: nat, ms: seq<DMember>)
    requires ms != [] && At(s, i, DMembersText(ms))
    ensures var c := i + |DMemberText(ms[0])|;
      && At(s, i, DMemberText(ms[0]))
      && (|ms| == 1 ==> i + |DMembersText(ms)| == c)
      && (|ms| > 1 ==> At(s, c, ",") && At(s, c + 1, DMembersText(ms[1..])) && i + |DMembersText(ms)| == c + 1 + |DMembersText(ms[1..])|)
  {
    hide At, DMemberText;
    var rest := if |ms| == 1 then "" else "," + DMembersText(ms[1..]);
    assert DMembersText(ms) == DMemberText(ms[0]) + rest;
    hide DMembersText;
    AtSplit(s, i, DMemberText(ms[0]), rest);
    if |ms| > 1 { AtSplit(s, i + |DMemberText(ms[0])|, ",", DMembersText(ms[1..])); }
  }

  lemma MembersOpen(s: string, i: nat, ms: seq<DMember>) returns (j: nat)
    requires ms != [] && ValidMember(ms[0]) && At(s, i, DMembersText(ms))
    ensures j == i + |ms[0].before| && j < |s| && s[j] == '\"' && forall k :: i <= k < j ==> s[k] <= ' '
  {
    hide At, DocText, DMembersText, IsSpace, PiecesText, DMemberText;
    MembersParts(s, i, ms);
    DMemberParts(s, i, ms[0]);
    j := i + |ms[0].before|;
    SpaceAt(s, i, ms[0].before);
    AtChar(s, j, StringText(ms[0].key), 0);
  }

  /** One member, from any offset from which white space leads to its key. */
  lemma {:induction false} MemberAccepted(s: string, i0: nat, i: nat, m: DMember, d: nat)
    requires ValidMember(m) && d + DocNesting(m.doc) <= NESTING_LIMIT
    requires i0 < |s| && Skip(s, i0) == i + |m.before| && At(s, i, DMemberText(m))
    requires var e := i + |DMemberText(m)|; e < |s| && (s[e] == ',' || s[e] == '}')
    ensures ParseMember(s, i0, d) == Done(Member(StringValue(m.key), DocValue(m.doc)), i + |DMemberText(m)|)
    decreases m
  {
    hide ParseMember, ParseValue, ParseString, At, Skip, DocText, DMemberText, StringText, IsSpace, DocNesting, ValidDoc, ValidPieces;
    DMemberParts(s, i, m);
    var a := i + |m.before|;
    var b := a + |StringText(m.key)|;
    var c := b + |m.middle|;
    var e := c + 1 + |m.behind|;
    var f := e + |DocText(m.doc)|;
    StringAccepted(s, a, m.key);
    SpaceAt(s, b, m.middle);
    AtChar(s, c, ":", 0);
    SkipTo(s, b, c);
    SpaceAt(s, c + 1, m.behind);
    DocStart(m.doc);
    AtChar(s, e, DocText(m.doc), 0);
    SkipTo(s, c + 1, e);
    SpaceAt(s, f, m.after);
    assert Delimited(s, f);
    DocAccepted(s, e, m.doc, d);
    SkipTo(s, f, f + |m.after|);
    OneMember(s, i0, a, b, c, e, f, Member(StringValue(m.key), DocValue(m.doc)), d);
  }

  lemma OneMember(s: string, i0: nat, a: nat, b: nat, c: nat, e: nat, f: nat, m: Member, d: nat)
    requires i0 < |s| && Skip(s, i0) == a && a < |s| && ParseString(s, a) == Done(m.key, b)
    requires b <= c < |s| && Skip(s, b) == c && s[c] == ':' && e <= |s| && Skip(s, c + 1) == e
    requires d <= NESTING_LIMIT && ParseValue(s, e, d) == Done(m.value, f)
    ensures f <= |s| && ParseMember(s, i0, d) == Done(m, Skip(s, f))
  {
    hide Skip, ParseString, ParseValue;
  }

  lemma {:induction false} MembersAccepted(s: string, i0: nat, i: nat, ms: seq<DMember>, d: nat)
    requires ms != [] && d + DMembersNesting(ms) <= NESTING_LIMIT
    requires forall k :: 0 <= k < |ms| ==> ValidMember(ms[k])
    requires i0 < |s| && Skip(s, i0) == i + |ms[0].before|
    requires At(s, i, DMembersText(ms)) && At(s, i + |DMembersText(ms)|, "}")
    ensures ParseMembers(s, i0, d) == Done(DMembersValue(ms), i + |DMembersText(ms)| + 1)
    decreases ms, 2
  {
    hide ParseMembers, ParseMember, At, Skip, DocText, DMembersText, DMemberText, IsSpace, DocNesting, StringValue;
    MembersParts(s, i, ms);
    var c := i + |DMemberText(ms[0])|;
    AtChar(s, c, if |ms| == 1 then "}" else ",", 0);
    MemberAccepted(s, i0, i, ms[0], d);
    MembersStep(s, i0, d, Member(StringValue(ms[0].key), DocValue(ms[0].doc)), c);
    if |ms| == 1 {
      assert ms[1..] == [];
      NoItems();
      assert [Member(StringValue(ms[0].key), DocValue(ms[0].doc))] + [] == [Member(StringValue(ms[0].key), DocValue(ms[0].doc))];
    } else {
      var j := MembersOpen(s, c + 1, ms[1..]);
      SkipTo(s, c + 1, j);
      MembersAccepted(s, c + 1, c + 1, ms[1..], d);
    }
  }

  const BOM: string := [0xEF as char, 0xBB as char, 0xBF as char]

  /**
   Every text of the grammar, with white space around it and possibly a byte order mark, is
   accepted with its value. When the terminator is demanded, the reported end is the terminator.
   */
  lemma {:induction false} TextAccepted(bom: bool, before: string, v: Doc, after: string, requireNul: bool)
    requires IsSpace(before) && IsSpace(after) && ValidDoc(v) && DocNesting(v) <= NESTING_LIMIT
    ensures var front := (if bom then BOM else "") + before + DocText(v);
      ParseText(front + after + [NUL], requireNul) == Done(DocValue(v), if requireNul then |front + after| else |front|)
  {
    hide DocText, ParseValue, ValidDoc, DocValue, IsSpace, Skip, At, AfterBom;
    var mark := if bom then BOM else "";
    var t := DocText(v);
    var front := mark + before + t;
    var s := front + after + [NUL];
    TextParts(s, mark, before, t, after);
    DocStart(v);
    var m, j, e := |mark|, |mark| + |before|, |front|;
    SpaceAt(s, m, before);
    AtChar(s, j, t, 0);
    TailSpace(s, e, after);
    MarkSkipped(s, bom, j);
    SkipTo(s, m, j);
    DocAccepted(s, j, v, 0);
    SpaceToEnd(s, e);
  }

  lemma TextParts(s: string, mark: string, before: string, t: string, after: string)
    requires s == mark + before + t + after + [NUL]
    ensures At(s, 0, mark) && At(s, |mark|, before) && At(s, |mark| + |before|, t)
    ensures At(s, |mark| + |before| + |t|, after + [NUL]) && |s| == |mark| + |before| + |t| + |after| + 1
    ensures s[..|mark|] == mark
  {
    var front := mark + before + t;
    assert s == front + (after + [NUL]);
    assert s[0..|s|] == s;
    assert At(s, 0, front + (after + [NUL]));
    hide At;
    AtSplit(s, 0, front, after + [NUL]);
    AtSplit3(s, 0, mark, before, t);
  }

  /** The white space behind the value and the terminator. */
  lemma TailSpace(s: string, e: nat, after: string)
    requires At(s, e, after + [NUL]) && IsSpace(after) && |s| == e + |after| + 1
    ensures e < |s| && s[|s| - 1] == NUL && Delimited(s, e) && forall k :: e <= k < |s| ==> s[k] <= ' '
  {
    hide At, IsSpace;
    AtSplit(s, e, after, [NUL]);
    SpaceAt(s, e, after);
    AtChar(s, e + |after|, [NUL], 0);
  }

  /** Behind the value there is only white space and the terminator. */
  lemma SpaceToEnd(s: string, e: nat)
    requires e < |s| && forall k :: e <= k < |s| ==> s[k] <= ' '
    ensures Skip(s, e) == |s| - 1
  {
  }

  lemma MarkSkipped(s: string, bom: bool, j: nat)
    requires j < |s| && s[j] < 0x80 as char && s[j] > ' '
    requires if bom then 3 <= j && 4 < |s| && s[..3] == BOM else forall k :: 0 <= k < j ==> s[k] <= ' '
    ensures AfterBom(s) == if bom then 3 else 0
  {
    if bom {
      assert s[0] == s[..3][0] && s[1] == s[..3][1] && s[2] == s[..3][2];
    } else {
      assert s[0] <= 0x80 as char;
    }
  }
}
