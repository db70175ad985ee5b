/**
 The layout of printed text: which syntax tree of the grammar it is the text of. White space
 stands only in the trees' space fields, so they say where lines begin and how far they are indented.
 */
module JsonLayout {
  import opened Json
  import opened JsonParse
  import opened JsonRoundTrip
  import opened JsonGrammar

  // ---- layout ----

  /** The start of a line inside this many objects and arrays. */
  function Line(depth: nat): string
  {
    "\n" + Tabs(depth)
  }

  /** Characters are escaped only where they must be, and in the shortest way; hexadecimal digits are small letters. */
  predicate Terse(p: Piece)
  {
    match p
    case Plain(c) => c >= ' ' && c != '\"' && c != '\\'
    case Short(c) => c in "\"\\bfnrt"
    case Unit(t) =>
      && IsHex(t) && t[..2] == "00" && Hex4(t, 0) < 32 && (forall k :: 0 <= k < 4 ==> !('A' <= t[k] <= 'Z'))
      && Hex4(t, 0) != 8 && Hex4(t, 0) != 9 && Hex4(t, 0) != 10 && Hex4(t, 0) != 12 && Hex4(t, 0) != 13
    case Pair(_, _) => false
  }

  predicate TerseAll(ps: seq<Piece>)
  {
    forall k :: 0 <= k < |ps| ==> Terse(ps[k])
  }

  /**
   Unformatted text has no white space outside its strings. Formatted text has one space between
   elements and a tab behind each colon; each member begins a line, one tab deeper than the brace
   that closes the object on a line of its own, also when there are no members.
   */
  predicate Laid(v: Doc, format: bool, depth: nat)
    decreases v
  {
    match v
    case DString(ps) => TerseAll(ps)
    case DMinusZero => false
    case DArray(w, items) =>
      w == "" && forall k :: 0 <= k < |items| ==> ItemLaid(items[k], k == 0, format, depth)
    case DObject(w, ms) =>
      w == (if format && ms == [] then Line(depth) else "")
      && forall k :: 0 <= k < |ms| ==> MemberLaid(ms[k], k == |ms| - 1, format, depth)
    case _ => true
  }

  predicate ItemLaid(x: DItem, first: bool, format: bool, depth: nat)
    decreases x
  {
    x.before == (if format && !first then " " else "") && x.after == "" && Laid(x.doc, format, depth + 1)
  }

  predicate MemberLaid(m: DMember, last: bool, format: bool, depth: nat)
    decreases m
  {
    && m.before == (if format then Line(depth + 1) else "")
    && m.middle == "" && m.behind == (if format then "\t" else "")
    && m.after == (if format && last then Line(depth) else "")
    && TerseAll(m.key) && Laid(m.doc, format, depth + 1)
  }

  // ---- the tree of a printed text ----

  function PieceOf(c: char): Piece
  {
    if c == '\"' || c == '\\' then Short(c)
    else if c == BACKSPACE then Short('b')
    else if c == FORMFEED then Short('f')
    else if c == '\n' then Short('n')
    else if c == '\r' then Short('r')
    else if c == '\t' then Short('t')
    else if c < ' ' then Unit("00" + [HexDigit(c as int / 16), HexDigit(c as int % 16)])
    else Plain(c)
  }

  function PiecesOf(s: string): (ps: seq<Piece>)
    ensures |ps| == |s| && forall k :: 0 <= k < |s| ==> ps[k] == PieceOf(s[k])
  {
    seq(|s|, k requires 0 <= k < |s| => PieceOf(s[k]))
  }

  lemma PieceFits(c: char)
    requires c != NUL
    ensures ValidPiece(PieceOf(c)) && Terse(PieceOf(c))
    ensures PieceText(PieceOf(c)) == Escape(c) && PieceValue(PieceOf(c)) == [c]
  {
    var p := PieceOf(c);
    if p.Unit? {
      var a, b := c as int / 16, c as int % 16;
      assert p.t == ['0', '0', HexDigit(a), HexDigit(b)];
      assert HexValue('0') == 0 && HexValue(HexDigit(a)) == a && HexValue(HexDigit(b)) == b;
      assert Hex4(p.t, 0) == c as int;
      assert p.t[..2] == "00";
    }
  }

  lemma {:induction false} PiecesFit(s: string)
    requires IsCString(s)
    ensures ValidPieces(PiecesOf(s)) && TerseAll(PiecesOf(s))
    ensures PiecesText(PiecesOf(s)) == Escaped(s) && PiecesValue(PiecesOf(s)) == s
  {
    hide PieceOf, ValidPiece, Terse, PieceText, PieceValue, Escape;
    forall k | 0 <= k < |s| ensures ValidPiece(PieceOf(s[k])) && Terse(PieceOf(s[k])) { PieceFits(s[k]); }
    if s != "" {
      PieceFits(s[0]);
      PiecesFit(s[1..]);
      assert PiecesOf(s)[1..] == PiecesOf(s[1..]);
      assert s == [s[0]] + s[1..];
    }
  }

  lemma StringFits(s: string)
    requires IsCString(s)
    ensures ValidPieces(PiecesOf(s)) && TerseAll(PiecesOf(s))
    ensures StringText(PiecesOf(s)) == Quoted(s) && StringValue(PiecesOf(s)) == s
  {
    hide PiecesOf, CString;
    PiecesFit(s);
    CStringKeeps(s);
  }

  function DocOf(v: Json, format: bool, depth: nat): Doc
    decreases v
  {
    match v
    case Null => DNull
    case Bool(b) => if b then DTrue else DFalse
    case Int(n) => DInt(n)
    case String(s) => DString(PiecesOf(s))
    case Array(items) => DArray("", ItemsOf(items, true, format, depth))
    case Object(ms) => DObject(if format && ms == [] then Line(depth) else "", MembersOf(ms, format, depth))
  }

  function ItemsOf(items: seq<Json>, first: bool, format: bool, depth: nat): (r: seq<DItem>)
    ensures |r| == |items|
    decreases items
  {
    if items == [] then []
    else [DItem(if format && !first then " " else "", DocOf(items[0], format, depth + 1), "")] + ItemsOf(items[1..], false, format, depth)
  }

  function MembersOf(ms: seq<Member>, format: bool, depth: nat): (r: seq<DMember>)
    ensures |r| == |ms|
    decreases ms
  {
    if ms == [] then [] else [MemberOf(ms[0], |ms| == 1, format, depth)] + MembersOf(ms[1..], format, depth)
  }

  function MemberOf(m: Member, last: bool, format: bool, depth: nat): DMember
    decreases m
  {
    DMember(if format then Line(depth + 1) else "", PiecesOf(m.key), "", if format then "\t" else "",
            DocOf(m.value, format, depth + 1), if format && last then Line(depth) else "")
  }

  /** The printed text of a tree is the text of a syntax tree that stands for it and is laid out as above. */
  lemma {:induction false} TextLaid(v: Json, format: bool, depth: nat)
    requires WellFormed(v)
    ensures var d := DocOf(v, format, depth);
      && ValidDoc(d) && DocValue(d) == v && DocText(d) == Text(v, format, depth) && Laid(d, format, depth)
    decreases v, 1
  {
    match v
    case Array(items) =>
      hide DocOf, DocText, DocValue, ValidDoc, Text, Laid;
      ItemsLaid(items, true, format, depth);
      ArrayLaid(items, format, depth);
    case Object(ms) =>
      hide DocOf, DocText, DocValue, ValidDoc, Text, Laid, MembersFit;
      MembersLaid(ms, format, depth);
      ObjectLaid(ms, format, depth);
    case _ => LeafLaid(v, format, depth);
  }

  lemma LeafLaid(v: Json, format: bool, depth: nat)
    requires WellFormed(v) && !v.Array? && !v.Object?
    ensures var d := DocOf(v, format, depth);
      && ValidDoc(d) && DocValue(d) == v && DocText(d) == Text(v, format, depth) && Laid(d, format, depth)
  {
    hide PiecesOf, TerseAll, ValidPieces, StringValue, StringText, Quoted;
    if v.String? { StringFits(v.s); }
  }

  lemma ArrayLaid(items: seq<Json>, format: bool, depth: nat)
    requires var r := ItemsOf(items, true, format, depth);
      && (forall k :: 0 <= k < |r| ==> ValidItem(r[k]) && ItemLaid(r[k], k == 0, format, depth))
      && DItemsValue(r) == items && (items != [] ==> DItemsText(r) == "" + ItemsText(items, format, depth + 1))
    ensures var d := DocOf(Array(items), format, depth);
      ValidDoc(d) && DocValue(d) == Array(items) && DocText(d) == Text(Array(items), format, depth) && Laid(d, format, depth)
  {
    hide ItemsOf, ItemLaid, ValidItem, DItemsText, DItemsValue, ItemsText;
    if items == [] { NoText(format, depth + 1); }
  }

  lemma NoText(format: bool, depth: nat)
    ensures ItemsText([], format, depth) == "" && MembersText([], format, depth) == ""
  {
  }

  lemma {:induction false} ItemsLaid(items: seq<Json>, first: bool, format: bool, depth: nat)
    requires forall i :: 0 <= i < |items| ==> WellFormed(items[i])
    ensures var r := ItemsOf(items, first, format, depth);
      && (forall k :: 0 <= k < |r| ==> ValidItem(r[k]) && ItemLaid(r[k], first && k == 0, format, depth))
      && DItemsValue(r) == items
      && (items != [] ==> DItemsText(r) == (if format && !first then " " else "") + ItemsText(items, format, depth + 1))
    decreases items, 0
  {
    if items != [] {
      var v, r := items[0], ItemsOf(items, first, format, depth);
      var rest := ItemsOf(items[1..], false, format, depth);
      TextLaid(v, format, depth + 1);
      ItemsLaid(items[1..], false, format, depth);
      hide Laid, DocOf, DocText, DocValue, ValidDoc, Text;
      var x := DItem(if format && !first then " " else "", DocOf(v, format, depth + 1), "");
      assert r == [x] + rest && r[1..] == rest;
      assert ValidItem(x) && ItemLaid(x, first, format, depth);
      forall k | 0 <= k < |r| ensures ValidItem(r[k]) && ItemLaid(r[k], first && k == 0, format, depth) {
        if k > 0 { assert r[k] == rest[k - 1]; }
      }
      assert [v] + items[1..] == items;
      ItemsJoin(x, rest, v, items[1..], format, depth);
      assert items == [v] + items[1..];
    }
  }

  lemma ItemsJoin(x: DItem, rest: seq<DItem>, v: Json, vs: seq<Json>, format: bool, depth: nat)
    requires |rest| == |vs| && x.after == "" && DocText(x.doc) == Text(v, format, depth + 1)
    requires vs != [] ==> DItemsText(rest) == (if format then " " else "") + ItemsText(vs, format, depth + 1)
    ensures DItemsText([x] + rest) == x.before + ItemsText([v] + vs, format, depth + 1)
  {
    hide DocText, Text;
    assert ([x] + rest)[1..] == rest && ([v] + vs)[1..] == vs;
    var t := Text(v, format, depth + 1);
    assert DItemText(x) == x.before + t;
    if vs != [] {
      assert (x.before + t) + ("," + ((if format then " " else "") + ItemsText(vs, format, depth + 1)))
          == x.before + (t + (if format then ", " else ",") + ItemsText(vs, format, depth + 1));
    } else {
      assert ItemsText([], format, depth + 1) == "";
      assert x.before + (t + "" + "") == x.before + t + "";
    }
  }

  /** These member trees are the layout of these members, all the way to the closing brace. */
  predicate MembersFit(ms: seq<Member>, r: seq<DMember>, format: bool, depth: nat)
  {
    && |r| == |ms|
    && (forall k :: 0 <= k < |r| ==> ValidMember(r[k]) && MemberLaid(r[k], k == |r| - 1, format, depth))
    && DMembersValue(r) == ms
    && (ms != [] ==> DMembersText(r) == Newline(format) + MembersText(ms, format, depth + 1) + Indent(format, depth))
  }

  lemma {:induction false} MembersLaid(ms: seq<Member>, format: bool, depth: nat)
    requires forall i :: 0 <= i < |ms| ==> IsCString(ms[i].key) && WellFormed(ms[i].value)
    ensures MembersFit(ms, MembersOf(ms, format, depth), format, depth)
    decreases ms, 1
  {
    if ms == [] {
    } else {
      hide MembersFit, WellFormed, IsCString, MemberOf, ValidMember, MemberLaid, DMemberText, MemberBody;
      MembersLaid(ms[1..], format, depth);
      FirstLaid(ms, format, depth);
      MembersCons(ms, MemberOf(ms[0], |ms| == 1, format, depth), MembersOf(ms[1..], format, depth), format, depth);
    }
  }

  lemma MembersCons(ms: seq<Member>, x: DMember, rest: seq<DMember>, format: bool, depth: nat)
    requires ms != [] && MembersFit(ms[1..], rest, format, depth)
    requires var last := |ms| == 1;
      && ValidMember(x) && MemberLaid(x, last, format, depth) && Member(StringValue(x.key), DocValue(x.doc)) == ms[0]
      && DMemberText(x) == Newline(format) + MemberBody(ms[0], format, depth) + (if last then Newline(format) + Indent(format, depth) else "")
    ensures MembersFit(ms, [x] + rest, format, depth)
  {
    hide ValidMember, MemberLaid, MembersText, DMembersText, DMemberText, MemberBody, StringValue, DocValue;
    var r := [x] + rest;
    AllLaid(x, rest, format, depth);
    assert r[1..] == rest;
    assert DMembersValue(r) == [ms[0]] + DMembersValue(rest);
    hide DMembersValue;
    assert [ms[0]] + ms[1..] == ms;
    if |ms| == 1 {
      assert r == [x];
      LastJoins(x, ms, format, depth);
    } else {
      MoreJoin(x, rest, ms, format, depth);
    }
  }

  lemma AllLaid(x: DMember, rest: seq<DMember>, format: bool, depth: nat)
    requires ValidMember(x) && MemberLaid(x, rest == [], format, depth)
    requires forall k :: 0 <= k < |rest| ==> ValidMember(rest[k]) && MemberLaid(rest[k], k == |rest| - 1, format, depth)
    ensures var r := [x] + rest; forall k :: 0 <= k < |r| ==> ValidMember(r[k]) && MemberLaid(r[k], k == |r| - 1, format, depth)
  {
    hide ValidMember, MemberLaid;
    var r := [x] + rest;
    forall k | 0 <= k < |r| ensures ValidMember(r[k]) && MemberLaid(r[k], k == |r| - 1, format, depth) {
      if k > 0 { assert r[k] == rest[k - 1]; }
    }
  }

  /** The first of several members. */
  lemma {:induction false} FirstLaid(ms: seq<Member>, format: bool, depth: nat)
    requires ms != [] && IsCString(ms[0].key) && WellFormed(ms[0].value)
    ensures var last, x := |ms| == 1, MemberOf(ms[0], |ms| == 1, format, depth);
      && ValidMember(x) && MemberLaid(x, last, format, depth)
      && Member(StringValue(x.key), DocValue(x.doc)) == ms[0]
      && DMemberText(x) == Newline(format) + MemberBody(ms[0], format, depth) + (if last then Newline(format) + Indent(format, depth) else "")
    decreases ms, 0
  {
    hide Laid, DocOf, DocText, DocValue, ValidDoc, Text, PiecesOf, TerseAll, ValidPieces, StringValue, StringText, Quoted, DMemberText, MemberBody;
    TextLaid(ms[0].value, format, depth + 1);
    StringFits(ms[0].key);
    MemberFits(ms[0], |ms| == 1, format, depth);
  }

  lemma MemberFits(m: Member, last: bool, format: bool, depth: nat)
    requires var d := DocOf(m.value, format, depth + 1);
      ValidDoc(d) && DocText(d) == Text(m.value, format, depth + 1) && Laid(d, format, depth + 1)
    requires var ps := PiecesOf(m.key); ValidPieces(ps) && TerseAll(ps) && StringText(ps) == Quoted(m.key)
    ensures var x := MemberOf(m, last, format, depth);
      ValidMember(x) && MemberLaid(x, last, format, depth)
      && DMemberText(x) == Newline(format) + MemberBody(m, format, depth) + (if last then Newline(format) + Indent(format, depth) else "")
  {
    hide DocText, Text, StringText, Quoted, Laid, TerseAll, DocOf, PiecesOf, ValidDoc, ValidPieces;
    if format {
      assert Line(depth + 1) + Quoted(m.key) + "" + ":" + "\t" + Text(m.value, format, depth + 1)
          == "\n" + (Tabs(depth + 1) + Quoted(m.key) + ":\t" + Text(m.value, format, depth + 1));
    }
  }

  function MemberBody(m: Member, format: bool, depth: nat): string
  {
    Indent(format, depth + 1) + Quoted(m.key) + KeySep(format) + Text(m.value, format, depth + 1)
  }

  lemma LastJoins(x: DMember, ms: seq<Member>, format: bool, depth: nat)
    requires |ms| == 1 && DMemberText(x) == Newline(format) + MemberBody(ms[0], format, depth) + (Newline(format) + Indent(format, depth))
    ensures DMembersText([x]) == Newline(format) + MembersText(ms, format, depth + 1) + Indent(format, depth)
  {
    hide DMemberText, Text, Quoted, Indent, Newline, KeySep;
    var body := MemberBody(ms[0], format, depth);
    assert MemberText(ms[0], true, format, depth + 1) == body + "" + Newline(format);
    assert ms[1..] == [];
    NoText(format, depth + 1);
    assert MembersText(ms, format, depth + 1) == MemberText(ms[0], true, format, depth + 1) + "";
    assert DMembersText([x]) == DMemberText(x) + "";
    hide MemberBody, MemberText, MembersText, DMembersText;
    RegroupedLast(Newline(format), body, Indent(format, depth));
  }

  lemma RegroupedLast(n: string, body: string, indent: string)
    ensures (n + body + (n + indent)) + "" == n + ((body + "" + n) + "") + indent
  {
  }

  lemma MoreJoin(x: DMember, rest: seq<DMember>, ms: seq<Member>, format: bool, depth: nat)
    requires |ms| > 1 && |rest| == |ms| - 1 && DMemberText(x) == Newline(format) + MemberBody(ms[0], format, depth) + ""
    requires DMembersText(rest) == Newline(format) + MembersText(ms[1..], format, depth + 1) + Indent(format, depth)
    ensures DMembersText([x] + rest) == Newline(format) + MembersText(ms, format, depth + 1) + Indent(format, depth)
  {
    hide DMemberText, Text, Quoted, Indent, Newline, KeySep;
    var body, more := MemberBody(ms[0], format, depth), MembersText(ms[1..], format, depth + 1);
    assert MemberText(ms[0], false, format, depth + 1) == body + "," + Newline(format);
    assert MembersText(ms, format, depth + 1) == MemberText(ms[0], false, format, depth + 1) + more;
    assert ([x] + rest)[1..] == rest;
    assert DMembersText([x] + rest) == DMemberText(x) + ("," + DMembersText(rest));
    hide MemberBody, MemberText, MembersText, DMembersText;
    Regrouped(Newline(format), body, more, Indent(format, depth));
  }

  lemma Regrouped(n: string, body: string, more: string, indent: string)
    ensures (n + body + "") + ("," + (n + more + indent)) == n + ((body + "," + n) + more) + indent
  {
  }

  lemma ObjectLaid(ms: seq<Member>, format: bool, depth: nat)
    requires MembersFit(ms, MembersOf(ms, format, depth), format, depth)
    ensures var d := DocOf(Object(ms), format, depth);
      ValidDoc(d) && DocValue(d) == Object(ms) && DocText(d) == Text(Object(ms), format, depth) && Laid(d, format, depth)
  {
    hide DMembersText, MembersOf, MemberLaid, ValidMember, DMembersValue, MembersText;
    if ms == [] {
      NoText(format, depth + 1);
      EmptyBraces(format, depth);
    } else {
      Braces(Newline(format), MembersText(ms, format, depth + 1), Indent(format, depth));
    }
  }

  lemma EmptyBraces(format: bool, depth: nat)
    ensures "{" + (if format then Line(depth) else "") + "}" == "{" + Newline(format) + "" + Indent(format, depth) + "}"
    ensures IsSpace(if format then Line(depth) else "")
  {
  }

  lemma Braces(n: string, t: string, i: string)
    ensures "{" + (n + t + i) + "}" == "{" + n + t + i + "}"
  {
  }
}
