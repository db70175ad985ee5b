/**
 The texts the parser accepts, as a relation between a stretch of text and the value it stands for,
 and the proof that the parser accepts exactly these. The relation is that of RFC 8259, widened by
 what the code tolerates: any character up to the space counts as white space, strings may hold
 control characters and ill-formed \u sequences, and integers may have leading zeros.
 */
module JsonSound {
  import opened Json
  import opened JsonParse
  import opened JsonRoundTrip
  import opened JsonGrammar

  // ---- the relation ----

  predicate Blank(s: string, i: nat, j: nat)
  {
    i <= j <= |s| && forall k :: i <= k < j ==> s[k] <= ' '
  }

  /** An optional minus sign and digits, at most 63 characters together, in int range. */
  predicate NumberAt(s: string, i: nat, e: nat, n: int)
  {
    && i < e <= |s| && e - i <= NUMBER_LIMIT && INT_MIN <= n <= INT_MAX
    && var a := if s[i] == '-' then i + 1 else i;
      a < e && (forall k :: a <= k < e ==> IsDigit(s[k])) && n == (if s[i] == '-' then 0 - DigitsValue(s[a..e]) else DigitsValue(s[a..e]))
  }

  /** No quote in s[i..end] except behind a backslash, and no backslash left alone at the end. */
  predicate Scans(s: string, i: nat, end: nat)
    requires end <= |s|
    decreases end - i
  {
    if i >= end then i == end
    else if s[i] == '\\' then Scans(s, i + 2, end)
    else s[i] != '\"' && Scans(s, i + 1, end)
  }

  /**
   The pieces that s[i..end] is read as. Behind an ill-formed \u sequence the reading can fall out of
   step with the search for the closing quote at s[end], and then end with that quote escaped.
   */
  predicate Reads(s: string, i: nat, end: nat, ps: seq<Piece>)
    requires i <= end < |s|
  {
    && LoosePieces(ps)
    && (s[i..end] == PiecesText(ps) || (s[i..end + 1] == PiecesText(ps) && ps != [] && ps[|ps| - 1] == Short('\"')))
  }

  /** A string: quotes around what scans and reads, up to the first NUL it stands for. */
  ghost predicate StringAt(s: string, i: nat, e: nat, x: string)
  {
    && i + 2 <= e <= |s| && s[i] == '\"' && s[e - 1] == '\"' && Scans(s, i + 1, e - 1)
    && exists ps: seq<Piece> :: Reads(s, i + 1, e - 1, ps) && x == CString(PiecesValue(ps))
  }

  /** s[i..e] is a text of v. */
  ghost predicate ValueAt(s: string, i: nat, e: nat, v: Json)
    decreases v
  {
    && i < e <= |s|
    && match v
       case Null => s[i..e] == "null"
       case Bool(b) => s[i..e] == if b then "true" else "false"
       case Int(n) => NumberAt(s, i, e, n)
       case String(x) => StringAt(s, i, e, x)
       case Array(items) =>
         i + 2 <= e && s[i] == '[' && s[e - 1] == ']' && if items == [] then Blank(s, i + 1, e - 1) else ItemsAt(s, i + 1, e - 1, items)
       case Object(ms) =>
         i + 2 <= e && s[i] == '{' && s[e - 1] == '}' && if ms == [] then Blank(s, i + 1, e - 1) else MembersAt(s, i + 1, e - 1, ms)
  }

  /** White space, a value, white space; a comma in front of the next one. */
  ghost predicate ItemsAt(s: string, i: nat, e: nat, items: seq<Json>)
    requires items != []
    decreases items
  {
    exists a: nat, b: nat, c: nat ::
      && Blank(s, i, a) && ValueAt(s, a, b, items[0]) && Blank(s, b, c)
      && if |items| == 1 then c == e else c < |s| && s[c] == ',' && ItemsAt(s, c + 1, e, items[1..])
  }

  /** White space, a name, white space, a colon, white space, a value, white space. */
  ghost predicate MemberAt(s: string, i: nat, e: nat, m: Member)
    decreases m, 1
  {
    exists a: nat, b: nat, c: nat, x: nat, y: nat :: MemberParted(s, i, e, m, a, b, c, x, y)
  }

  ghost predicate MemberParted(s: string, i: nat, e: nat, m: Member, a: nat, b: nat, c: nat, x: nat, y: nat)
    decreases m, 0
  {
    && Blank(s, i, a) && StringAt(s, a, b, m.key) && Blank(s, b, c) && c < |s| && s[c] == ':'
    && Blank(s, c + 1, x) && ValueAt(s, x, y, m.value) && Blank(s, y, e)
  }

  ghost predicate MembersAt(s: string, i: nat, e: nat, ms: seq<Member>)
    requires ms != []
    decreases ms
  {
    exists c: nat :: MemberAt(s, i, c, ms[0])
      && if |ms| == 1 then c == e else c < |s| && s[c] == ',' && MembersAt(s, c + 1, e, ms[1..])
  }

  // ---- strings ----

  lemma {:induction false} QuoteScans(s: string, i: nat)
    requires i <= |s| && FindQuote(s, i).Done?
    ensures Scans(s, i, FindQuote(s, i).next)
    decreases |s| - i
  {
    if s[i] == '\"' {
    } else if s[i] == '\\' {
      QuoteScans(s, i + 2);
    } else {
      QuoteScans(s, i + 1);
    }
  }

  lemma {:induction false} ScansQuote(s: string, i: nat, end: nat)
    requires i <= end < |s| && s[end] == '\"' && Scans(s, i, end)
    ensures FindQuote(s, i) == Done((), end)
    decreases end - i
  {
    if i < end { ScansQuote(s, if s[i] == '\\' then i + 2 else i + 1, end); }
  }

  lemma PiecesFirst(p: Piece, ps: seq<Piece>)
    ensures PiecesText([p] + ps) == PieceText(p) + PiecesText(ps)
    ensures LoosePiece(p) && LoosePieces(ps) ==> LoosePieces([p] + ps) && PiecesValue([p] + ps) == PieceValue(p) + PiecesValue(ps)
  {
    hide PieceText, PieceValue, LoosePiece;
    assert ([p] + ps)[1..] == ps;
  }

  /** The first piece that decoding takes. */
  lemma DecodeFirst(s: string, i: nat, end: nat) returns (p: Piece, j: nat)
    requires i < end < |s| && s[end] == '\"' && Decode(s, i, end).Done?
    ensures LoosePiece(p) && i < j <= |s| && s[i..j] == PieceText(p)
    ensures j <= end || (j == end + 1 && p == Short('\"'))
    ensures Decode(s, j, end).Done? && Decode(s, i, end) == Prepend(PieceValue(p), Decode(s, j, end))
  {
    hide Utf8;
    if s[i] != '\\' {
      p, j := Plain(s[i]), i + 1;
    } else if s[i + 1] == 'u' {
      p, j := LiteralFirst(s, i, end);
    } else {
      p, j := Short(s[i + 1]), i + 2;
    }
  }

  lemma LiteralFirst(s: string, i: nat, end: nat) returns (p: Piece, j: nat)
    requires i < end < |s| && s[i] == '\\' && s[i + 1] == 'u' && Utf16Literal(s, i, end).Done?
    ensures LoosePiece(p) && i < j <= end && s[i..j] == PieceText(p)
    ensures Utf16Literal(s, i, end) == Done(PieceValue(p), j)
  {
    hide Utf8, Hex4;
    var t := s[i + 2..i + 6];
    SliceHex(s, i + 2);
    if 0xD800 <= Hex4(s, i + 2) <= 0xDBFF {
      var u := s[i + 8..i + 12];
      SliceHex(s, i + 8);
      p, j := Pair(t, u), i + 12;
      PairSlice(s, i);
    } else {
      p, j := Unit(t), i + 6;
      UnitSlice(s, i);
    }
  }

  lemma UnitSlice(s: string, i: nat)
    requires i + 6 <= |s| && s[i] == '\\' && s[i + 1] == 'u'
    ensures s[i..i + 6] == "\\u" + s[i + 2..i + 6]
  {
  }

  lemma PairSlice(s: string, i: nat)
    requires i + 12 <= |s| && s[i] == '\\' && s[i + 1] == 'u' && s[i + 6] == '\\' && s[i + 7] == 'u'
    ensures s[i..i + 12] == "\\u" + s[i + 2..i + 6] + "\\u" + s[i + 8..i + 12]
  {
    UnitSlice(s, i);
    UnitSlice(s, i + 6);
    assert s[i..i + 12] == s[i..i + 6] + s[i + 6..i + 12];
  }

  lemma SliceHex(s: string, i: nat)
    requires i + 4 <= |s|
    ensures Hex4(s[i..i + 4], 0) == Hex4(s, i)
  {
  }

  lemma {:induction false} DecodeReads(s: string, i: nat, end: nat) returns (ps: seq<Piece>)
    requires i <= end < |s| && s[end] == '\"' && Decode(s, i, end).Done?
    ensures Reads(s, i, end, ps) && PiecesValue(ps) == Decode(s, i, end).value
    decreases end - i
  {
    if i == end {
      ps := [];
    } else {
      var p, j := DecodeFirst(s, i, end);
      hide Decode, PieceText, PieceValue, LoosePiece;
      if j > end {
        ps := [p];
        OverrunReads(s, i, end, p);
      } else {
        var qs := DecodeReads(s, j, end);
        ps := [p] + qs;
        ReadsCons(s, i, j, end, p, qs);
      }
    }
  }

  lemma ReadsCons(s: string, i: nat, j: nat, end: nat, p: Piece, qs: seq<Piece>)
    requires i < j <= end < |s| && LoosePiece(p) && s[i..j] == PieceText(p) && Reads(s, j, end, qs)
    ensures Reads(s, i, end, [p] + qs) && PiecesValue([p] + qs) == PieceValue(p) + PiecesValue(qs)
  {
    hide PieceText, PieceValue, LoosePiece, PiecesText, PiecesValue;
    PiecesFirst(p, qs);
    assert s[i..end] == s[i..j] + s[j..end] && s[i..end + 1] == s[i..j] + s[j..end + 1];
    assert qs != [] ==> ([p] + qs)[|[p] + qs| - 1] == qs[|qs| - 1];
  }

  lemma OverrunReads(s: string, i: nat, end: nat, p: Piece)
    requires i < end < |s| && LoosePiece(p) && p == Short('\"') && s[i..end + 1] == PieceText(p)
    requires Decode(s, end + 1, end).Done? && Decode(s, i, end) == Prepend(PieceValue(p), Decode(s, end + 1, end))
    ensures Reads(s, i, end, [p]) && PiecesValue([p]) == Decode(s, i, end).value
  {
    assert [p][1..] == [];
    assert PiecesText([p]) == PieceText(p) + "" && PiecesValue([p]) == PieceValue(p) + "";
    assert Decode(s, end + 1, end) == Done("", end + 1);
  }

  /** Decoding the piece that the text starts with. */
  lemma PieceDecodes(s: string, i: nat, end: nat, p: Piece)
    requires i < end < |s| && LoosePiece(p) && At(s, i, PieceText(p))
    requires i + |PieceText(p)| <= end || (i + |PieceText(p)| == end + 1 && p.Short?)
    ensures Decode(s, i, end) == Prepend(PieceValue(p), Decode(s, i + |PieceText(p)|, end))
  {
    hide Utf8, Hex4;
    AtChar(s, i, PieceText(p), 0);
    match p
    case Plain(c) =>
    case Short(c) => AtChar(s, i, PieceText(p), 1);
    case Unit(t) => UnitDecodes(s, i, end, t);
    case Pair(t, u) => PairDecodes(s, i, end, t, u);
  }

  lemma UnitDecodes(s: string, i: nat, end: nat, t: string)
    requires i + 6 <= end < |s| && LoosePiece(Unit(t)) && At(s, i, "\\u" + t)
    ensures s[i] == '\\' && s[i + 1] == 'u' && Utf16Literal(s, i, end) == Done(PieceValue(Unit(t)), i + 6)
  {
    hide Utf8;
    AtSplit(s, i, "\\u", t);
    AtChar(s, i, "\\u", 0);
    AtChar(s, i, "\\u", 1);
    SliceHex(s, i + 2);
  }

  lemma PairDecodes(s: string, i: nat, end: nat, t: string, u: string)
    requires i + 12 <= end < |s| && LoosePiece(Pair(t, u)) && At(s, i, "\\u" + t + "\\u" + u)
    ensures s[i] == '\\' && s[i + 1] == 'u' && Utf16Literal(s, i, end) == Done(PieceValue(Pair(t, u)), i + 12)
  {
    hide Utf8;
    AtSplit3(s, i, "\\u" + t, "\\u", u);
    AtSplit(s, i, "\\u", t);
    AtChar(s, i, "\\u", 0);
    AtChar(s, i, "\\u", 1);
    AtChar(s, i + 6, "\\u", 0);
    AtChar(s, i + 6, "\\u", 1);
    SliceHex(s, i + 2);
    SliceHex(s, i + 8);
  }

  /** What is read so, from the start of the text on. */
  lemma ReadsSplit(s: string, i: nat, end: nat, ps: seq<Piece>)
    requires i < end < |s| && Reads(s, i, end, ps)
    ensures ps != [] && LoosePiece(ps[0]) && At(s, i, PieceText(ps[0]))
    ensures var j := i + |PieceText(ps[0])|;
      && i < j && PiecesValue(ps) == PieceValue(ps[0]) + PiecesValue(ps[1..])
      && if j <= end then Reads(s, j, end, ps[1..]) else j == end + 1 && ps[0].Short? && ps[1..] == []
  {
    hide PieceValue, LoosePiece;
    NoPieces();
    assert ps != [];
    var p, rest := ps[0], ps[1..];
    assert ps == [p] + rest;
    PiecesFirst(p, rest);
    hide PiecesText, PiecesValue, PieceText;
    PieceLength(p);
    var last := if s[i..end] == PiecesText(ps) then end else end + 1;
    var j := i + |PieceText(p)|;
    assert s[i..last] == PieceText(p) + PiecesText(rest);
    SliceSplit(s, i, last, PieceText(p), PiecesText(rest));
    if rest != [] {
      assert rest[|rest| - 1] == ps[|ps| - 1];
      PieceLength(rest[|rest| - 1]);
      LastPiece(rest);
    }
  }

  lemma PieceLength(p: Piece)
    ensures PieceText(p) != "" && (p.Short? ==> |PieceText(p)| == 2)
  {
  }

  lemma NoPieces()
    ensures PiecesText([]) == "" && PiecesValue([]) == ""
  {
  }

  lemma {:induction false} LastPiece(ps: seq<Piece>)
    requires ps != []
    ensures |PiecesText(ps)| >= |PieceText(ps[|ps| - 1])|
  {
    hide PieceText;
    assert ps == [ps[0]] + ps[1..];
    PiecesFirst(ps[0], ps[1..]);
    if |ps| > 1 { LastPiece(ps[1..]); }
  }

  lemma SliceSplit(s: string, i: nat, e: nat, a: string, b: string)
    requires i <= e <= |s| && s[i..e] == a + b
    ensures i + |a| <= e && At(s, i, a) && s[i + |a|..e] == b
  {
    assert s[i..i + |a|] == s[i..e][..|a|] == a;
    assert s[i + |a|..e] == s[i..e][|a|..] == b;
  }

  lemma {:induction false} ReadsDecode(s: string, i: nat, end: nat, ps: seq<Piece>)
    requires i <= end < |s| && Reads(s, i, end, ps)
    ensures Decode(s, i, end).Done? && Decode(s, i, end).value == PiecesValue(ps)
    decreases end - i
  {
    hide PieceText, PieceValue, LoosePiece, Reads, At, PiecesValue, PiecesText;
    NoPieces();
    DecodeBehind(s, end);
    if i == end {
      EmptyReads(s, end, ps);
    } else {
      hide Decode;
      ReadsSplit(s, i, end, ps);
      PieceDecodes(s, i, end, ps[0]);
      var j := i + |PieceText(ps[0])|;
      if j <= end { ReadsDecode(s, j, end, ps[1..]); }
    }
  }

  lemma DecodeBehind(s: string, end: nat)
    requires end < |s|
    ensures Decode(s, end, end) == Done("", end) && Decode(s, end + 1, end) == Done("", end + 1)
  {
  }

  lemma EmptyReads(s: string, end: nat, ps: seq<Piece>)
    requires end < |s| && Reads(s, end, end, ps)
    ensures ps == []
  {
    hide PieceText, PiecesText;
    assert |s[end..end + 1]| == 1;
    if ps != [] {
      LastPiece(ps);
      PieceLength(ps[|ps| - 1]);
    }
  }

  /** The parser reads a string exactly where one stands. */
  lemma {:induction false} StringExact(s: string, i: nat, e: nat, x: string)
    requires i < |s|
    ensures ParseString(s, i) == Done(x, e) <==> StringAt(s, i, e, x)
  {
    hide FindQuote, Decode, Scans, LoosePiece, CString, PiecesValue, PiecesText;
    if ParseString(s, i) == Done(x, e) {
      var q := FindQuote(s, i + 1).next;
      QuoteScans(s, i + 1);
      var ps := DecodeReads(s, i + 1, q);
      assert Reads(s, i + 1, e - 1, ps);
    }
    if StringAt(s, i, e, x) {
      var ps: seq<Piece> :| Reads(s, i + 1, e - 1, ps) && x == CString(PiecesValue(ps));
      ScansQuote(s, i + 1, e - 1);
      ReadsDecode(s, i + 1, e - 1, ps);
    }
  }

  // ---- numbers ----

  lemma SliceDigits(s: string, i: nat, e: nat, a: nat, b: nat)
    requires i <= e <= |s| && a <= b <= e - i && forall k :: a <= k < b ==> IsDigit(s[i..e][k])
    ensures s[i..e][a..b] == s[i + a..i + b] && forall k :: i + a <= k < i + b ==> IsDigit(s[k])
  {
    var t := s[i..e];
    var u, v := t[a..b], s[i + a..i + b];
    forall k | 0 <= k < |u| ensures u[k] == v[k] { assert u[k] == t[a + k] && v[k] == s[i + a + k]; }
    forall k | i + a <= k < i + b ensures IsDigit(s[k]) { assert s[k] == t[k - i]; }
  }

  lemma NumberSound(s: string, i: nat)
    requires i < |s| && (s[i] == '-' || IsDigit(s[i])) && ParseNumber(s, i).Done?
    ensures var r := ParseNumber(s, i); r.value.Int? && NumberAt(s, i, r.next, r.value.n)
  {
    hide SpanEnd, DigitsEnd, DigitsValue;
    var e := SpanEnd(s, i, NUMBER_LIMIT);
    var t := s[i..e];
    assert e > i && t[0] == s[i];
    var a := if s[i] == '-' then 1 else 0;
    var b := DigitsEnd(t, a, |t|);
    SliceDigits(s, i, e, a, b);
  }

  lemma NumberComplete(s: string, i: nat, e: nat, n: int)
    requires NumberAt(s, i, e, n) && Delimited(s, e)
    ensures ParseNumber(s, i) == Done(Int(n), e) && (s[i] == '-' || IsDigit(s[i]))
  {
    hide SpanEnd, DigitsEnd, DigitsValue;
    SpanIs(s, i, e, NUMBER_LIMIT);
    var t := s[i..e];
    assert t[0] == s[i];
    var a := if s[i] == '-' then 1 else 0;
    forall k | a <= k < |t| ensures IsDigit(t[k]) { assert t[k] == s[i + k]; }
    DigitsEndIs(t, a, |t|);
    SliceDigits(s, i, e, a, |t|);
  }

  // ---- everything accepted stands in the relation ----

  lemma SkipBlank(s: string, i: nat)
    requires i <= |s|
    ensures Blank(s, i, Skip(s, i))
  {
  }

  lemma LeafSound(s: string, i: nat, d: nat)
    requires i <= |s| && d <= NESTING_LIMIT && ParseValue(s, i, d).Done? && !ParseValue(s, i, d).value.Array? && !ParseValue(s, i, d).value.Object?
    ensures ValueAt(s, i, ParseValue(s, i, d).next, ParseValue(s, i, d).value)
  {
    hide Skip, ParseItems, ParseMembers, ParseNumber, ParseString, StringAt, NumberAt;
    var r := ParseValue(s, i, d);
    assert |"null"| == 4 && |"true"| == 4 && |"false"| == 5;
    NotNumber(s, i);
    if r.value.String? {
      StringExact(s, i, r.next, r.value.s);
    } else if r.value.Int? {
      NumberSound(s, i);
    }
  }

  /** Whatever the parser returns, the characters it has read are a text of it. */
  lemma {:induction false} ValueSound(s: string, i: nat, d: nat)
    requires i <= |s| && d <= NESTING_LIMIT && ParseValue(s, i, d).Done?
    ensures ValueAt(s, i, ParseValue(s, i, d).next, ParseValue(s, i, d).value)
    decreases NESTING_LIMIT - d, 0, 0
  {
    hide Skip, ParseItems, ParseMembers, ParseNumber, ParseString, StringAt, NumberAt, Blank, ItemsAt, MembersAt;
    var r := ParseValue(s, i, d);
    if r.value.Array? {
      NotNumber(s, i);
      SkipBlank(s, i + 1);
      if r.value.items != [] {
        ItemsSound(s, Skip(s, i + 1), d + 1);
        ItemsBefore(s, i + 1, Skip(s, i + 1), r.next - 1, r.value.items);
      }
    } else if r.value.Object? {
      NotNumber(s, i);
      SkipBlank(s, i + 1);
      if r.value.members != [] {
        MembersSound(s, Skip(s, i + 1), d + 1);
        MembersBefore(s, i + 1, Skip(s, i + 1), r.next - 1, r.value.members);
      }
    } else {
      LeafSound(s, i, d);
    }
  }

  lemma NotNumber(s: string, i: nat)
    requires i <= |s|
    ensures ParseNumber(s, i).Done? ==> ParseNumber(s, i).value.Int?
  {
  }

  lemma BlankJoin(s: string, i: nat, j: nat, k: nat)
    requires Blank(s, i, j) && Blank(s, j, k)
    ensures Blank(s, i, k)
  {
  }

  lemma ItemsBefore(s: string, i: nat, j: nat, e: nat, items: seq<Json>)
    requires items != [] && Blank(s, i, j) && ItemsAt(s, j, e, items)
    ensures ItemsAt(s, i, e, items)
  {
    hide Blank;
    var a: nat, b: nat, c: nat :|
      && Blank(s, j, a) && ValueAt(s, a, b, items[0]) && Blank(s, b, c)
      && if |items| == 1 then c == e else c < |s| && s[c] == ',' && ItemsAt(s, c + 1, e, items[1..]);
    BlankJoin(s, i, j, a);
  }

  lemma MembersBefore(s: string, i: nat, j: nat, e: nat, ms: seq<Member>)
    requires ms != [] && Blank(s, i, j) && MembersAt(s, j, e, ms)
    ensures MembersAt(s, i, e, ms)
  {
    hide Blank, StringAt, ValueAt;
    var c: nat :| MemberAt(s, j, c, ms[0])
      && if |ms| == 1 then c == e else c < |s| && s[c] == ',' && MembersAt(s, c + 1, e, ms[1..]);
    MemberBefore(s, i, j, c, ms[0]);
  }

  lemma MemberBefore(s: string, i: nat, j: nat, e: nat, m: Member)
    requires Blank(s, i, j) && MemberAt(s, j, e, m)
    ensures MemberAt(s, i, e, m)
  {
    hide Blank, StringAt, ValueAt;
    var a: nat, b: nat, c: nat, x: nat, y: nat :| MemberParted(s, j, e, m, a, b, c, x, y);
    BlankJoin(s, i, j, a);
    assert MemberParted(s, i, e, m, a, b, c, x, y);
  }

  lemma {:induction false} ItemsSound(s: string, i: nat, d: nat)
    requires i <= |s| && d <= NESTING_LIMIT && ParseItems(s, i, d).Done?
    ensures var r := ParseItems(s, i, d); i < r.next && s[r.next - 1] == ']' && ItemsAt(s, i, r.next - 1, r.value)
    decreases NESTING_LIMIT - d, 1, |s| - i
  {
    hide ParseValue, Skip, Blank, ValueAt;
    var r := ParseItems(s, i, d);
    var a := Skip(s, i);
    var v := ParseValue(s, a, d);
    var c := Skip(s, v.next);
    SkipBlank(s, i);
    SkipBlank(s, v.next);
    ValueSound(s, a, d);
    assert Blank(s, i, a) && ValueAt(s, a, v.next, v.value) && Blank(s, v.next, c);
    if s[c] == ',' {
      ItemsSound(s, c + 1, d);
      hide ParseItems, ItemsAt;
      var more := ParseItems(s, c + 1, d).value;
      assert r.value == [v.value] + more;
      assert r.value[1..] == more;
      ItemsCons(s, i, a, v.next, c, r.next - 1, r.value);
    } else {
      ItemsLast(s, i, a, v.next, c, v.value);
    }
  }

  lemma ItemsCons(s: string, i: nat, a: nat, b: nat, c: nat, e: nat, items: seq<Json>)
    requires |items| > 1 && Blank(s, i, a) && ValueAt(s, a, b, items[0]) && Blank(s, b, c)
    requires c < |s| && s[c] == ',' && ItemsAt(s, c + 1, e, items[1..])
    ensures ItemsAt(s, i, e, items)
  {
    hide Blank, ValueAt;
  }

  lemma ItemsLast(s: string, i: nat, a: nat, b: nat, c: nat, v: Json)
    requires Blank(s, i, a) && ValueAt(s, a, b, v) && Blank(s, b, c)
    ensures ItemsAt(s, i, c, [v])
  {
    hide Blank, ValueAt;
    assert [v][0] == v;
  }

  lemma {:induction false} MemberSound(s: string, i: nat, d: nat)
    requires i <= |s| && d <= NESTING_LIMIT && ParseMember(s, i, d).Done?
    ensures MemberAt(s, i, ParseMember(s, i, d).next, ParseMember(s, i, d).value)
    decreases NESTING_LIMIT - d, 1, |s| - i
  {
    hide ParseValue, ParseString, Skip, Blank, ValueAt, StringAt;
    var r := ParseMember(s, i, d);
    var a := Skip(s, i);
    var name := ParseString(s, a);
    var c := Skip(s, name.next);
    var x := Skip(s, c + 1);
    var v := ParseValue(s, x, d);
    SkipBlank(s, i);
    SkipBlank(s, name.next);
    SkipBlank(s, c + 1);
    SkipBlank(s, v.next);
    StringExact(s, a, name.next, name.value);
    ValueSound(s, x, d);
    MemberCons(s, i, a, name.next, c, x, v.next, r.next, r.value);
  }

  lemma MemberCons(s: string, i: nat, a: nat, b: nat, c: nat, x: nat, y: nat, e: nat, m: Member)
    requires Blank(s, i, a) && StringAt(s, a, b, m.key) && Blank(s, b, c) && c < |s| && s[c] == ':'
    requires Blank(s, c + 1, x) && ValueAt(s, x, y, m.value) && Blank(s, y, e)
    ensures MemberAt(s, i, e, m)
  {
    hide Blank, ValueAt, StringAt;
    assert MemberParted(s, i, e, m, a, b, c, x, y);
  }

  lemma {:induction false} MembersSound(s: string, i: nat, d: nat)
    requires i <= |s| && d <= NESTING_LIMIT && ParseMembers(s, i, d).Done?
    ensures var r := ParseMembers(s, i, d); i < r.next && s[r.next - 1] == '}' && MembersAt(s, i, r.next - 1, r.value)
    decreases NESTING_LIMIT - d, 2, |s| - i
  {
    hide ParseMember, MemberAt;
    var r := ParseMembers(s, i, d);
    var m := ParseMember(s, i, d);
    MemberSound(s, i, d);
    if s[m.next] == ',' {
      MembersSound(s, m.next + 1, d);
      hide ParseMembers, MembersAt;
      var more := ParseMembers(s, m.next + 1, d).value;
      assert r.value == [m.value] + more;
      assert r.value[1..] == more;
      MembersCons(s, i, m.next, r.next - 1, r.value);
    } else {
      MembersLast(s, i, m.next, m.value);
    }
  }

  lemma MembersCons(s: string, i: nat, c: nat, e: nat, ms: seq<Member>)
    requires |ms| > 1 && MemberAt(s, i, c, ms[0]) && c < |s| && s[c] == ',' && MembersAt(s, c + 1, e, ms[1..])
    ensures MembersAt(s, i, e, ms)
  {
    hide MemberAt;
  }

  lemma MembersLast(s: string, i: nat, c: nat, m: Member)
    requires MemberAt(s, i, c, m)
    ensures MembersAt(s, i, c, [m])
  {
    hide MemberAt;
    assert [m][0] == m;
  }

  // ---- everything in the relation is accepted ----

  /** The first character decides. */
  lemma ValueStart(s: string, i: nat, e: nat, v: Json)
    requires ValueAt(s, i, e, v)
    ensures i < |s| && s[i] > ' ' && s[i] < 0x80 as char && s[i] != ']' && s[i] != '}'
  {
    hide StringAt, ItemsAt, MembersAt;
    match v
    case Null => assert s[i] == s[i..e][0] == 'n';
    case Bool(b) => assert s[i] == s[i..e][0] == (if b then 't' else 'f');
    case Int(n) => assert s[i] == '-' || IsDigit(s[i]);
    case String(x) => assert s[i] == '\"' by { StringStart(s, i, e, x); }
    case _ =>
  }

  lemma StringStart(s: string, i: nat, e: nat, x: string)
    requires StringAt(s, i, e, x)
    ensures i < |s| && s[i] == '\"'
  {
  }

  lemma LeafComplete(s: string, i: nat, e: nat, v: Json, d: nat)
    requires ValueAt(s, i, e, v) && d <= NESTING_LIMIT && Delimited(s, e) && !v.Array? && !v.Object?
    ensures ParseValue(s, i, d) == Done(v, e)
  {
    hide Skip, ParseItems, ParseMembers, ParseNumber, ParseString, StringAt, NumberAt;
    assert |"null"| == 4 && |"true"| == 4 && |"false"| == 5;
    match v
    case Null => assert At(s, i, "null");
    case Bool(b) =>
      assert s[i] == s[i..e][0];
      FirstDecides(s, i);
    case Int(n) =>
      NumberComplete(s, i, e, n);
      FirstDecides(s, i);
    case String(x) =>
      StringStart(s, i, e, x);
      FirstDecides(s, i);
      StringExact(s, i, e, x);
  }

  /** Every text in the relation is accepted wherever it stands, unless more of a number follows. */
  lemma {:induction false} ValueComplete(s: string, i: nat, e: nat, v: Json, d: nat)
    requires ValueAt(s, i, e, v) && d + Nesting(v) <= NESTING_LIMIT && Delimited(s, e)
    ensures ParseValue(s, i, d) == Done(v, e)
    decreases v, 1
  {
    match v
    case Array(items) => ArrayComplete(s, i, e, items, d);
    case Object(ms) => ObjectComplete(s, i, e, ms, d);
    case _ => LeafComplete(s, i, e, v, d);
  }

  lemma BlankSkips(s: string, i: nat, j: nat)
    requires Blank(s, i, j) && j < |s| && s[j] > ' '
    ensures Skip(s, i) == j && Skip(s, j) == j
  {
    SkipTo(s, i, j);
    SkipTo(s, j, j);
  }

  lemma BlankDelimits(s: string, i: nat, j: nat)
    requires Blank(s, i, j) && j < |s| && !NumberChar(s[j])
    ensures Delimited(s, i)
  {
  }

  lemma {:induction false} ArrayComplete(s: string, i: nat, e: nat, items: seq<Json>, d: nat)
    requires ValueAt(s, i, e, Array(items)) && d + Nesting(Array(items)) <= NESTING_LIMIT
    ensures ParseValue(s, i, d) == Done(Array(items), e)
    decreases items, 1
  {
    hide ParseValue, ParseItems, Skip, Blank, ItemsAt, ItemsNesting;
    if items == [] {
      BlankSkips(s, i + 1, e - 1);
      AtBracket(s, i, d);
    } else {
      var j := ItemsStart(s, i + 1, e - 1, items);
      AtBracket(s, i, d);
      ItemsComplete(s, j, i + 1, e - 1, items, d + 1);
    }
  }

  lemma ItemsStart(s: string, i: nat, e: nat, items: seq<Json>) returns (j: nat)
    requires items != [] && ItemsAt(s, i, e, items)
    ensures i <= |s| && j < |s| && Skip(s, i) == j && Skip(s, j) == j && s[j] != ']'
  {
    hide Skip, Blank, ValueAt;
    var a: nat, b: nat, c: nat :|
      && Blank(s, i, a) && ValueAt(s, a, b, items[0]) && Blank(s, b, c)
      && if |items| == 1 then c == e else c < |s| && s[c] == ',' && ItemsAt(s, c + 1, e, items[1..]);
    j := a;
    ValueStart(s, a, b, items[0]);
    BlankSkips(s, i, a);
  }

  /** i0 is an offset from which white space leads to the same value as from i. */
  lemma {:induction false} ItemsComplete(s: string, i0: nat, i: nat, e: nat, items: seq<Json>, d: nat)
    requires items != [] && ItemsAt(s, i, e, items) && e < |s| && s[e] == ']' && d + ItemsNesting(items) <= NESTING_LIMIT
    requires i0 <= |s| && i <= |s| && Skip(s, i0) == Skip(s, i)
    ensures ParseItems(s, i0, d) == Done(items, e + 1)
    decreases items, 0
  {
    hide ParseItems, ParseValue, Skip, Blank, ValueAt, Nesting;
    var a: nat, b: nat, c: nat :|
      && Blank(s, i, a) && ValueAt(s, a, b, items[0]) && Blank(s, b, c)
      && if |items| == 1 then c == e else c < |s| && s[c] == ',' && ItemsAt(s, c + 1, e, items[1..]);
    hide ItemsAt;
    ValueStart(s, a, b, items[0]);
    BlankSkips(s, i, a);
    BlankSkips(s, b, c);
    BlankDelimits(s, b, c);
    ValueComplete(s, a, b, items[0], d);
    BlankOrder(s, b, c);
    OneItem(s, i0, d, items[0], b, c);
    if |items| == 1 {
      assert items == [items[0]];
    } else {
      ItemsComplete(s, c + 1, c + 1, e, items[1..], d);
      assert items == [items[0]] + items[1..];
    }
  }

  lemma BlankOrder(s: string, i: nat, j: nat)
    requires Blank(s, i, j)
    ensures i <= j <= |s|
  {
  }

  lemma {:induction false} ObjectComplete(s: string, i: nat, e: nat, ms: seq<Member>, d: nat)
    requires ValueAt(s, i, e, Object(ms)) && d + Nesting(Object(ms)) <= NESTING_LIMIT
    ensures ParseValue(s, i, d) == Done(Object(ms), e)
    decreases ms, 1
  {
    hide ParseValue, ParseMembers, Skip, Blank, MembersAt, MembersNesting;
    if ms == [] {
      BlankSkips(s, i + 1, e - 1);
      AtBrace(s, i, d);
    } else {
      var j := MembersStart(s, i + 1, e - 1, ms);
      AtBrace(s, i, d);
      MembersComplete(s, j, i + 1, e - 1, ms, d + 1);
    }
  }

  lemma MembersStart(s: string, i: nat, e: nat, ms: seq<Member>) returns (j: nat)
    requires ms != [] && MembersAt(s, i, e, ms)
    ensures i <= |s| && j < |s| && Skip(s, i) == j && Skip(s, j) == j && s[j] != '}'
  {
    hide MemberAt;
    var c: nat :| MemberAt(s, i, c, ms[0])
      && if |ms| == 1 then c == e else c < |s| && s[c] == ',' && MembersAt(s, c + 1, e, ms[1..]);
    j := MemberStart(s, i, c, ms[0]);
  }

  lemma MemberStart(s: string, i: nat, e: nat, m: Member) returns (j: nat)
    requires MemberAt(s, i, e, m)
    ensures i <= |s| && j < |s| && Skip(s, i) == j && Skip(s, j) == j && s[j] == '\"'
  {
    hide Blank, StringAt, ValueAt, Skip;
    var a: nat, b: nat, c: nat, x: nat, y: nat :| MemberParted(s, i, e, m, a, b, c, x, y);
    j := a;
    StringStart(s, a, b, m.key);
    BlankSkips(s, i, a);
  }

  lemma {:induction false} MemberComplete(s: string, i0: nat, i: nat, e: nat, m: Member, d: nat)
    requires MemberAt(s, i, e, m) && e < |s| && (s[e] == ',' || s[e] == '}') && d + Nesting(m.value) <= NESTING_LIMIT
    requires i0 < |s| && i <= |s| && Skip(s, i0) == Skip(s, i)
    ensures ParseMember(s, i0, d) == Done(m, e)
    decreases m
  {
    hide Blank, StringAt, ValueAt, Skip, ParseMember, ParseValue, ParseString, Nesting;
    var a: nat, b: nat, c: nat, x: nat, y: nat :| MemberParted(s, i, e, m, a, b, c, x, y);
    hide MemberAt;
    StringStart(s, a, b, m.key);
    BlankSkips(s, i, a);
    StringExact(s, a, b, m.key);
    BlankSkips(s, b, c);
    BlankOrder(s, b, c);
    ValueStart(s, x, y, m.value);
    BlankSkips(s, c + 1, x);
    BlankDelimits(s, y, e);
    ValueComplete(s, x, y, m.value, d);
    BlankSkips(s, y, e);
    OneMember(s, i0, a, b, c, x, y, m, d);
  }

  lemma {:induction false} MembersComplete(s: string, i0: nat, i: nat, e: nat, ms: seq<Member>, d: nat)
    requires ms != [] && MembersAt(s, i, e, ms) && e < |s| && s[e] == '}' && d + MembersNesting(ms) <= NESTING_LIMIT
    requires i0 < |s| && i <= |s| && Skip(s, i0) == Skip(s, i)
    ensures ParseMembers(s, i0, d) == Done(ms, e + 1)
    decreases ms, 0
  {
    hide ParseMembers, ParseMember, Skip, MemberAt, Nesting;
    var c: nat :| MemberAt(s, i, c, ms[0])
      && if |ms| == 1 then c == e else c < |s| && s[c] == ',' && MembersAt(s, c + 1, e, ms[1..]);
    hide MembersAt;
    MemberComplete(s, i0, i, c, ms[0], d);
    MembersStep(s, i0, d, ms[0], c);
    if |ms| == 1 {
      assert ms == [ms[0]];
    } else {
      var j := MembersStart(s, c + 1, e, ms[1..]);
      MembersComplete(s, c + 1, c + 1, e, ms[1..], d);
      assert ms == [ms[0]] + ms[1..];
    }
  }

  // ---- whole texts ----

  /** Where a text starts: behind a byte order mark, if there is one and more than one character follows it. */
  function TextBegin(s: string): nat
  {
    if |s| > 4 && s[..3] == BOM then 3 else 0
  }

  /** White space, a text of the value, white space, and a terminator at the end of the buffer. */
  ghost predicate TextOf(s: string, v: Json)
  {
    && Nesting(v) <= NESTING_LIMIT
    && exists i: nat, e: nat ::
         Blank(s, TextBegin(s), i) && ValueAt(s, i, e, v) && Blank(s, e, |s|) && e < |s| && s[|s| - 1] == NUL
  }

  lemma BomStart(s: string)
    ensures AfterBom(s) == TextBegin(s) && TextBegin(s) <= |s|
  {
    if |s| > 4 {
      var t := s[..3];
      assert t[0] == s[0] && t[1] == s[1] && t[2] == s[2];
      assert t == BOM <==> t[0] == BOM[0] && t[1] == BOM[1] && t[2] == BOM[2];
    }
  }

  /**
   With the terminator demanded, the parser accepts exactly the texts of the relation, each as the
   value it is a text of; the end it reports is the terminator.
   */
  lemma {:induction false} TextExact(s: string, v: Json)
    ensures TextOf(s, v) <==> ParseText(s, true).Done? && ParseText(s, true).value == v
    ensures ParseText(s, true).Done? ==> ParseText(s, true).next == |s| - 1
  {
    hide ParseValue, ValueAt, Skip, Blank, Nesting, AfterBom, TextBegin;
    BomStart(s);
    var i0 := TextBegin(s);
    if ParseText(s, true).Done? {
      var i := Skip(s, i0);
      var r := ParseValue(s, i, 0);
      ValueSound(s, i, 0);
      ParsedValueFits(s, i, 0);
      SkipBlank(s, i0);
      EndsBlank(s, r.next);
      assert Blank(s, i0, i) && ValueAt(s, i, r.next, r.value) && Blank(s, r.next, |s|);
    }
    if TextOf(s, v) {
      var i: nat, e: nat :| Blank(s, i0, i) && ValueAt(s, i, e, v) && Blank(s, e, |s|) && e < |s| && s[|s| - 1] == NUL;
      ValueStart(s, i, e, v);
      BlankSkips(s, i0, i);
      BlankToEnd(s, e);
      ValueComplete(s, i, e, v, 0);
    }
  }

  lemma EndsBlank(s: string, e: nat)
    requires e <= |s| && (var k := Skip(s, e); k < |s| && s[k] == NUL)
    ensures Blank(s, e, |s|) && Skip(s, e) == |s| - 1
  {
  }

  lemma BlankToEnd(s: string, e: nat)
    requires e < |s| && Blank(s, e, |s|)
    ensures Delimited(s, e) && Skip(s, e) == |s| - 1
  {
    SpaceToEnd(s, e);
  }

  /** Without it, the parser reads the text of a value behind white space and reports where it ends, whatever follows. */
  lemma {:induction false} PrefixSound(s: string) returns (i: nat)
    requires ParseText(s, false).Done?
    ensures var r := ParseText(s, false);
      Blank(s, TextBegin(s), i) && ValueAt(s, i, r.next, r.value) && Nesting(r.value) <= NESTING_LIMIT
  {
    hide ParseValue, ValueAt, Skip, Blank, Nesting, AfterBom, TextBegin;
    BomStart(s);
    i := Skip(s, TextBegin(s));
    ValueSound(s, i, 0);
    ParsedValueFits(s, i, 0);
    SkipBlank(s, TextBegin(s));
  }

  lemma {:induction false} PrefixComplete(s: string, i: nat, e: nat, v: Json)
    requires Blank(s, TextBegin(s), i) && ValueAt(s, i, e, v) && Delimited(s, e) && Nesting(v) <= NESTING_LIMIT
    ensures ParseText(s, false) == Done(v, e)
  {
    hide ParseValue, ValueAt, Skip, Blank, Nesting, AfterBom, TextBegin;
    BomStart(s);
    ValueStart(s, i, e, v);
    BlankSkips(s, TextBegin(s), i);
    ValueComplete(s, i, e, v, 0);
  }
}
