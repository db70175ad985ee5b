/**
 The recursive-descent parser as a function of text, offset and depth. Number tokens other than
 integers in int range are refused here.
 */
module JsonParse {
  import opened Json

  datatype Parsed<+T> = Done(value: T, next: nat) | Failed

  const NESTING_LIMIT: nat := 1000

  // ---- white space ----

  /** First offset from i on that holds no white space, or the length. */
  function SkipEnd(s: string, i: nat): (j: nat)
    requires i <= |s|
    ensures i <= j <= |s|
    ensures forall k :: i <= k < j ==> s[k] <= ' '
    ensures j < |s| ==> s[j] > ' '
    decreases |s| - i
  {
    if i < |s| && s[i] <= ' ' then SkipEnd(s, i + 1) else i
  }

  /** White space that runs up to the end is skipped except for its last character. */
  function Skip(s: string, i: nat): (j: nat)
    requires i <= |s|
    ensures i <= j <= |s| && (i < |s| ==> j < |s|)
  {
    if i == |s| then i
    else if SkipEnd(s, i) == |s| then |s| - 1
    else SkipEnd(s, i)
  }

  // ---- numbers ----

  predicate IsDigit(c: char) { '0' <= c <= '9' }

  predicate NumberChar(c: char)
  {
    IsDigit(c) || c == '+' || c == '-' || c == 'e' || c == 'E' || c == '.'
  }

  const NUMBER_LIMIT: nat := 63

  /** End of the span that is copied for strtod: at most 63 characters. */
  function SpanEnd(s: string, i: nat, room: nat): (j: nat)
    requires i <= |s|
    ensures i <= j <= |s| && j <= i + room
    decreases room
  {
    if room > 0 && i < |s| && NumberChar(s[i]) then SpanEnd(s, i + 1, room - 1) else i
  }

  function DigitsEnd(s: string, i: nat, stop: nat): (j: nat)
    requires i <= stop <= |s|
    ensures i <= j <= stop
    ensures forall k :: i <= k < j ==> IsDigit(s[k])
    decreases stop - i
  {
    if i < stop && IsDigit(s[i]) then DigitsEnd(s, i + 1, stop) else i
  }

  function DigitsValue(s: string): nat
    requires forall k :: 0 <= k < |s| ==> IsDigit(s[k])
  {
    if s == "" then 0
    else
      assert IsDigit(s[|s| - 1]);
      10 * DigitsValue(s[..|s| - 1]) + (s[|s| - 1] as int - 48)
  }

  /** What strtod makes of the copied characters when they start with an integer in int range. */
  function IntegerToken(t: string): (r: Parsed<int>)
    ensures r.Done? ==> 0 < r.next <= |t| && INT_MIN <= r.value <= INT_MAX
  {
    var a := if t != "" && (t[0] == '-' || t[0] == '+') then 1 else 0;
    var b := DigitsEnd(t, a, |t|);
    if a == b || (b < |t| && (t[b] == '.' || t[b] == 'e' || t[b] == 'E')) then Failed
    else
      var n := DigitsValue(t[a..b]);
      var v := if a > 0 && t[0] == '-' then 0 - n else n;
      if INT_MIN <= v <= INT_MAX then Done(v, b) else Failed
  }

  function ParseNumber(s: string, i: nat): (r: Parsed<Json>)
    requires i <= |s|
    ensures r.Done? ==> i < r.next <= |s|
  {
    var r := IntegerToken(s[i..SpanEnd(s, i, NUMBER_LIMIT)]);
    if r.Done? then Done(Int(r.value), i + r.next) else Failed
  }

  // ---- strings ----

  /** The value of a hexadecimal digit, 16 for anything else. */
  function HexValue(c: char): (d: nat)
    ensures d <= 16
  {
    if '0' <= c <= '9' then c as int - 48
    else if 'A' <= c <= 'F' then c as int - 55
    else if 'a' <= c <= 'f' then c as int - 87
    else 16
  }

  /** Exactly four hexadecimal digits, in either case. */
  predicate IsHex(t: string)
  {
    |t| == 4 && forall k :: 0 <= k < 4 ==> HexValue(t[k]) < 16
  }

  /** Four hexadecimal digits; 0 when one of them is not. */
  function Hex4(s: string, i: nat): (h: nat)
    requires i + 4 <= |s|
    ensures h < 0x1_0000
  {
    var a, b, c, d := HexValue(s[i]), HexValue(s[i + 1]), HexValue(s[i + 2]), HexValue(s[i + 3]);
    if a == 16 || b == 16 || c == 16 || d == 16 then 0 else ((a * 16 + b) * 16 + c) * 16 + d
  }

  /** Continuation byte k (from the end) of a UTF-8 sequence, and the sequence. */
  function Utf8(cp: nat): (r: string)
    requires cp < 0x11_0000
    ensures 1 <= |r| <= 4
  {
    if cp < 0x80 then [cp as char]
    else if cp < 0x800 then [(0xC0 + cp / 64) as char, (0x80 + cp % 64) as char]
    else if cp < 0x1_0000 then [(0xE0 + cp / 4096) as char, (0x80 + cp / 64 % 64) as char, (0x80 + cp % 64) as char]
    else [(0xF0 + cp / 262144) as char, (0x80 + cp / 4096 % 64) as char, (0x80 + cp / 64 % 64) as char, (0x80 + cp % 64) as char]
  }

  /** One or two \uXXXX sequences at i: their UTF-8 form and the number of characters read. */
  function Utf16Literal(s: string, i: nat, end: nat): (r: Parsed<string>)
    requires i <= end <= |s|
    ensures r.Done? ==> i + 6 <= r.next <= end && r.next <= i + 12
    ensures r.Done? ==> 1 <= |r.value| && 2 * |r.value| <= r.next - i
  {
    if end - i < 6 then Failed
    else
      var first := Hex4(s, i + 2);
      if 0xDC00 <= first <= 0xDFFF then Failed
      else if 0xD800 <= first <= 0xDBFF then
        if end - (i + 6) < 6 || s[i + 6] != '\\' || s[i + 7] != 'u' then Failed
        else
          var second := Hex4(s, i + 8);
          if second < 0xDC00 || second > 0xDFFF then Failed
          else Done(Utf8(0x1_0000 + (first - 0xD800) * 1024 + (second - 0xDC00)), i + 12)
      else Done(Utf8(first), i + 6)
  }

  /** Offset of the closing quote at or after i; none when the text ends first. */
  function FindQuote(s: string, i: nat): (r: Parsed<()>)
    requires i <= |s|
    ensures r.Done? ==> i <= r.next < |s| && s[r.next] == '\"'
    decreases |s| - i
  {
    if i == |s| then Failed
    else if s[i] == '\"' then Done((), i)
    else if s[i] == '\\' then
      if i + 1 >= |s| then Failed else FindQuote(s, i + 2)
    else FindQuote(s, i + 1)
  }

  function Prepend(t: string, r: Parsed<string>): Parsed<string>
  {
    if r.Done? then Done(t + r.value, r.next) else Failed
  }

  /** What a two-character escape stands for; NUL for an unknown one. */
  function Unescape(c: char): char
  {
    if c == 'b' then BACKSPACE
    else if c == 'f' then FORMFEED
    else if c == 'n' then '\n'
    else if c == 'r' then '\r'
    else if c == 't' then '\t'
    else if c == '\"' || c == '\\' || c == '/' then c
    else NUL
  }

  /** The bytes written for s[i..end]; s[end] is the closing quote. */
  function Decode(s: string, i: nat, end: nat): Parsed<string>
    requires end < |s|
    decreases end + 2 - i
  {
    if i >= end then Done("", i)
    else if s[i] != '\\' then Prepend([s[i]], Decode(s, i + 1, end))
    else if s[i + 1] == 'u' then
      var u := Utf16Literal(s, i, end);
      if u.Failed? then Failed else Prepend(u.value, Decode(s, u.next, end))
    else if Unescape(s[i + 1]) == NUL then Failed
    else Prepend([Unescape(s[i + 1])], Decode(s, i + 2, end))
  }

  /** A C string ends at its first NUL. */
  function CString(s: string): (r: string)
    ensures IsCString(r)
  {
    if s == "" || s[0] == NUL then "" else [s[0]] + CString(s[1..])
  }

  function ParseString(s: string, i: nat): (r: Parsed<string>)
    requires i < |s|
    ensures r.Done? ==> i < r.next <= |s| && IsCString(r.value)
  {
    if s[i] != '\"' then Failed
    else
      var q := FindQuote(s, i + 1);
      if q.Failed? then Failed
      else
        var d := Decode(s, i + 1, q.next);
        if d.Failed? then Failed else Done(CString(d.value), q.next + 1)
  }

  // ---- values ----

  predicate At(s: string, i: nat, t: string)
  {
    i + |t| <= |s| && s[i..i + |t|] == t
  }

  function ParseValue(s: string, i: nat, d: nat): (r: Parsed<Json>)
    requires i <= |s| && d <= NESTING_LIMIT
    ensures r.Done? ==> i < r.next <= |s|
    decreases NESTING_LIMIT - d, 0, 0
  {
    if At(s, i, "null") then Done(Null, i + 4)
    else if At(s, i, "false") then Done(Bool(false), i + 5)
    else if At(s, i, "true") then Done(Bool(true), i + 4)
    else if i == |s| then Failed
    else if s[i] == '\"' then
      var r := ParseString(s, i);
      if r.Done? then Done(String(r.value), r.next) else Failed
    else if s[i] == '-' || IsDigit(s[i]) then ParseNumber(s, i)
    else if s[i] == '[' then
      if d >= NESTING_LIMIT then Failed
      else
        var j := Skip(s, i + 1);
        if j == |s| then Failed
        else if s[j] == ']' then Done(Array([]), j + 1)
        else
          var r := ParseItems(s, j, d + 1);
          if r.Done? then Done(Array(r.value), r.next) else Failed
    else if s[i] == '{' then
      if d >= NESTING_LIMIT then Failed
      else
        var j := Skip(s, i + 1);
        if j == |s| then Failed
        else if s[j] == '}' then Done(Object([]), j + 1)
        else
          var r := ParseMembers(s, j, d + 1);
          if r.Done? then Done(Object(r.value), r.next) else Failed
    else Failed
  }

  /** The elements from offset i (behind '[' or ',') up to and including ']'. */
  function ParseItems(s: string, i: nat, d: nat): (r: Parsed<seq<Json>>)
    requires i <= |s| && d <= NESTING_LIMIT
    ensures r.Done? ==> i < r.next <= |s| && r.value != []
    decreases NESTING_LIMIT - d, 1, |s| - i
  {
    var v := ParseValue(s, Skip(s, i), d);
    if v.Failed? then Failed
    else
      var k := Skip(s, v.next);
      if k == |s| then Failed
      else if s[k] == ',' then
        var r := ParseItems(s, k + 1, d);
        if r.Done? then Done([v.value] + r.value, r.next) else Failed
      else if s[k] == ']' then Done([v.value], k + 1)
      else Failed
  }

  /** One name, colon and value from offset i on; the result's offset is behind the following white space. */
  function ParseMember(s: string, i: nat, d: nat): (r: Parsed<Member>)
    requires i <= |s| && d <= NESTING_LIMIT
    ensures r.Done? ==> i < r.next <= |s|
    decreases NESTING_LIMIT - d, 1, |s| - i
  {
    if i == |s| then Failed
    else
      var name := ParseString(s, Skip(s, i));
      if name.Failed? then Failed
      else
        var c := Skip(s, name.next);
        if c == |s| || s[c] != ':' then Failed
        else
          var v := ParseValue(s, Skip(s, c + 1), d);
          if v.Failed? then Failed else Done(Member(name.value, v.value), Skip(s, v.next))
  }

  function ParseMembers(s: string, i: nat, d: nat): (r: Parsed<seq<Member>>)
    requires i <= |s| && d <= NESTING_LIMIT
    ensures r.Done? ==> i < r.next <= |s| && r.value != []
    decreases NESTING_LIMIT - d, 2, |s| - i
  {
    var m := ParseMember(s, i, d);
    if m.Failed? || m.next == |s| then Failed
    else if s[m.next] == ',' then
      var r := ParseMembers(s, m.next + 1, d);
      if r.Done? then Done([m.value] + r.value, r.next) else Failed
    else if s[m.next] == '}' then Done([m.value], m.next + 1)
    else Failed
  }

  /** Where parsing starts: behind a byte order mark, if there is one. */
  function AfterBom(s: string): (i: nat)
    ensures i <= |s|
  {
    if 4 < |s| && s[0] == 0xEF as char && s[1] == 0xBB as char && s[2] == 0xBF as char then 3 else 0
  }

  /** cJSON_ParseWithLengthOpts on a buffer of the given bytes; next is the reported parse end. */
  function ParseText(s: string, requireNul: bool): Parsed<Json>
  {
    if s == "" then Failed
    else
      var r := ParseValue(s, Skip(s, AfterBom(s)), 0);
      if r.Failed? then Failed
      else if !requireNul then r
      else
        var e := Skip(s, r.next);
        if e == |s| || s[e] != NUL then Failed else Done(r.value, e)
  }
}
