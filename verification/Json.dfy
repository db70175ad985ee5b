/**
 JSON values as cJSON trees hold them, and their printed text. A string is a C string: each
 char stands for one byte and NUL does not occur. Numbers are integers in int range.
 */
module Json {

  datatype Json =
    | Null
    | Bool(b: bool)
    | Int(n: int)
    | String(s: string)
    | Array(items: seq<Json>)
    | Object(members: seq<Member>)

  datatype Member = Member(key: string, value: Json)

  const INT_MAX := 2147483647
  const INT_MIN := -2147483648
  const NUL: char := 0 as char
  const BACKSPACE: char := 8 as char
  const FORMFEED: char := 12 as char

  predicate IsCString(s: string)
  {
    forall i :: 0 <= i < |s| ==> s[i] != NUL
  }

  /** What a tree of C data can hold. */
  predicate WellFormed(v: Json)
    decreases v
  {
    match v
    case Int(n) => INT_MIN <= n <= INT_MAX
    case String(s) => IsCString(s)
    case Array(items) => forall i :: 0 <= i < |items| ==> WellFormed(items[i])
    case Object(ms) => forall i :: 0 <= i < |ms| ==> IsCString(ms[i].key) && WellFormed(ms[i].value)
    case _ => true
  }

  function Max(a: nat, b: nat): nat { if a < b then b else a }

  /** How deeply arrays and objects are nested. */
  function Nesting(v: Json): nat
    decreases v
  {
    match v
    case Array(items) => 1 + ItemsNesting(items)
    case Object(ms) => 1 + MembersNesting(ms)
    case _ => 0
  }

  function ItemsNesting(items: seq<Json>): nat
    decreases items
  {
    if items == [] then 0 else Max(Nesting(items[0]), ItemsNesting(items[1..]))
  }

  function MembersNesting(ms: seq<Member>): nat
    decreases ms
  {
    if ms == [] then 0 else Max(Nesting(ms[0].value), MembersNesting(ms[1..]))
  }

  // ---- text ----

  function Digit(d: nat): (c: char)
    requires d < 10
    ensures '0' <= c <= '9' && c as int == 48 + d
  {
    (48 + d) as char
  }

  /** The decimal digits of n, as %d and %lu print them. */
  function Digits(n: nat): string
  {
    if n < 10 then [Digit(n)] else Digits(n / 10) + [Digit(n % 10)]
  }

  function Decimal(n: int): string
  {
    if n < 0 then "-" + Digits(-n) else Digits(n)
  }

  function HexDigit(d: nat): char
    requires d < 16
  {
    if d < 10 then (48 + d) as char else (87 + d) as char
  }

  /** The escape sequence of one character, or the character itself. */
  function Escape(c: char): string
  {
    if c == '\"' then "\\\""
    else if c == '\\' then "\\\\"
    else if c == BACKSPACE then "\\b"
    else if c == FORMFEED then "\\f"
    else if c == '\n' then "\\n"
    else if c == '\r' then "\\r"
    else if c == '\t' then "\\t"
    else if c < ' ' then "\\u00" + [HexDigit(c as int / 16), HexDigit(c as int % 16)]
    else [c]
  }

  function Escaped(s: string): string
  {
    if s == "" then "" else Escape(s[0]) + Escaped(s[1..])
  }

  function Quoted(s: string): string
  {
    "\"" + Escaped(s) + "\""
  }

  function Tabs(n: nat): (t: string)
    ensures |t| == n && forall i :: 0 <= i < n ==> t[i] == '\t'
  {
    seq(n, i => '\t')
  }

  function ItemSep(format: bool): string { if format then ", " else "," }
  function KeySep(format: bool): string { if format then ":\t" else ":" }
  function Newline(format: bool): string { if format then "\n" else "" }
  function Indent(format: bool, depth: nat): string { if format then Tabs(depth) else "" }

  /** The text of v when it stands inside `depth` objects and arrays. */
  function Text(v: Json, format: bool, depth: nat): string
    decreases v
  {
    match v
    case Null => "null"
    case Bool(b) => if b then "true" else "false"
    case Int(n) => Decimal(n)
    case String(s) => Quoted(s)
    case Array(items) => "[" + ItemsText(items, format, depth + 1) + "]"
    case Object(ms) => "{" + Newline(format) + MembersText(ms, format, depth + 1) + Indent(format, depth) + "}"
  }

  function ItemsText(items: seq<Json>, format: bool, depth: nat): string
    decreases items
  {
    if items == [] then ""
    else
      Text(items[0], format, depth)
      + (if |items| > 1 then ItemSep(format) else "")
      + ItemsText(items[1..], format, depth)
  }

  function MemberText(m: Member, last: bool, format: bool, depth: nat): string
    decreases m
  {
    Indent(format, depth) + Quoted(m.key) + KeySep(format) + Text(m.value, format, depth)
    + (if last then "" else ",") + Newline(format)
  }

  function MembersText(ms: seq<Member>, format: bool, depth: nat): string
    decreases ms
  {
    if ms == [] then "" else MemberText(ms[0], |ms| == 1, format, depth) + MembersText(ms[1..], format, depth)
  }
}
