/**
 The printer's code: methods that write into a buffer at an offset, growing it or not, proved
 to leave exactly the text of the value. Memory is always granted; reallocation keeps the bytes
 in front of the offset and says nothing about the others.
 */
module JsonPrint {
  import opened Json

  // ---- facts about the text ----

  /** Additional characters needed for escaping, as the counting pass of print_string_ptr adds them up. */
  function Extra(c: char): nat
  {
    if c == '\"' || c == '\\' || c == BACKSPACE || c == FORMFEED || c == '\n' || c == '\r' || c == '\t' then 1
    else if c < ' ' then 5
    else 0
  }

  function ExtraSum(s: string): nat
  {
    if s == "" then 0 else Extra(s[0]) + ExtraSum(s[1..])
  }

  /** The counting pass predicts the length of the copying pass; without extras it copies verbatim. */
  lemma {:induction false} EscapedLength(s: string)
    ensures |Escaped(s)| == |s| + ExtraSum(s)
    ensures ExtraSum(s) == 0 ==> Escaped(s) == s
  {
    if s != "" {
      EscapedLength(s[1..]);
      assert s == [s[0]] + s[1..];
    }
  }

  lemma EscapedStep(s: string, i: nat, done: string)
    requires i < |s| && done + Escaped(s[i..]) == Escaped(s)
    ensures done + Escape(s[i]) + Escaped(s[i + 1..]) == Escaped(s)
    ensures |done| + |Escape(s[i])| <= |Escaped(s)|
  {
    assert s[i..][0] == s[i] && s[i..][1..] == s[i + 1..];
    assert Escaped(s[i..]) == Escape(s[i]) + Escaped(s[i + 1..]);
    hide Escaped, Escape;
    Assoc(done, Escape(s[i]), Escaped(s[i + 1..]));
  }

  lemma EscapedEnd(s: string, i: nat)
    requires i == |s|
    ensures Escaped(s[i..]) == ""
  {
  }

  lemma Assoc(a: string, b: string, c: string)
    ensures a + b + c == a + (b + c)
  {
  }

  lemma {:induction false} EscapedIsCString(s: string)
    requires IsCString(s)
    ensures IsCString(Escaped(s))
  {
    if s != "" {
      EscapedIsCString(s[1..]);
      assert IsCString(Escape(s[0]));
    }
  }

  lemma {:induction false} DigitsIsCString(n: nat)
    ensures IsCString(Digits(n)) && Digits(n) != ""
  {
    if n >= 10 { DigitsIsCString(n / 10); }
  }

  /** No NUL in a text: strlen finds its end. */
  lemma {:induction false} TextIsCString(v: Json, format: bool, depth: nat)
    requires WellFormed(v)
    ensures IsCString(Text(v, format, depth)) && Text(v, format, depth) != ""
    decreases v
  {
    match v
    case Int(n) => DigitsIsCString(if n < 0 then 0 - n else n);
    case String(s) => EscapedIsCString(s);
    case Array(items) => ItemsAreCStrings(items, format, depth + 1);
    case Object(ms) => MembersAreCStrings(ms, format, depth + 1);
    case _ =>
  }

  lemma {:induction false} ItemsAreCStrings(items: seq<Json>, format: bool, depth: nat)
    requires forall k :: 0 <= k < |items| ==> WellFormed(items[k])
    ensures IsCString(ItemsText(items, format, depth))
    decreases items
  {
    if items != [] {
      hide Text, WellFormed;
      TextIsCString(items[0], format, depth);
      ItemsAreCStrings(items[1..], format, depth);
    }
  }

  lemma {:induction false} MembersAreCStrings(ms: seq<Member>, format: bool, depth: nat)
    requires forall k :: 0 <= k < |ms| ==> IsCString(ms[k].key) && WellFormed(ms[k].value)
    ensures IsCString(MembersText(ms, format, depth))
    decreases ms
  {
    if ms != [] {
      hide MemberText, WellFormed;
      MemberIsCString(ms[0], |ms| == 1, format, depth);
      MembersAreCStrings(ms[1..], format, depth);
    }
  }

  function Separator(items: seq<Json>, k: nat, format: bool): string
  {
    if k + 1 < |items| then ItemSep(format) else ""
  }

  lemma ItemsProgress(items: seq<Json>, k: nat, format: bool, depth: nat, done: string, whole: string)
    requires k < |items| && done + ItemsText(items[k..], format, depth) == whole
    ensures done + Text(items[k], format, depth) + Separator(items, k, format) + ItemsText(items[k + 1..], format, depth) == whole
    ensures |done| + |Text(items[k], format, depth)| + |Separator(items, k, format)| <= |whole|
  {
    hide Text;
    var tail := items[k..];
    assert tail[0] == items[k] && tail[1..] == items[k + 1..];
    var a, b, c := Text(items[k], format, depth), Separator(items, k, format), ItemsText(items[k + 1..], format, depth);
    assert ItemsText(tail, format, depth) == a + b + c;
    hide ItemsText, Separator;
    assert done + (a + b + c) == done + a + b + c;
  }

  lemma ItemsEnd(items: seq<Json>, k: nat, format: bool, depth: nat)
    requires k == |items|
    ensures ItemsText(items[k..], format, depth) == ""
  {
  }

  lemma MembersProgress(ms: seq<Member>, k: nat, format: bool, depth: nat, done: string, whole: string)
    requires k < |ms| && done + MembersText(ms[k..], format, depth) == whole
    ensures done + MemberText(ms[k], k + 1 == |ms|, format, depth) + MembersText(ms[k + 1..], format, depth) == whole
    ensures |done| + |MemberText(ms[k], k + 1 == |ms|, format, depth)| <= |whole|
  {
    hide MemberText;
    var tail := ms[k..];
    assert tail[0] == ms[k] && tail[1..] == ms[k + 1..];
    var a, c := MemberText(ms[k], k + 1 == |ms|, format, depth), MembersText(ms[k + 1..], format, depth);
    assert MembersText(tail, format, depth) == a + c;
    hide MembersText;
    assert done + (a + c) == done + a + c;
  }

  lemma MembersEnd(ms: seq<Member>, k: nat, format: bool, depth: nat)
    requires k == |ms|
    ensures MembersText(ms[k..], format, depth) == ""
  {
  }

  lemma CStringConcat(a: string, b: string)
    requires IsCString(a) && IsCString(b)
    ensures IsCString(a + b)
  {
  }

  lemma {:induction false} MemberIsCString(m: Member, last: bool, format: bool, depth: nat)
    requires IsCString(m.key) && WellFormed(m.value)
    ensures IsCString(MemberText(m, last, format, depth))
    decreases m
  {
    hide Text, WellFormed;
    EscapedIsCString(m.key);
    TextIsCString(m.value, format, depth);
    var a, b, c := Indent(format, depth), Quoted(m.key), KeySep(format);
    var d, e, f := Text(m.value, format, depth), if last then "" else ",", Newline(format);
    assert IsCString(a) && IsCString(b) && IsCString(c) && IsCString(e) && IsCString(f);
    hide IsCString, Indent, Quoted, KeySep, Newline;
    CStringConcat(a, b);
    CStringConcat(a + b, c);
    CStringConcat(a + b + c, d);
    CStringConcat(a + b + c + d, e);
    CStringConcat(a + b + c + d + e, f);
  }

  // ---- the buffer ----

  const DEFAULT_BUFFER_SIZE := 256

  class PrintBuffer {
    var buffer: array<char>
    var offset: nat
    var depth: nat
    const noalloc: bool
    const format: bool

    /** The size the buffer can reach. */
    ghost function Limit(): nat
      reads this`offset, this`buffer
    {
      if noalloc then buffer.Length else INT_MAX
    }

    ghost predicate Valid()
      reads this`offset, this`buffer
    {
      buffer.Length <= INT_MAX && (offset < buffer.Length || (offset == 0 && buffer.Length == 0))
    }

    /** The text so far, up to the offset. */
    ghost predicate At(pre: string)
      reads this`offset, this`buffer, buffer
    {
      Valid() && offset == |pre| && |pre| <= buffer.Length && buffer[..|pre|] == pre
    }

    /** A finished piece t behind pre, terminated, with the offset somewhere on the way through it. */
    ghost predicate Holds(pre: string, t: string)
      reads this`offset, this`buffer, buffer
    {
      && Valid() && |pre| <= offset <= |pre| + |t|
      && |pre| + |t| < buffer.Length && buffer[|pre| + |t|] == NUL
      && buffer[..|pre| + |t|] == pre + t
    }

    /** What every print method keeps, whether it succeeds or not. */
    twostate predicate Kept()
      reads this
    {
      (buffer == old(buffer) || (!noalloc && fresh(buffer))) && Limit() == old(Limit())
    }

    constructor (buffer: array<char>, noalloc: bool, format: bool)
      requires buffer.Length <= INT_MAX
      ensures this.buffer == buffer && this.noalloc == noalloc && this.format == format
      ensures At("") && depth == 0
    {
      this.buffer, this.noalloc, this.format := buffer, noalloc, format;
      offset, depth := 0, 0;
    }

    /** ensure: room for `needed` more characters and one byte, if the limit allows it. */
    method Ensure(needed: nat, ghost pre: string) returns (ok: bool)
      requires At(pre)
      modifies this`buffer
      ensures Kept() && At(pre)
      ensures ok == (|pre| + needed + 1 <= Limit())
      ensures ok ==> |pre| + needed + 1 <= buffer.Length
    {
      if buffer.Length > 0 && offset >= buffer.Length {
        return false;
      }
      if needed > INT_MAX {
        return false;
      }
      var total := needed + offset + 1;
      if total <= buffer.Length {
        return true;
      }
      if noalloc {
        return false;
      }
      var newsize: nat := 0;
      if total > INT_MAX / 2 {
        if total <= INT_MAX {
          newsize := INT_MAX;
        } else {
          return false;
        }
      } else {
        newsize := total * 2;
      }
      var newbuffer := new char[newsize];
      var i: nat := 0;
      while i < offset
        invariant buffer == old(buffer) && i <= offset <= buffer.Length && offset < newbuffer.Length
        invariant newbuffer[..i] == buffer[..i]
      {
        newbuffer[i] := buffer[i];
        i := i + 1;
      }
      buffer := newbuffer;
      return true;
    }

    /** Copy t to position `at`, as strcpy, memcpy and the character assignments do. */
    method Store(at: nat, t: string)
      requires at + |t| <= buffer.Length
      modifies buffer
      ensures buffer[..at + |t|] == old(buffer[..at]) + t
    {
      var i: nat := 0;
      while i < |t|
        invariant i <= |t|
        invariant buffer[..at] == old(buffer[..at])
        invariant buffer[at..at + i] == t[..i]
      {
        buffer[at + i] := t[i];
        i := i + 1;
      }
      assert t[..|t|] == t;
      assert buffer[..at + |t|] == buffer[..at] + buffer[at..at + |t|];
    }

    lemma TerminatedAt(pre: string, t: string)
      requires Valid() && |pre| <= offset <= |pre| + |t| && |pre| + |t| < buffer.Length
      requires buffer[..|pre| + |t| + 1] == pre + t + [NUL]
      ensures Holds(pre, t)
    {
      assert (pre + t + [NUL])[..|pre| + |t|] == pre + t;
      assert buffer[..|pre| + |t|] == buffer[..|pre| + |t| + 1][..|pre| + |t|];
    }

    /** Text and its terminator behind the offset, which stays. */
    method StoreTerminated(t: string, ghost pre: string)
      requires At(pre) && |pre| + |t| < buffer.Length
      modifies buffer
      ensures Holds(pre, t)
    {
      Store(offset, t + [NUL]);
      Assoc(pre, t, [NUL]);
      TerminatedAt(pre, t);
    }

    /** Append a piece of text and move the offset behind it, without a terminator. */
    method Emit(t: string, ghost pre: string)
      requires At(pre) && |pre| + |t| < buffer.Length
      modifies this`offset, buffer
      ensures At(pre + t) && Limit() == old(Limit())
    {
      Store(offset, t);
      offset := offset + |t|;
    }

    /** Append a terminated piece and move the offset onto the terminator. */
    method EmitTerminated(t: string, ghost pre: string)
      requires At(pre) && |pre| + |t| < buffer.Length
      modifies this`offset, buffer
      ensures At(pre + t)
    {
      StoreTerminated(t, pre);
      offset := offset + |t|;
    }

    /** update_offset: advance by strlen. */
    method UpdateOffset(ghost pre: string, ghost t: string)
      requires Holds(pre, t) && IsCString(t)
      modifies this`offset
      ensures At(pre + t)
    {
      forall k | |pre| <= k < |pre| + |t| ensures buffer[k] != NUL {
        assert buffer[k] == buffer[..|pre| + |t|][k] == t[k - |pre|];
      }
      while buffer[offset] != NUL
        invariant |pre| <= offset <= |pre| + |t|
        decreases buffer.Length - offset
      {
        offset := offset + 1;
      }
    }

    /** print_number, for an int */
    method PrintNumber(n: int, ghost pre: string) returns (ok: bool)
      requires At(pre) && INT_MIN <= n <= INT_MAX
      modifies this, buffer
      ensures Kept() && depth == old(depth)
      ensures ok == (|pre| + |Decimal(n)| + 2 <= Limit())
      ensures ok ==> Holds(pre, Decimal(n))
    {
      hide Decimal;
      var digits := Decimal(n);
      ok := Ensure(|digits| + 1, pre);
      if !ok {
        return;
      }
      StoreTerminated(digits, pre);
      offset := offset + |digits|;
    }

    /** print_string_ptr: a counting pass, one reservation, a copying pass. */
    method PrintStringPtr(s: string, ghost pre: string) returns (ok: bool)
      requires At(pre) && IsCString(s)
      modifies this, buffer
      ensures Kept() && depth == old(depth)
      ensures ok == (|pre| + |Quoted(s)| + 2 <= Limit())
      ensures ok ==> Holds(pre, Quoted(s))
    {
      var escapeCharacters := CountEscapes(s);
      hide Escaped, Escape, ExtraSum, At, Holds;
      EscapedLength(s);
      var outputLength := |s| + escapeCharacters;
      ok := Ensure(outputLength + 3, pre);
      if ok {
        WriteQuoted(s, escapeCharacters, pre);
      }
    }

    method WriteQuoted(s: string, escapeCharacters: nat, ghost pre: string)
      requires At(pre) && IsCString(s) && |Escaped(s)| == |s| + escapeCharacters
      requires escapeCharacters == 0 ==> Escaped(s) == s
      requires |pre| + |Quoted(s)| + 1 <= buffer.Length
      modifies buffer
      ensures Holds(pre, Quoted(s))
    {
      hide Escaped, Escape;
      if escapeCharacters == 0 {
        StoreTerminated("\"" + s + "\"", pre);
        return;
      }
      var outputLength := |s| + escapeCharacters;
      Store(offset, "\"");
      CopyEscaped(s, offset + 1);
      Store(offset + 1 + outputLength, ['\"', NUL]);
      QuotedParts(pre, s);
      TerminatedAt(pre, Quoted(s));
    }

    static lemma QuotedParts(pre: string, s: string)
      ensures pre + "\"" + Escaped(s) + ['\"', NUL] == pre + Quoted(s) + [NUL]
    {
      hide Escaped;
    }

    method CountEscapes(s: string) returns (n: nat)
      ensures n == ExtraSum(s)
    {
      n := 0;
      var i: nat := 0;
      assert s[0..] == s;
      while i < |s|
        invariant i <= |s| && n + ExtraSum(s[i..]) == ExtraSum(s)
      {
        assert s[i..][0] == s[i] && s[i..][1..] == s[i + 1..];
        var c := s[i];
        if c == '\"' || c == '\\' || c == BACKSPACE || c == FORMFEED || c == '\n' || c == '\r' || c == '\t' {
          n := n + 1;
        } else if c < ' ' {
          n := n + 5;
        }
        i := i + 1;
      }
    }

    /** The copying pass: never writes beyond the closing quote's place. */
    method CopyEscaped(s: string, at: nat)
      requires IsCString(s) && at + |Escaped(s)| + 2 <= buffer.Length
      modifies buffer
      ensures buffer[..at + |Escaped(s)|] == old(buffer[..at]) + Escaped(s)
    {
      hide Escaped, Escape;
      ghost var pre := buffer[..at];
      ghost var done := "";
      var out := at;
      var i: nat := 0;
      assert s[0..] == s && pre + done == pre && done + Escaped(s) == Escaped(s);
      while i < |s|
        invariant i <= |s| && done + Escaped(s[i..]) == Escaped(s)
        invariant out == at + |done| && buffer[..out] == pre + done
      {
        EscapedStep(s, i, done);
        out := CopyOne(s[i], out);
        Assoc(pre, done, Escape(s[i]));
        done := done + Escape(s[i]);
        i := i + 1;
      }
      EscapedEnd(s, i);
      assert done + "" == done;
    }

    /** One character; the hexadecimal form also leaves a terminator behind it. */
    method CopyOne(c: char, at: nat) returns (out: nat)
      requires at + |Escape(c)| + 1 <= buffer.Length
      modifies buffer
      ensures out == at + |Escape(c)| && buffer[..out] == old(buffer[..at]) + Escape(c)
    {
      if c > 31 as char && c != '\"' && c != '\\' {
        Store(at, [c]);
        return at + 1;
      }
      if c == '\\' {
        Store(at, "\\\\");
      } else if c == '\"' {
        Store(at, "\\\"");
      } else if c == BACKSPACE {
        Store(at, "\\b");
      } else if c == FORMFEED {
        Store(at, "\\f");
      } else if c == '\n' {
        Store(at, "\\n");
      } else if c == '\r' {
        Store(at, "\\r");
      } else if c == '\t' {
        Store(at, "\\t");
      } else {
        var t := "\\u00" + [HexDigit(c as int / 16), HexDigit(c as int % 16)];
        ghost var pre := buffer[..at];
        Store(at, t + [NUL]);
        assert pre + (t + [NUL]) == (pre + t) + [NUL];
        assert buffer[..at + 6] == buffer[..at + 7][..at + 6];
        return at + 6;
      }
      return at + 2;
    }

    /** print_value: succeeds exactly when the text, its terminator and one spare byte fit. */
    method PrintValue(v: Json, ghost pre: string) returns (ok: bool)
      requires At(pre) && WellFormed(v)
      modifies this, buffer
      ensures Kept()
      ensures ok == (|pre| + |Text(v, format, old(depth))| + 2 <= Limit())
      ensures ok ==> Holds(pre, Text(v, format, old(depth))) && depth == old(depth)
      decreases v, 1
    {
      hide Quoted, Decimal, ItemsText, MembersText, At, Holds;
      match v
      case Null =>
        ok := Ensure(5, pre);
        if ok { StoreTerminated("null", pre); }
      case Bool(b) =>
        ok := Ensure(if b then 5 else 6, pre);
        if ok { StoreTerminated(if b then "true" else "false", pre); }
      case Int(n) =>
        ok := PrintNumber(n, pre);
      case String(s) =>
        ok := PrintStringPtr(s, pre);
      case Array(items) =>
        ok := PrintArray(items, pre);
      case Object(members) =>
        ok := PrintObject(members, pre);
    }

    /** print_array */
    method PrintArray(items: seq<Json>, ghost pre: string) returns (ok: bool)
      requires At(pre) && forall k :: 0 <= k < |items| ==> WellFormed(items[k])
      modifies this, buffer
      ensures Kept()
      ensures ok == (|pre| + |Text(Array(items), format, old(depth))| + 2 <= Limit())
      ensures ok ==> Holds(pre, Text(Array(items), format, old(depth))) && depth == old(depth)
      decreases items, 1
    {
      hide ItemsText, WellFormed, At, Holds;
      ghost var body := ItemsText(items, format, depth + 1);
      assert Text(Array(items), format, depth) == "[" + body + "]";
      hide Text;
      ok := Ensure(1, pre);
      if !ok {
        return;
      }
      Emit("[", pre);
      depth := depth + 1;
      ok := PrintElements(items, pre + "[");
      if !ok {
        return;
      }
      Assoc(pre, "[", body);
      ok := PrintArrayEnd(pre + ("[" + body));
      if ok {
        HoldsLonger(pre, "[" + body, "]");
      }
    }

    method PrintArrayEnd(ghost pre: string) returns (ok: bool)
      requires At(pre) && depth > 0
      modifies this, buffer
      ensures Kept()
      ensures ok == (|pre| + 3 <= Limit())
      ensures ok ==> Holds(pre, "]") && depth == old(depth) - 1
    {
      hide At, Holds;
      ok := Ensure(2, pre);
      if !ok {
        return;
      }
      StoreTerminated("]", pre);
      depth := depth - 1;
    }

    /** The offset may stand anywhere from pre on. */
    lemma HoldsLonger(pre: string, a: string, b: string)
      requires Holds(pre + a, b)
      ensures Holds(pre, a + b)
    {
      Assoc(pre, a, b);
    }

    /** The loop of print_array. */
    method PrintElements(items: seq<Json>, ghost pre: string) returns (ok: bool)
      requires At(pre) && forall k :: 0 <= k < |items| ==> WellFormed(items[k])
      modifies this, buffer
      ensures Kept()
      ensures !ok ==> |pre| + |ItemsText(items, format, old(depth))| + 2 > Limit()
      ensures ok ==> depth == old(depth) && At(pre + ItemsText(items, format, depth))
      decreases items, 0
    {
      hide ItemsText, Text, WellFormed, At, Holds;
      ghost var whole := ItemsText(items, format, depth);
      ghost var done := "";
      assert items[0..] == items && pre + "" == pre && "" + whole == whole;
      var k: nat := 0;
      while k < |items|
        invariant k <= |items| && Kept() && depth == old(depth) && At(pre + done)
        invariant done + ItemsText(items[k..], format, depth) == whole
      {
        ghost var a, sep := Text(items[k], format, depth), Separator(items, k, format);
        ItemsProgress(items, k, format, depth, done, whole);
        ok := PrintItem(items[k], k + 1 < |items|, pre + done);
        if !ok {
          return;
        }
        assert pre + done + a + sep == pre + (done + a + sep);
        done := done + a + sep;
        k := k + 1;
      }
      ItemsEnd(items, k, format, depth);
      assert done + "" == done;
      ok := true;
    }

    /** One element and, unless it is the last, the separator behind it. */
    method PrintItem(v: Json, more: bool, ghost pre: string) returns (ok: bool)
      requires At(pre) && WellFormed(v)
      modifies this, buffer
      ensures Kept()
      ensures var t := Text(v, format, old(depth)) + if more then ItemSep(format) else "";
        && (!ok ==> |pre| + |t| + 2 > Limit())
        && (ok ==> depth == old(depth) && At(pre + Text(v, format, depth) + if more then ItemSep(format) else ""))
      decreases v, 2
    {
      hide Text, WellFormed, At, Holds;
      ghost var a := Text(v, format, depth);
      TextIsCString(v, format, depth);
      ok := PrintValue(v, pre);
      if !ok {
        return;
      }
      UpdateOffset(pre, a);
      if more {
        var length := if format then 2 else 1;
        ok := Ensure(length + 1, pre + a);
        if !ok {
          return;
        }
        EmitTerminated(ItemSep(format), pre + a);
      } else {
        assert pre + a + "" == pre + a;
      }
    }

    /** print_object */
    method PrintObject(members: seq<Member>, ghost pre: string) returns (ok: bool)
      requires At(pre) && forall k :: 0 <= k < |members| ==> IsCString(members[k].key) && WellFormed(members[k].value)
      modifies this, buffer
      ensures Kept()
      ensures ok == (|pre| + |Text(Object(members), format, old(depth))| + 2 <= Limit())
      ensures ok ==> Holds(pre, Text(Object(members), format, old(depth))) && depth == old(depth)
      decreases members, 1
    {
      hide MembersText, WellFormed, IsCString, At, Holds, Indent;
      var length := if format then 2 else 1;
      ghost var open := "{" + Newline(format);
      ghost var body := MembersText(members, format, depth + 1);
      ghost var close := Indent(format, depth) + "}";
      ObjectText(members, format, depth);
      hide Text;
      ok := Ensure(length + 1, pre);
      if !ok {
        return;
      }
      Emit(if format then "{\n" else "{", pre);
      depth := depth + 1;
      ok := PrintMembers(members, pre + open);
      if !ok {
        return;
      }
      Assoc(pre, open, body);
      ok := PrintObjectEnd(pre + (open + body));
      if ok {
        HoldsLonger(pre, open + body, close);
      }
    }

    method PrintObjectEnd(ghost pre: string) returns (ok: bool)
      requires At(pre) && depth > 0
      modifies this, buffer
      ensures Kept()
      ensures ok == (|pre| + |Indent(format, old(depth) - 1) + "}"| + 2 <= Limit())
      ensures ok ==> Holds(pre, Indent(format, old(depth) - 1) + "}") && depth == old(depth) - 1
    {
      hide At, Holds;
      ok := Ensure(if format then depth + 1 else 2, pre);
      if !ok {
        return;
      }
      StoreTerminated(if format then Tabs(depth - 1) + "}" else "}", pre);
      assert Indent(format, depth - 1) + "}" == if format then Tabs(depth - 1) + "}" else "}";
      depth := depth - 1;
    }

    static lemma ObjectText(members: seq<Member>, format: bool, depth: nat)
      ensures Text(Object(members), format, depth) ==
              ("{" + Newline(format)) + MembersText(members, format, depth + 1) + (Indent(format, depth) + "}")
      ensures "{" + Newline(format) == if format then "{\n" else "{"
      ensures Indent(format, depth) + "}" == if format then Tabs(depth) + "}" else "}"
      ensures |Indent(format, depth) + "}"| == if format then depth + 1 else 1
    {
      hide MembersText;
    }

    /** The loop of print_object. */
    method PrintMembers(members: seq<Member>, ghost pre: string) returns (ok: bool)
      requires At(pre) && forall k :: 0 <= k < |members| ==> IsCString(members[k].key) && WellFormed(members[k].value)
      modifies this, buffer
      ensures Kept()
      ensures !ok ==> |pre| + |MembersText(members, format, old(depth))| + 2 > Limit()
      ensures ok ==> depth == old(depth) && At(pre + MembersText(members, format, depth))
      decreases members, 0
    {
      hide MembersText, MemberText, WellFormed, IsCString, At, Holds;
      ghost var whole := MembersText(members, format, depth);
      ghost var done := "";
      assert members[0..] == members && pre + "" == pre && "" + whole == whole;
      var k: nat := 0;
      while k < |members|
        invariant k <= |members| && Kept() && depth == old(depth) && At(pre + done)
        invariant done + MembersText(members[k..], format, depth) == whole
      {
        ghost var m := MemberText(members[k], k + 1 == |members|, format, depth);
        MembersProgress(members, k, format, depth, done, whole);
        ok := PrintMember(members[k], k + 1 == |members|, pre + done);
        if !ok {
          return;
        }
        Assoc(pre, done, m);
        done := done + m;
        k := k + 1;
      }
      MembersEnd(members, k, format, depth);
      assert done + "" == done;
      ok := true;
    }

    /** Indentation, key, colon, value, comma and line end of one member. */
    method PrintMember(m: Member, last: bool, ghost pre: string) returns (ok: bool)
      requires At(pre) && IsCString(m.key) && WellFormed(m.value)
      modifies this, buffer
      ensures Kept()
      ensures !ok ==> |pre| + |MemberText(m, last, format, old(depth))| + 2 > Limit()
      ensures ok ==> depth == old(depth) && At(pre + MemberText(m, last, format, depth))
      decreases m, 2
    {
      hide Text, Quoted, WellFormed, IsCString, At, Holds, Indent, KeySep, Newline;
      ghost var ind, key, sep := Indent(format, depth), Quoted(m.key), KeySep(format);
      ghost var val, tail := Text(m.value, format, depth), (if last then "" else ",") + Newline(format);
      MemberPieces(m, last, format, depth);
      hide MemberText;
      MemberSum(pre, ind, key + sep, val, tail);
      ok := PrintIndent(pre);
      if !ok {
        return;
      }
      ok := PrintKey(m.key, pre + ind);
      if !ok {
        return;
      }
      ghost var front := pre + ind + (key + sep);
      TextIsCString(m.value, format, depth);
      ok := PrintValue(m.value, front);
      if !ok {
        return;
      }
      UpdateOffset(front, val);
      ok := PrintLineEnd(last, front + val);
    }

    static lemma MemberSum(pre: string, a: string, b: string, c: string, d: string)
      ensures pre + a + b + c + d == pre + (a + b + c + d)
    {
    }

    method PrintIndent(ghost pre: string) returns (ok: bool)
      requires At(pre)
      modifies this, buffer
      ensures Kept() && depth == old(depth)
      ensures !ok ==> |pre| + |Indent(format, depth)| + 2 > Limit()
      ensures ok ==> At(pre + Indent(format, depth))
    {
      hide At, Holds;
      ok := true;
      if format {
        ok := Ensure(depth, pre);
        if !ok {
          return;
        }
        Emit(Tabs(depth), pre);
      } else {
        assert pre + "" == pre;
      }
    }

    static lemma MemberPieces(m: Member, last: bool, format: bool, depth: nat)
      ensures var tail := (if last then "" else ",") + Newline(format);
        MemberText(m, last, format, depth) == Indent(format, depth) + (Quoted(m.key) + KeySep(format)) + Text(m.value, format, depth) + tail
    {
      hide Quoted, Text, Indent, KeySep;
    }

    method PrintKey(key: string, ghost pre: string) returns (ok: bool)
      requires At(pre) && IsCString(key)
      modifies this, buffer
      ensures Kept() && depth == old(depth)
      ensures !ok ==> |pre| + |Quoted(key) + KeySep(format)| + 2 > Limit()
      ensures ok ==> At(pre + (Quoted(key) + KeySep(format)))
    {
      Assoc(pre, Quoted(key), KeySep(format));
      QuotedIsCString(key);
      hide Quoted, IsCString, At, Holds;
      ok := PrintStringPtr(key, pre);
      if !ok {
        return;
      }
      UpdateOffset(pre, Quoted(key));
      var length := if format then 2 else 1;
      ok := Ensure(length, pre + Quoted(key));
      if !ok {
        return;
      }
      Emit(if format then ":\t" else ":", pre + Quoted(key));
    }

    static lemma QuotedIsCString(s: string)
      requires IsCString(s)
      ensures IsCString(Quoted(s))
    {
      EscapedIsCString(s);
    }

    /** The comma unless the member is the last, and the line end when formatting. */
    method PrintLineEnd(last: bool, ghost pre: string) returns (ok: bool)
      requires At(pre)
      modifies this, buffer
      ensures Kept() && depth == old(depth)
      ensures var tail := (if last then "" else ",") + Newline(format);
        (!ok ==> |pre| + |tail| + 2 > Limit()) && (ok ==> At(pre + tail))
    {
      hide At, Holds;
      var length := (if format then 1 else 0) + (if last then 0 else 1);
      ok := Ensure(length + 1, pre);
      if !ok {
        return;
      }
      EmitTerminated((if last then "" else ",") + Newline(format), pre);
    }
  }

  /** print: into a buffer that starts with 256 bytes; then the text is copied out. */
  method Print(v: Json, format: bool) returns (ok: bool, printed: string)
    requires WellFormed(v)
    ensures ok == (|Text(v, format, 0)| + 2 <= INT_MAX)
    ensures ok ==> printed == Text(v, format, 0)
  {
    hide Text, WellFormed;
    var memory := new char[DEFAULT_BUFFER_SIZE];
    var p := new PrintBuffer(memory, false, format);
    ok := p.PrintValue(v, "");
    if !ok {
      return false, "";
    }
    TextIsCString(v, format, 0);
    p.UpdateOffset("", Text(v, format, 0));
    printed := p.buffer[..p.offset];
  }

  /** cJSON_PrintBuffered: the caller's guess of the size does not change the result. */
  method PrintBuffered(v: Json, prebuffer: int, format: bool) returns (ok: bool, memory: array<char>)
    requires WellFormed(v) && prebuffer <= INT_MAX
    ensures ok == (prebuffer >= 0 && |Text(v, format, 0)| + 2 <= INT_MAX)
    ensures ok ==> |Text(v, format, 0)| < memory.Length
                   && memory[..|Text(v, format, 0)|] == Text(v, format, 0) && memory[|Text(v, format, 0)|] == NUL
  {
    hide Text, WellFormed;
    if prebuffer < 0 {
      memory := new char[0];
      return false, memory;
    }
    memory := new char[prebuffer];
    var p := new PrintBuffer(memory, false, format);
    ok := p.PrintValue(v, "");
    memory := p.buffer;
    assert "" + Text(v, format, 0) == Text(v, format, 0);
  }

  /**
   cJSON_PrintPreallocated: succeeds exactly when the buffer has two bytes more than the text,
   one for the terminator and one to spare, and then leaves the same text as Print.
   */
  method PrintPreallocated(v: Json, memory: array<char>, format: bool) returns (ok: bool)
    requires WellFormed(v) && memory.Length <= INT_MAX
    modifies memory
    ensures ok == (|Text(v, format, 0)| + 2 <= memory.Length)
    ensures ok ==> memory[..|Text(v, format, 0)|] == Text(v, format, 0) && memory[|Text(v, format, 0)|] == NUL
  {
    hide Text, WellFormed;
    var p := new PrintBuffer(memory, true, format);
    ok := p.PrintValue(v, "");
    assert "" + Text(v, format, 0) == Text(v, format, 0);
  }
}
