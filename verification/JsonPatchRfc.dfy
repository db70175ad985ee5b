/**
 RFC 6902 on meanings, and the proof that apply_patch computes it for all six operations: which
 location each operation changes, what it puts there, and when it fails.
 */
module JsonPatchRfc {
  import opened Json
  import opened JsonTree
  import opened JsonMeaning
  import opened JsonParse
  import opened JsonRoundTrip
  import opened JsonPointer
  import opened JsonCompare
  import opened JsonEdit
  import opened JsonPatch
  import opened JsonPatchCode

  // ---- locations ----

  /** RFC 6901: the pointer with these reference tokens. */
  function Pointer(ts: seq<string>): (p: string)
    ensures AtEnd(p) && (ts == [] <==> p == "")
  {
    if ts == [] then "" else "/" + Encode(ts[0]) + Pointer(ts[1..])
  }

  /** An array index: digits without leading zeros. */
  predicate IndexToken(t: string)
  {
    t != "" && (forall i :: 0 <= i < |t| ==> IsDigit(t[i])) && (t[0] == '0' ==> |t| == 1)
  }

  ghost function ValueOf(v: Value, t: string): Option<Value>
  {
    match v
    case VObject(m) => if t in m then Some(m[t]) else None
    case VArray(items) => if IndexToken(t) && DigitsValue(t) < |items| then Some(items[DigitsValue(t)]) else None
    case _ => None
  }

  /** The value at a location. */
  ghost function Get(v: Value, ts: seq<string>): Option<Value>
    decreases |ts|
  {
    if ts == [] then Some(v)
    else if ValueOf(v, ts[0]) == None then None
    else Get(ValueOf(v, ts[0]).value, ts[1..])
  }

  ghost function WithValue(v: Value, t: string, c: Value): Value
    requires ValueOf(v, t).Some?
  {
    match v
    case VObject(m) => VObject(m[t := c])
    case VArray(items) => VArray(items[DigitsValue(t) := c])
  }

  // ---- the operations of section 4 of RFC 6902 ----

  datatype Change = Gone | Put(x: Value)

  /** Removing or adding the child that the token names. */
  ghost function ChangeChild(v: Value, t: string, e: Change): Option<Value>
  {
    match v
    case VObject(m) =>
      if e.Put? then Some(VObject(m[t := e.x])) else if t in m then Some(VObject(m - {t})) else None
    case VArray(items) =>
      if e.Put? && t == "-" then Some(VArray(items + [e.x]))
      else if !IndexToken(t) then None
      else
        var i := DigitsValue(t);
        if e.Put? && i <= |items| then Some(VArray(items[..i] + [e.x] + items[i..]))
        else if e.Gone? && i < |items| then Some(VArray(items[..i] + items[i + 1..]))
        else None
    case _ => None
  }

  ghost function Changed(v: Value, ts: seq<string>, e: Change): Option<Value>
    requires ts != []
    decreases |ts|
  {
    if |ts| == 1 then ChangeChild(v, ts[0], e)
    else if ValueOf(v, ts[0]) == None then None
    else
      var r := Changed(ValueOf(v, ts[0]).value, ts[1..], e);
      if r == None then None else Some(WithValue(v, ts[0], r.value))
  }

  /** The value at a location, which must exist, becomes x. */
  ghost function Replaced(v: Value, ts: seq<string>, x: Value): Option<Value>
    decreases |ts|
  {
    if ts == [] then Some(x)
    else if ValueOf(v, ts[0]) == None then None
    else
      var r := Replaced(ValueOf(v, ts[0]).value, ts[1..], x);
      if r == None then None else Some(WithValue(v, ts[0], r.value))
  }

  ghost function Added(v: Value, ts: seq<string>, x: Value): Option<Value>
  {
    if ts == [] then Some(x) else Changed(v, ts, Put(x))
  }

  datatype Operation =
    | OpAdd(path: seq<string>, value: Json)
    | OpRemove(path: seq<string>)
    | OpReplace(path: seq<string>, value: Json)
    | OpMove(from: seq<string>, path: seq<string>)
    | OpCopy(from: seq<string>, path: seq<string>)
    | OpTest(path: seq<string>, value: Json)

  /** What the operation makes of a document; nothing when it fails. The root is neither removed nor moved. */
  ghost function Rfc(v: Value, o: Operation): Option<Value>
  {
    match o
    case OpAdd(ts, x) => Added(v, ts, Meaning(x))
    case OpRemove(ts) => if ts == [] then None else Changed(v, ts, Gone)
    case OpReplace(ts, x) => Replaced(v, ts, Meaning(x))
    case OpMove(fs, ts) =>
      if fs == [] || Get(v, fs) == None || Changed(v, fs, Gone) == None then None
      else Added(Changed(v, fs, Gone).value, ts, Get(v, fs).value)
    case OpCopy(fs, ts) => if Get(v, fs) == None then None else Added(v, ts, Get(v, fs).value)
    case OpTest(ts, x) => if Get(v, ts) == Some(Meaning(x)) then Some(v) else None
  }

  function Coded(o: Operation): PatchOp
  {
    match o
    case OpAdd(ts, x) => PatchOp(Add, Pointer(ts), Some(x), None)
    case OpRemove(ts) => PatchOp(Remove, Pointer(ts), None, None)
    case OpReplace(ts, x) => PatchOp(Replace, Pointer(ts), Some(x), None)
    case OpMove(fs, ts) => PatchOp(Move, Pointer(ts), None, Some(Pointer(fs)))
    case OpCopy(fs, ts) => PatchOp(Copy, Pointer(ts), None, Some(Pointer(fs)))
    case OpTest(ts, x) => PatchOp(Test, Pointer(ts), Some(x), None)
  }

  // ---- what the code relies on ----

  /** A token for an array: "-" or digits that fit a size_t. */
  predicate ForArray(t: string)
  {
    t == "-" || (t != "" && (forall i :: 0 <= i < |t| ==> IsDigit(t[i])) && DigitsValue(t) < SIZE_LIMIT)
  }

  /** Following the token: no key of the object but the token itself compares equal to it. */
  ghost predicate Passable(v: Value, t: string, cs: bool)
  {
    match v
    case VObject(m) => forall k :: k in m ==> Tells(k, t, cs)
    case VArray(_) => ForArray(t)
    case _ => true
  }

  /** Changing the child: the token is also restored by decoding in place. */
  ghost predicate Changeable(v: Value, t: string, cs: bool)
  {
    match v
    case VObject(m) => Decodable(t) && forall k :: k in m ==> Tells(t, k, cs)
    case VArray(_) => ForArray(t)
    case _ => true
  }

  ghost predicate Followable(v: Value, ts: seq<string>, cs: bool)
    decreases |ts|
  {
    ts == [] || (Passable(v, ts[0], cs) && (ValueOf(v, ts[0]).Some? ==> Followable(ValueOf(v, ts[0]).value, ts[1..], cs)))
  }

  /** The tokens in front are followed with regard to case or not, the last child is looked up in its own way. */
  ghost predicate Editable(v: Value, ts: seq<string>, cs: bool, last: bool)
    requires ts != []
    decreases |ts|
  {
    if |ts| == 1 then Changeable(v, ts[0], last)
    else Passable(v, ts[0], cs) && (ValueOf(v, ts[0]).Some? ==> Editable(ValueOf(v, ts[0]).value, ts[1..], cs, last))
  }

  /** What an operation relies on: detaching never regards case, and only add and replace reach the root. */
  ghost predicate Meets(v: Value, o: Operation, cs: bool)
  {
    match o
    case OpAdd(ts, x) => Clear(x, true) && (ts != [] ==> Editable(v, ts, cs, cs))
    case OpRemove(ts) => ts != [] && Editable(v, ts, cs, false)
    case OpReplace(ts, x) => Clear(x, true) && (ts != [] ==> Editable(v, ts, cs, false))
    case OpMove(fs, ts) =>
      && ts != [] && (fs != [] ==> Editable(v, fs, cs, false))
      && (fs != [] && Changed(v, fs, Gone).Some? ==> Editable(Changed(v, fs, Gone).value, ts, cs, cs))
    case OpCopy(fs, ts) => ts != [] && Followable(v, fs, cs) && (Get(v, fs).Some? ==> Editable(v, ts, cs, cs))
    case OpTest(ts, x) =>
      && Followable(v, ts, cs) && Clear(x, cs)
      && (Get(v, ts).Some? ==> Apart(Get(v, ts).value, Get(v, ts).value, cs) && Apart(Get(v, ts).value, Meaning(x), cs))
  }

  // ---- tokens ----

  lemma {:induction false} IndexDecodes(t: string, rest: string)
    requires ForArray(t) && AtEnd(rest)
    ensures Encode(t) == t && '/' !in t && DecodeInPlace(t) == t
    ensures DecodeIndex(t + rest) == if IndexToken(t) then Some(DigitsValue(t)) else None
  {
    hide DigitsValue, IndexRun;
    assert '~' !in t && '/' !in t;
    EncodePlain(t);
    DecodePlain(t, 0);
    var p := t + rest;
    assert p[0] == t[0];
    if t == "-" {
      DashRuns(p);
    } else {
      EmptyValue();
      assert t[..0] == "";
      RunOverDigits(t, rest, 0);
      assert |p| > |t| ==> p[|t|] == rest[0];
      assert |t| > 1 ==> p[1] == t[1];
    }
  }

  lemma DashRuns(p: string)
    requires p != "" && p[0] == '-'
    ensures DecodeIndex(p) == None
  {
  }

  /** What the first token of a pointer leads to. */
  lemma {:induction false} ChildIs(v: Json, t: string, rest: string, cs: bool)
    requires Clear(v, true) && Passable(Meaning(v), t, cs) && AtEnd(rest)
    ensures var k, c := Child(v, Encode(t) + rest, cs), ValueOf(Meaning(v), t);
      && (k.Some? <==> c.Some?)
      && (k.Some? ==> Meaning(ChildAt(v, k.value)) == c.value && Clear(ChildAt(v, k.value), true) && IsChild(v, t, k.value))
    ensures RestOf(Encode(t) + rest) == rest
  {
    hide ComparePointers, Encode, Compare, Decodable;
    EncodeNoSlash(t);
    RestOfElement(Encode(t), rest);
    match v
    case Array(items) => IndexDecodes(t, rest);
    case Object(ms) =>
      ToldExactly(ms);
      hide RestOf, Tells;
      NamedChild(ms, t, rest, cs);
    case _ =>
  }

  /** The token names this child. */
  predicate IsChild(v: Json, t: string, k: nat)
  {
    k < Children(v) && if v.Array? then IndexToken(t) && k == DigitsValue(t) else v.members[k].key == t
  }

  lemma NamedChild(ms: seq<Member>, t: string, rest: string, cs: bool)
    requires DistinctKeys(ms) && AtEnd(rest) && forall k :: k in MembersMeaning(ms) ==> Tells(k, t, cs)
    ensures var i := NamedIndex(ms, Encode(t) + rest, cs);
      && (i < |ms| <==> t in MembersMeaning(ms))
      && (i < |ms| ==> ms[i].key == t && MembersMeaning(ms)[t] == Meaning(ms[i].value))
  {
    hide ComparePointers, Encode, Compare, Meaning, Tells;
    var p := Encode(t) + rest;
    forall j | 0 <= j < |ms| ensures ComparePointers(ms[j].key, p, cs) <==> ms[j].key == t {
      CompareEncoded(ms[j].key, t, rest, cs);
      MemberMeant(ms, j);
      EqualKeys(ms[j].key, t, cs);
    }
    var i := NamedIndex(ms, p, cs);
    if i < |ms| { MemberMeant(ms, i); }
    if t in MembersMeaning(ms) { MeantMember(ms, t); }
  }

  // ---- following ----

  lemma LookupStep(v: Json, e: string, k: nat, rest: string, cs: bool)
    requires Child(v, e, cs) == Some(k) && RestOf(e) == rest
    ensures Lookup(v, "/" + e, cs) == Lookup(ChildAt(v, k), rest, cs)
  {
    hide Child, RestOf, Locate, ChildAt;
    LocateStep(v, e, cs);
    var r := Locate(ChildAt(v, k), rest, cs);
    if r.Some? {
      var path := [k] + r.value;
      assert path[1..] == r.value;
    }
  }

  lemma LookupNothing(v: Json, e: string, cs: bool)
    requires Child(v, e, cs) == None
    ensures Lookup(v, "/" + e, cs) == None
  {
    hide Child, RestOf, Locate;
    LocateStep(v, e, cs);
  }

  lemma PointerCons(ts: seq<string>)
    requires ts != []
    ensures Pointer(ts) == "/" + (Encode(ts[0]) + Pointer(ts[1..]))
  {
    hide Encode;
  }

  /** Looking a pointer up finds the value at the location, or nothing where there is none. */
  lemma {:induction false} LookupIs(v: Json, ts: seq<string>, cs: bool)
    requires Clear(v, true) && Followable(Meaning(v), ts, cs)
    ensures var r, w := Lookup(v, Pointer(ts), cs), Get(Meaning(v), ts);
      (r.Some? <==> w.Some?) && (r.Some? ==> Meaning(r.value) == w.value && Clear(r.value, true))
    decreases |ts|
  {
    if ts != [] {
      hide Encode, Meaning, Child, Clear, Passable, ValueOf, RestOf, Lookup, Locate;
      var rest := Pointer(ts[1..]);
      PointerCons(ts);
      ChildIs(v, ts[0], rest, cs);
      var e := Encode(ts[0]) + rest;
      var k := Child(v, e, cs);
      if k.Some? {
        LookupStep(v, e, k.value, rest, cs);
        LookupIs(ChildAt(v, k.value), ts[1..], cs);
      } else {
        LookupNothing(v, e, cs);
      }
    } else {
      assert NodeAt(v, []) == Some(v);
    }
  }

  // ---- the last child ----

  lemma IndexOfToken(ms: seq<Member>, t: string, cs: bool)
    requires DistinctKeys(ms) && forall k :: k in MembersMeaning(ms) ==> Tells(t, k, cs)
    ensures var i := IndexOf(ms, t, cs); (i < |ms| <==> t in MembersMeaning(ms)) && (i < |ms| ==> ms[i].key == t)
  {
    hide Meaning, Tells, Compare;
    forall i | 0 <= i < |ms| ensures Tells(t, ms[i].key, cs) { MemberMeant(ms, i); }
    IndexOfKey(ms, t, cs);
    if i :| 0 <= i < |ms| && ms[i].key == t { MemberMeant(ms, i); }
    if t in MembersMeaning(ms) { MeantMember(ms, t); }
  }

  lemma ClearObject(ms: seq<Member>)
    ensures Clear(Object(ms), true) <==> DistinctKeys(ms) && forall i :: 0 <= i < |ms| ==> Clear(ms[i].value, true)
  {
    ToldExactly(ms);
  }

  /** The end of a pointer as an edit of the code. */
  function Ending(t: string, e: Change, x: Json): Edit
  {
    if e.Gone? then Detach(t) else Insert(t, x)
  }

  lemma RemovedClear(ms: seq<Member>, i: nat)
    requires Clear(Object(ms), true) && i < |ms|
    ensures Clear(Object(RemoveAt(ms, i)), true) && MembersMeaning(RemoveAt(ms, i)) == MembersMeaning(ms) - {ms[i].key}
    ensures !HasKey(RemoveAt(ms, i), ms[i].key)
  {
    hide MembersMeaning, Meaning, DistinctKeys, Clear;
    var ns := RemoveAt(ms, i);
    ClearObject(ms);
    ClearObject(ns);
    MeaningRemove(ms, i);
    forall k | 0 <= k < |ns| ensures ns[k].key != ms[i].key && Clear(ns[k].value, true) {
      var j := if k < i then k else k + 1;
      assert ns[k] == ms[j];
      DistinctAt(ms, i, j);
    }
  }

  lemma AppendedClear(ms: seq<Member>, t: string, x: Json)
    requires Clear(Object(ms), true) && Clear(x, true) && !HasKey(ms, t)
    ensures var ns := ms + [Member(t, x)];
      Clear(Object(ns), true) && MembersMeaning(ns) == MembersMeaning(ms)[t := Meaning(x)]
  {
    hide MembersMeaning, Meaning, DistinctKeys, Clear, HasKey;
    ClearObject(ms);
    ClearObject(ms + [Member(t, x)]);
    MeaningAppend(ms, t, x);
  }

  lemma {:induction false} ObjectChanges(ms: seq<Member>, t: string, e: Change, x: Json, cs: bool)
    requires Clear(Object(ms), true) && (e.Put? ==> Clear(x, true) && e.x == Meaning(x))
    requires forall k :: k in MembersMeaning(ms) ==> Tells(t, k, if e.Gone? then false else cs)
    ensures var r, w := Perform(Object(ms), Ending(t, e, x), cs), ChangeChild(VObject(MembersMeaning(ms)), t, e);
      (r.status == 0 <==> w.Some?) && (r.status != 0 ==> r == Edited(13, Object(ms)))
      && (w.Some? ==> Clear(r.doc, true) && Meaning(r.doc) == w.value)
  {
    hide MembersMeaning, DistinctKeys, Clear, HasKey, Tells, IndexOf, RemoveAt;
    ClearObject(ms);
    var m := MembersMeaning(ms);
    if e.Gone? {
      IndexOfToken(ms, t, false);
      var i := IndexOf(ms, t, false);
      if i < |ms| { RemovedClear(ms, i); }
    } else {
      IndexOfToken(ms, t, cs);
      var i := IndexOf(ms, t, cs);
      PerformInsert(ms, t, x, cs);
      if i < |ms| {
        RemovedClear(ms, i);
        AppendedClear(RemoveAt(ms, i), t, x);
        assert (m - {t})[t := e.x] == m[t := e.x];
      } else {
        KeyMeant(ms, t);
        AppendedClear(ms, t, x);
      }
    }
  }

  lemma KeyMeant(ms: seq<Member>, k: string)
    ensures HasKey(ms, k) <==> k in MembersMeaning(ms)
  {
  }

  lemma {:induction false} ArrayChanges(items: seq<Json>, t: string, e: Change, x: Json, cs: bool)
    requires Clear(Array(items), true) && ForArray(t) && (e.Put? ==> Clear(x, true) && e.x == Meaning(x))
    ensures var r, w := Perform(Array(items), Ending(t, e, x), cs), ChangeChild(VArray(ItemsMeaning(items)), t, e);
      (r.status == 0 <==> w.Some?)
      && (r.status != 0 ==> r.doc == Array(items) && r.status == (if e.Gone? then 13 else if IndexToken(t) then 10 else 11))
      && (w.Some? ==> Clear(r.doc, true) && Meaning(r.doc) == w.value)
  {
    hide IndexToken, DigitsValue, DecodeIndex, ItemsMeaning, Clear, Meaning, InsertAt, RemoveAt;
    IndexDecodes(t, "");
    assert t + "" == t;
    DashIsNoIndex(t);
    if t == "-" {
      if e.Put? { ElementAppended(items, x); }
    } else if IndexToken(t) {
      var i := DigitsValue(t);
      if e.Put? {
        if i <= |items| { ElementInserted(items, i, x); }
      } else if i < |items| {
        ElementRemoved(items, i);
      }
    }
  }

  lemma DashIsNoIndex(t: string)
    ensures IndexToken(t) ==> t != "-"
  {
  }

  lemma ElementAppended(items: seq<Json>, x: Json)
    requires Clear(Array(items), true) && Clear(x, true)
    ensures Clear(Array(items + [x]), true) && Meaning(Array(items + [x])) == VArray(ItemsMeaning(items) + [Meaning(x)])
  {
    assert ItemsMeaning(items + [x]) == ItemsMeaning(items) + [Meaning(x)];
  }

  lemma ElementInserted(items: seq<Json>, i: nat, x: Json)
    requires i <= |items| && Clear(Array(items), true) && Clear(x, true)
    ensures var r, w := Array(InsertAt(items, i, x)), ItemsMeaning(items);
      Clear(r, true) && Meaning(r) == VArray(w[..i] + [Meaning(x)] + w[i..])
  {
    hide Clear, Meaning, ItemsMeaning;
    var ys, w := InsertAt(items, i, x), ItemsMeaning(items);
    var u := w[..i] + [Meaning(x)] + w[i..];
    ArrayMeans(items);
    ArrayMeans(ys);
    forall k | 0 <= k < |ys| ensures Clear(ys[k], true) && ItemsMeaning(ys)[k] == u[k] {
      if k < i {
        assert ys[k] == items[k] && u[k] == w[k];
      } else if k > i {
        assert ys[k] == items[k - 1] && u[k] == w[k - 1];
      }
    }
    assert ItemsMeaning(ys) == u;
  }

  lemma ArrayMeans(items: seq<Json>)
    ensures Meaning(Array(items)) == VArray(ItemsMeaning(items))
    ensures Clear(Array(items), true) <==> forall i :: 0 <= i < |items| ==> Clear(items[i], true)
  {
  }

  lemma ElementRemoved(items: seq<Json>, i: nat)
    requires i < |items| && Clear(Array(items), true)
    ensures var r, w := Array(RemoveAt(items, i)), ItemsMeaning(items); Clear(r, true) && Meaning(r) == VArray(w[..i] + w[i + 1..])
  {
    hide Clear, Meaning, ItemsMeaning;
    var ys, w := RemoveAt(items, i), ItemsMeaning(items);
    var u := w[..i] + w[i + 1..];
    ArrayMeans(items);
    ArrayMeans(ys);
    forall k | 0 <= k < |ys| ensures Clear(ys[k], true) && ItemsMeaning(ys)[k] == u[k] {
      assert ys[k] == items[if k < i then k else k + 1] && u[k] == w[if k < i then k else k + 1];
    }
    assert ItemsMeaning(ys) == u;
  }

  // ---- editing ----

  /** What the last element of a pointer is decoded to. */
  function LastName(t: string): string
  {
    DecodeInPlace(Encode(t))
  }

  lemma NameRestored(v: Value, t: string, cs: bool)
    requires Changeable(v, t, cs) && (v.VObject? || v.VArray?)
    ensures LastName(t) == t
  {
    if v.VObject? { KeyPath(t); } else { IndexDecodes(t, ""); }
  }

  /** The status of an addition that fails. */
  ghost function AddStatus(v: Value, ts: seq<string>): int
    requires ts != []
  {
    var n := |ts| - 1;
    var parent := Get(v, ts[..n]);
    if parent == None || !parent.value.VArray? then 9 else if IndexToken(ts[n]) then 10 else 11
  }

  lemma {:induction false} ChildChanges(v: Json, t: string, e: Change, x: Json, cs: bool)
    requires Clear(v, true) && Changeable(Meaning(v), t, if e.Gone? then false else cs)
    requires e.Put? ==> Clear(x, true) && e.x == Meaning(x)
    ensures var r, w := Perform(v, Ending(LastName(t), e, x), cs), ChangeChild(Meaning(v), t, e);
      (r.status == 0 <==> w.Some?) && (r.status != 0 ==> r.doc == v && r.status == if e.Gone? then 13 else AddStatus(Meaning(v), [t]))
      && (w.Some? ==> Clear(r.doc, true) && Meaning(r.doc) == w.value)
  {
    hide ForArray, Decodable, Tells, MembersMeaning, ItemsMeaning, LastName, IndexToken;
    assert [t][..0] == [];
    match v
    case Array(items) =>
      NameRestored(Meaning(v), t, cs);
      hide Perform, ChangeChild, Clear;
      ArrayChanges(items, t, e, x, cs);
    case Object(ms) =>
      NameRestored(Meaning(v), t, if e.Gone? then false else cs);
      hide Perform, ChangeChild, Clear;
      ObjectChanges(ms, t, e, x, cs);
    case _ =>
  }

  /** Putting a changed child back. */
  lemma WithChildMeans(v: Json, t: string, k: nat, c: Json)
    requires Clear(v, true) && Clear(c, true) && IsChild(v, t, k) && ValueOf(Meaning(v), t).Some?
    ensures Clear(WithChild(v, k, c), true) && Meaning(WithChild(v, k, c)) == WithValue(Meaning(v), t, Meaning(c))
  {
    if v.Array? {
      ArrayMeans(v.items);
      ArrayMeans(v.items[k := c]);
      hide ItemsMeaning, Meaning, Clear;
      assert ItemsMeaning(v.items[k := c]) == ItemsMeaning(v.items)[k := Meaning(c)];
    } else {
      var ms := v.members;
      var ns := ms[k := Member(t, c)];
      ClearObject(ms);
      ClearObject(ns);
      hide MembersMeaning, Clear, DistinctKeys;
      MeaningUpdate(ms, k, c);
    }
  }

  lemma EditDown(v: Json, e: string, k: nat, rest: string, edit: Edit, cs: bool)
    requires Child(v, e, cs) == Some(k) && RestOf(e) == rest
    ensures var r := EditAt(ChildAt(v, k), rest, edit, cs);
      EditAt(v, "/" + e, edit, cs) == Edited(r.status, if r.status == 0 then WithChild(v, k, r.doc) else v)
  {
    hide Child, RestOf, WithChild;
    assert ("/" + e)[1..] == e;
  }

  lemma EditNothing(v: Json, e: string, edit: Edit, cs: bool)
    requires Child(v, e, cs) == None
    ensures EditAt(v, "/" + e, edit, cs) == Edited(if edit.Detach? then 13 else 9, v)
  {
    hide Child, RestOf, WithChild;
    assert ("/" + e)[1..] == e;
  }

  lemma AddStatusDown(v: Value, ts: seq<string>)
    requires |ts| > 1
    ensures AddStatus(v, ts) == if ValueOf(v, ts[0]).Some? then AddStatus(ValueOf(v, ts[0]).value, ts[1..]) else 9
  {
    hide ValueOf, IndexToken;
    var n := |ts| - 1;
    assert ts[..n][1..] == ts[1..][..n - 1] && ts[1..][n - 1] == ts[n];
  }

  /** An edit at the end of a pointer makes the change at the location, and changes nothing where it fails. */
  lemma {:induction false} EditIs(v: Json, ts: seq<string>, e: Change, x: Json, cs: bool)
    requires ts != [] && Clear(v, true) && Editable(Meaning(v), ts, cs, if e.Gone? then false else cs)
    requires e.Put? ==> Clear(x, true) && e.x == Meaning(x)
    ensures var n := |ts| - 1;
      var r, w := EditAt(v, Pointer(ts[..n]), Ending(LastName(ts[n]), e, x), cs), Changed(Meaning(v), ts, e);
      (r.status == 0 <==> w.Some?) && (r.status != 0 ==> r.doc == v && r.status == if e.Gone? then 13 else AddStatus(Meaning(v), ts))
      && (w.Some? ==> Clear(r.doc, true) && Meaning(r.doc) == w.value)
    decreases |ts|
  {
    hide Encode, Meaning, Child, Clear, Passable, Changeable, ValueOf, WithValue, ChangeChild, RestOf, EditAt, Perform, LastName, AddStatus;
    var n := |ts| - 1;
    if n == 0 {
      assert ts[..0] == [] && ts == [ts[0]];
      EditRoot(v, Ending(LastName(ts[0]), e, x), cs);
      ChildChanges(v, ts[0], e, x, cs);
    } else {
      var front, tail, edit := ts[..n], ts[1..], Ending(LastName(ts[n]), e, x);
      assert front[1..] == tail[..n - 1] && front[0] == ts[0] && tail[n - 1] == ts[n];
      PointerCons(front);
      AddStatusDown(Meaning(v), ts);
      var rest := Pointer(tail[..n - 1]);
      var p := Encode(ts[0]) + rest;
      ChildIs(v, ts[0], rest, cs);
      var k := Child(v, p, cs);
      if k.Some? {
        EditDown(v, p, k.value, rest, edit, cs);
        EditIs(ChildAt(v, k.value), tail, e, x, cs);
        var r := EditAt(ChildAt(v, k.value), rest, edit, cs);
        if r.status == 0 { WithChildMeans(v, ts[0], k.value, r.doc); }
      } else {
        EditNothing(v, p, edit, cs);
      }
    }
  }

  lemma EditRoot(v: Json, e: Edit, cs: bool)
    ensures EditAt(v, "", e, cs) == Perform(v, e, cs)
  {
  }

  // ---- the paths of the code ----

  lemma {:induction false} PointerEnd(ts: seq<string>)
    requires ts != []
    ensures Pointer(ts) == Pointer(ts[..|ts| - 1]) + "/" + Encode(ts[|ts| - 1])
    decreases |ts|
  {
    hide Encode;
    var n := |ts| - 1;
    PointerCons(ts);
    if n == 0 {
      assert ts[..0] == [] && ts[1..] == [];
      assert "/" + (Encode(ts[0]) + "") == "" + "/" + Encode(ts[0]);
    } else {
      assert ts[..n][1..] == ts[1..][..n - 1] && ts[1..][n - 1] == ts[n];
      PointerEnd(ts[1..]);
      PointerCons(ts[..n]);
      var a, b, c := Encode(ts[0]), Pointer(ts[1..][..n - 1]), Encode(ts[n]);
      assert "/" + (a + (b + "/" + c)) == ("/" + (a + b)) + "/" + c;
    }
  }

  lemma PathSplit(ts: seq<string>)
    requires ts != []
    ensures var n, p := |ts| - 1, Pointer(ts);
      var i := AfterLastSlash(p);
      i > 0 && p[..i - 1] == Pointer(ts[..n]) && p[i..] == Encode(ts[n])
  {
    hide Encode, AfterLastSlash, Pointer;
    var n := |ts| - 1;
    var a, b := Pointer(ts[..n]), Encode(ts[n]);
    PointerEnd(ts);
    EncodeNoSlash(ts[n]);
    LastSlashOf(b);
    LastSlashBehind(a, "/" + b);
    PathParts(a, b);
  }

  lemma PathParts(a: string, b: string)
    ensures a + "/" + b == a + ("/" + b) && (a + "/" + b)[..|a|] == a && (a + "/" + b)[|a| + 1..] == b
  {
  }

  lemma {:induction false} RemoveIs(v: Json, ts: seq<string>, cs: bool)
    requires ts != [] && Clear(v, true) && Editable(Meaning(v), ts, cs, false)
    ensures var r, w := RemovePath(v, Pointer(ts), cs), Changed(Meaning(v), ts, Gone);
      (r.status == 0 <==> w.Some?) && (r.status != 0 ==> r == Edited(13, v))
      && (w.Some? ==> Clear(r.doc, true) && Meaning(r.doc) == w.value)
  {
    hide Encode, DecodeInPlace, EditAt, Clear, Meaning, Editable, Changed, Pointer, AfterLastSlash;
    PathSplit(ts);
    EditIs(v, ts, Gone, Null, cs);
  }

  lemma {:induction false} AddIs(v: Json, ts: seq<string>, x: Json, cs: bool)
    requires ts != [] && Clear(v, true) && Clear(x, true) && Editable(Meaning(v), ts, cs, cs)
    ensures var r, w := AddPath(v, Pointer(ts), x, cs), Changed(Meaning(v), ts, Put(Meaning(x)));
      (r.status == 0 <==> w.Some?) && (r.status != 0 ==> r == Edited(AddStatus(Meaning(v), ts), v))
      && (w.Some? ==> Clear(r.doc, true) && Meaning(r.doc) == w.value)
  {
    hide Encode, DecodeInPlace, EditAt, Clear, Meaning, Editable, Changed, Pointer, AddStatus, AfterLastSlash;
    PathSplit(ts);
    EditIs(v, ts, Put(Meaning(x)), x, cs);
  }

  // ---- what a move takes along ----

  lemma {:induction false} GetEnd(v: Value, ts: seq<string>)
    requires ts != []
    ensures var n := |ts| - 1;
      Get(v, ts) == if Get(v, ts[..n]) == None then None else ValueOf(Get(v, ts[..n]).value, ts[n])
    decreases |ts|
  {
    hide ValueOf;
    var n := |ts| - 1;
    if n == 0 {
      assert ts[..0] == [] && ts[1..] == [];
    } else {
      assert ts[..n][1..] == ts[1..][..n - 1] && ts[1..][n - 1] == ts[n];
      if ValueOf(v, ts[0]).Some? { GetEnd(ValueOf(v, ts[0]).value, ts[1..]); }
    }
  }

  lemma {:induction false} EditableParent(v: Value, ts: seq<string>, cs: bool, last: bool)
    requires ts != [] && Editable(v, ts, cs, last)
    ensures var n := |ts| - 1;
      Followable(v, ts[..n], cs) && (Get(v, ts[..n]).Some? ==> Changeable(Get(v, ts[..n]).value, ts[n], last))
    decreases |ts|
  {
    hide ValueOf, Passable, Changeable;
    var n := |ts| - 1;
    if n == 0 {
      assert ts[..0] == [];
    } else {
      assert ts[..n][1..] == ts[1..][..n - 1] && ts[1..][n - 1] == ts[n];
      if ValueOf(v, ts[0]).Some? { EditableParent(ValueOf(v, ts[0]).value, ts[1..], cs, last); }
    }
  }

  /** A value can be taken out exactly where there is one. */
  lemma {:induction false} GoneExactly(v: Value, ts: seq<string>)
    requires ts != []
    ensures Changed(v, ts, Gone).Some? <==> Get(v, ts).Some?
    decreases |ts|
  {
    if |ts| == 1 {
      assert ts[1..] == [];
    } else {
      hide ChangeChild, WithValue;
      if ValueOf(v, ts[0]).Some? { GoneExactly(ValueOf(v, ts[0]).value, ts[1..]); }
    }
  }

  /** The item detached is the one at the location. */
  lemma {:induction false} DetachedIs(v: Json, ts: seq<string>, cs: bool)
    requires ts != [] && Clear(v, true) && Editable(Meaning(v), ts, cs, false)
    ensures var r, w := DetachedItem(v, Pointer(ts), cs), Get(Meaning(v), ts);
      (r.Some? <==> w.Some?) && (r.Some? ==> Meaning(r.value) == w.value && Clear(r.value, true))
  {
    hide Encode, Clear, Meaning, Editable, Pointer, AfterLastSlash, Lookup, Changeable, DecodeInPlace, ValueOf;
    var n := |ts| - 1;
    PathSplit(ts);
    EditableParent(Meaning(v), ts, cs, false);
    LookupIs(v, ts[..n], cs);
    GetEnd(Meaning(v), ts);
    var parent := Lookup(v, Pointer(ts[..n]), cs);
    if parent.Some? { DetachedChild(parent.value, ts[n]); }
  }

  /** The child that detaching looks up. */
  function ChildNamed(v: Json, child: string): Option<Json>
  {
    match v
    case Array(items) =>
      var k := DecodeIndex(child);
      if k.Some? && k.value < |items| then Some(items[k.value]) else None
    case Object(ms) =>
      var k := IndexOf(ms, child, false);
      if k < |ms| then Some(ms[k].value) else None
    case _ => None
  }

  lemma {:induction false} DetachedChild(v: Json, t: string)
    requires Clear(v, true) && Changeable(Meaning(v), t, false)
    ensures var r, w := ChildNamed(v, LastName(t)), ValueOf(Meaning(v), t);
      (r.Some? <==> w.Some?) && (r.Some? ==> Meaning(r.value) == w.value && Clear(r.value, true))
  {
    hide ForArray, Decodable, Tells, MembersMeaning, LastName, IndexToken, DigitsValue, DecodeIndex, IndexOf;
    match v
    case Array(items) =>
      NameRestored(Meaning(v), t, false);
      IndexDecodes(t, "");
      assert t + "" == t;
    case Object(ms) =>
      NameRestored(Meaning(v), t, false);
      ClearObject(ms);
      IndexOfToken(ms, t, false);
      var i := IndexOf(ms, t, false);
      if i < |ms| { MemberMeant(ms, i); }
    case _ =>
  }

  // ---- the operations ----

  /** The change that replaces a value is removing it and adding the new one in its place. */
  lemma {:induction false} ReplacedIs(v: Value, ts: seq<string>, x: Value)
    requires ts != []
    ensures Replaced(v, ts, x) ==
      if Changed(v, ts, Gone) == None then None else Changed(Changed(v, ts, Gone).value, ts, Put(x))
    decreases |ts|
  {
    if |ts| == 1 {
      assert ts[1..] == [];
      hide IndexToken, DigitsValue;
      ReplacedChild(v, ts[0], x);
    } else if ValueOf(v, ts[0]).Some? {
      hide ChangeChild, ValueOf, WithValue;
      var c := ValueOf(v, ts[0]).value;
      ReplacedIs(c, ts[1..], x);
      var r := Changed(c, ts[1..], Gone);
      if r.Some? {
        var w := Changed(r.value, ts[1..], Put(x));
        WithTwice(v, ts[0], r.value, if w.Some? then w.value else x);
      }
    }
  }

  lemma ReplacedChild(v: Value, t: string, x: Value)
    ensures var r := ChangeChild(v, t, Gone);
      (if ValueOf(v, t) == None then None else Some(WithValue(v, t, x)))
      == if r == None then None else ChangeChild(r.value, t, Put(x))
  {
    hide DigitsValue;
    match v
    case VObject(m) => if t in m { assert (m - {t})[t := x] == m[t := x]; }
    case VArray(items) =>
      if IndexToken(t) {
        var i := DigitsValue(t);
        if i < |items| {
          var rest := items[..i] + items[i + 1..];
          assert rest[..i] == items[..i] && rest[i..] == items[i + 1..];
          assert items[..i] + [x] + items[i + 1..] == items[i := x];
        }
      }
    case _ =>
  }

  lemma WithTwice(v: Value, t: string, c: Value, d: Value)
    requires ValueOf(v, t).Some?
    ensures ValueOf(WithValue(v, t, c), t) == Some(c) && WithValue(WithValue(v, t, c), t, d) == WithValue(v, t, d)
  {
    hide DigitsValue;
    if v.VArray? {
      var i := DigitsValue(t);
      assert v.items[i := c][i := d] == v.items[i := d];
    } else {
      assert v.members[t := c][t := d] == v.members[t := d];
    }
  }

  /** Where a value was removed, another one can be added. */
  lemma {:induction false} EditableAfter(v: Value, ts: seq<string>, cs: bool)
    requires ts != [] && Editable(v, ts, cs, false) && Changed(v, ts, Gone).Some?
    ensures Editable(Changed(v, ts, Gone).value, ts, cs, cs)
    decreases |ts|
  {
    if |ts| == 1 {
      hide Decodable, ForArray, Tells;
      if v.VObject? {
        var w := Changed(v, ts, Gone).value;
        forall k | k in w.members ensures Tells(ts[0], k, cs) { TellsEither(ts[0], k, cs); }
      }
    } else {
      hide ChangeChild, WithValue, Passable;
      var c := ValueOf(v, ts[0]).value;
      EditableAfter(c, ts[1..], cs);
      PassableWith(v, ts[0], Changed(c, ts[1..], Gone).value, cs);
      hide ValueOf;
      WithTwice(v, ts[0], Changed(c, ts[1..], Gone).value, c);
    }
  }

  lemma PassableWith(v: Value, t: string, c: Value, cs: bool)
    requires Passable(v, t, cs) && ValueOf(v, t).Some?
    ensures Passable(WithValue(v, t, c), t, cs)
  {
    hide IndexToken, DigitsValue, ForArray;
  }

  lemma {:induction false} AddedIs(v: Json, ts: seq<string>, x: Json, cs: bool)
    requires Clear(v, true) && Clear(x, true) && ts != [] && Editable(Meaning(v), ts, cs, cs)
    ensures var r, w := AddPath(v, Pointer(ts), x, cs), Added(Meaning(v), ts, Meaning(x));
      Agrees(r, w) && (w == None ==> r == Edited(AddStatus(Meaning(v), ts), v))
  {
    hide AddPath, Clear, Meaning, Editable, Changed, AddStatus, Pointer;
    AddIs(v, ts, x, cs);
  }

  /** The result is the document the standard describes, or an error where it asks for one. */
  ghost predicate Agrees(r: Edited, w: Option<Value>)
  {
    (r.status == 0 <==> w.Some?) && (w.Some? ==> Clear(r.doc, true) && Meaning(r.doc) == w.value)
  }

  lemma {:induction false} ReplaceIsRfc(v: Json, ts: seq<string>, x: Json, cs: bool)
    requires Clear(v, true) && Meets(Meaning(v), OpReplace(ts, x), cs)
    ensures var r, w := ApplyOp(v, Coded(OpReplace(ts, x)), cs), Rfc(Meaning(v), OpReplace(ts, x));
      Agrees(r, w) && (w == None ==> r == Edited(13, v))
  {
    hide AddPath, RemovePath, Clear, Meaning, Editable, Changed, Replaced, Pointer;
    if ts == [] {
      WholeReplaced(Meaning(v), Meaning(x));
    } else {
      ReplacedIs(Meaning(v), ts, Meaning(x));
      RemoveIs(v, ts, cs);
      var r := RemovePath(v, Pointer(ts), cs);
      if r.status == 0 {
        EditableAfter(Meaning(v), ts, cs);
        AddIs(r.doc, ts, x, cs);
        PutSucceeds(Meaning(v), ts, Meaning(x));
      }
    }
  }

  lemma WholeReplaced(v: Value, x: Value)
    ensures Replaced(v, [], x) == Some(x)
  {
  }

  /** Replacing fails only where there is nothing to replace. */
  lemma {:induction false} PutSucceeds(v: Value, ts: seq<string>, x: Value)
    requires ts != [] && Changed(v, ts, Gone).Some?
    ensures Replaced(v, ts, x).Some?
    decreases |ts|
  {
    hide WithValue;
    if |ts| == 1 {
      assert ts[1..] == [];
      hide IndexToken, DigitsValue;
    } else {
      hide ChangeChild;
      PutSucceeds(ValueOf(v, ts[0]).value, ts[1..], x);
    }
  }

  /** A move that finds no place to put the value has taken it out all the same. */
  lemma {:induction false} MoveIsRfc(v: Json, fs: seq<string>, ts: seq<string>, cs: bool)
    requires Clear(v, true) && Meets(Meaning(v), OpMove(fs, ts), cs)
    ensures var r, w := ApplyOp(v, Coded(OpMove(fs, ts)), cs), Rfc(Meaning(v), OpMove(fs, ts));
      && Agrees(r, w) && (fs == [] || Get(Meaning(v), fs) == None ==> r == Edited(5, v))
      && (w == None && r.status != 5 ==> Changed(Meaning(v), fs, Gone) == Some(Meaning(r.doc)))
  {
    hide AddPath, RemovePath, Clear, Meaning, Editable, Changed, Get, AddStatus, DetachedItem;
    if fs == [] {
      NothingDetached(v, cs);
    } else {
      hide Pointer;
      GoneExactly(Meaning(v), fs);
      DetachedIs(v, fs, cs);
      RemoveIs(v, fs, cs);
      var item, r := DetachedItem(v, Pointer(fs), cs), RemovePath(v, Pointer(fs), cs);
      if item.Some? { AddedIs(r.doc, ts, item.value, cs); }
    }
  }

  lemma NothingDetached(v: Json, cs: bool)
    ensures Pointer([]) == "" && DetachedItem(v, "", cs) == None
  {
  }

  lemma {:induction false} CopyIsRfc(v: Json, fs: seq<string>, ts: seq<string>, cs: bool)
    requires Clear(v, true) && Meets(Meaning(v), OpCopy(fs, ts), cs)
    ensures var r, w := ApplyOp(v, Coded(OpCopy(fs, ts)), cs), Rfc(Meaning(v), OpCopy(fs, ts));
      Agrees(r, w) && (Get(Meaning(v), fs) == None ==> r == Edited(5, v)) && (w == None ==> r.doc == v)
  {
    hide AddPath, Clear, Meaning, Editable, Changed, Get, AddStatus, Lookup, Followable, Pointer;
    LookupIs(v, fs, cs);
    var item := Lookup(v, Pointer(fs), cs);
    if item.Some? { AddedIs(v, ts, item.value, cs); }
  }

  lemma {:induction false} TestIsRfc(v: Json, ts: seq<string>, x: Json, cs: bool)
    requires Clear(v, true) && Meets(Meaning(v), OpTest(ts, x), cs)
    ensures var r, w := ApplyOp(v, Coded(OpTest(ts, x)), cs), Rfc(Meaning(v), OpTest(ts, x));
      Agrees(r, w) && r == Edited(if w.Some? then 0 else 1, v)
  {
    hide Clear, Meaning, Get, Lookup, Followable, Pointer, CompareJson, Apart;
    LookupIs(v, ts, cs);
    var node := Lookup(v, Pointer(ts), cs);
    if node.Some? {
      ClearParted(node.value, cs);
      CompareMeans(node.value, x, cs);
    }
  }

  /**
   For each of the six operations, apply_patch makes of a document with distinct sibling keys what
   RFC 6902 asks for, and fails where it asks for an error. All that is relied on are keys that
   the code tells apart and restores along the locations named, and a root that stays in place.
   */
  lemma {:induction false} OperationIsRfc(v: Json, o: Operation, cs: bool)
    requires Clear(v, true) && Meets(Meaning(v), o, cs)
    ensures Agrees(ApplyOp(v, Coded(o), cs), Rfc(Meaning(v), o))
  {
    hide AddPath, RemovePath, Clear, Meaning, Editable, Changed, Get, AddStatus, Lookup, Followable, Agrees;
    match o
    case OpAdd(ts, x) => AddIsRfc(v, ts, x, cs);
    case OpRemove(ts) => RemoveIsRfc(v, ts, cs);
    case OpReplace(ts, x) => hide Pointer; ReplaceIsRfc(v, ts, x, cs);
    case OpMove(fs, ts) => MoveIsRfc(v, fs, ts, cs);
    case OpCopy(fs, ts) => CopyIsRfc(v, fs, ts, cs);
    case OpTest(ts, x) => TestIsRfc(v, ts, x, cs);
  }

  /** Adding replaces a member, inserts in front of an element or appends, and reports what is wrong with the location otherwise. */
  lemma {:induction false} AddIsRfc(v: Json, ts: seq<string>, x: Json, cs: bool)
    requires Clear(v, true) && Meets(Meaning(v), OpAdd(ts, x), cs)
    ensures var r, w := ApplyOp(v, Coded(OpAdd(ts, x)), cs), Rfc(Meaning(v), OpAdd(ts, x));
      Agrees(r, w) && (w == None ==> ts != [] && r == Edited(AddStatus(Meaning(v), ts), v))
  {
    hide AddPath, Clear, Meaning, Editable, Changed, AddStatus, Pointer;
    if ts != [] { AddedIs(v, ts, x, cs); }
  }

  lemma {:induction false} RemoveIsRfc(v: Json, ts: seq<string>, cs: bool)
    requires Clear(v, true) && Meets(Meaning(v), OpRemove(ts), cs)
    ensures var r, w := ApplyOp(v, Coded(OpRemove(ts)), cs), Rfc(Meaning(v), OpRemove(ts));
      Agrees(r, w) && (w == None ==> r == Edited(13, v))
  {
    hide RemovePath, Clear, Meaning, Editable, Changed, Pointer;
    RemoveIs(v, ts, cs);
  }

  /** Moving or copying to the root is refused, where the standard replaces the whole document. */
  lemma {:induction false} RootRefused(v: Json, fs: seq<string>, cs: bool)
    ensures ApplyOp(v, Coded(OpMove(fs, [])), cs).status != 0 && ApplyOp(v, Coded(OpCopy(fs, [])), cs).status != 0
    ensures Get(Meaning(v), fs).Some? ==> Rfc(Meaning(v), OpCopy(fs, [])) == Get(Meaning(v), fs)
    ensures fs != [] && Get(Meaning(v), fs).Some? ==> Rfc(Meaning(v), OpMove(fs, [])) == Get(Meaning(v), fs)
  {
    hide Meaning, Get, Lookup, DetachedItem, RemovePath, Changed;
    if fs != [] { GoneExactly(Meaning(v), fs); }
  }

  /** A patch without a path, or with an operation that is none of the six, is refused. */
  lemma MalformedRefused(v: Json, patch: Json, path: string, name: string, cs: bool)
    requires patch.Object? && Told(patch.members, cs)
    ensures (forall m :: m in patch.members ==> Compare("path", m.key, cs) != 0) ==> ApplyPatch(v, patch, cs) == Edited(2, v)
    ensures Member("path", String(path)) in patch.members && Member("op", String(name)) in patch.members
            && name != "add" && name != "remove" && name != "replace" && name != "move" && name != "copy" && name != "test"
            ==> ApplyPatch(v, patch, cs) == Edited(3, v)
  {
    hide Told, ApplyOp, Compare;
    var ms := patch.members;
    if Member("path", String(path)) in ms { ItemIs(ms, Member("path", String(path)), cs); }
    if Member("op", String(name)) in ms { ItemIs(ms, Member("op", String(name)), cs); }
  }

  /** An operation without the member it needs fails with the status for that, and changes nothing. */
  lemma MissingMembers(v: Json, path: string, cs: bool)
    requires path != ""
    ensures ApplyOp(v, PatchOp(Add, path, None, None), cs) == Edited(7, v)
    ensures ApplyOp(v, PatchOp(Move, path, None, None), cs) == Edited(4, v) == ApplyOp(v, PatchOp(Copy, path, None, None), cs)
    ensures ApplyOp(v, PatchOp(Test, path, None, None), cs) == Edited(1, v)
  {
    hide AddPath, RemovePath;
  }

  // ---- lists of operations ----

  /** Section 5: one after the other, until one fails. */
  ghost function RfcAll(v: Value, os: seq<Operation>): Option<Value>
    decreases |os|
  {
    if os == [] then Some(v)
    else if Rfc(v, os[0]) == None then None
    else RfcAll(Rfc(v, os[0]).value, os[1..])
  }

  ghost predicate MeetsAll(v: Value, os: seq<Operation>, cs: bool)
    decreases |os|
  {
    os == [] || (Meets(v, os[0], cs) && (Rfc(v, os[0]).Some? ==> MeetsAll(Rfc(v, os[0]).value, os[1..], cs)))
  }

  // ---- patch documents ----

  /** A patch object that asks for the operation. Its members stand in any order, and there may be more of them. */
  predicate Says(patch: Json, o: Operation, cs: bool)
  {
    && patch.Object? && Told(patch.members, cs)
    && var ms := patch.members;
      && Member("path", String(Pointer(o.path))) in ms
      && match o
         case OpAdd(_, x) => Member("op", String("add")) in ms && Member("value", x) in ms
         case OpRemove(_) => Member("op", String("remove")) in ms
         case OpReplace(_, x) => Member("op", String("replace")) in ms && Member("value", x) in ms
         case OpMove(fs, _) => Member("op", String("move")) in ms && Member("from", String(Pointer(fs))) in ms
         case OpCopy(fs, _) => Member("op", String("copy")) in ms && Member("from", String(Pointer(fs))) in ms
         case OpTest(_, x) => Member("op", String("test")) in ms && Member("value", x) in ms
  }

  /** The two agree in what the operation uses. */
  predicate SameUse(p: PatchOp, q: PatchOp)
  {
    && p.op == q.op && p.path == q.path
    && (p.op == Move || p.op == Copy ==> p.from == q.from)
    && (p.op == Add || p.op == Replace || p.op == Test ==> p.value == q.value)
  }

  lemma SameResult(v: Json, p: PatchOp, q: PatchOp, cs: bool)
    requires SameUse(p, q)
    ensures ApplyOp(v, p, cs) == ApplyOp(v, q, cs)
  {
    hide AddPath, RemovePath, Lookup, DetachedItem, CompareJson;
  }

  lemma ItemIs(ms: seq<Member>, m: Member, cs: bool)
    requires Told(ms, cs) && m in ms
    ensures Item(Object(ms), m.key, cs) == Some(m.value)
  {
    hide Told, Item;
    var i: nat :| i < |ms| && ms[i] == m;
    ItemAt(ms, i, cs);
  }

  lemma {:induction false} SaysDecodes(patch: Json, o: Operation, cs: bool)
    requires Says(patch, o, cs)
    ensures DecodePatch(patch, cs).Good? && SameUse(DecodePatch(patch, cs).p, Coded(o))
  {
    hide Told, Item, Pointer, ReadOp;
    var ms := patch.members;
    NamesRead();
    ItemIs(ms, Member("path", String(Pointer(o.path))), cs);
    match o
    case OpAdd(_, x) => ItemIs(ms, Member("op", String("add")), cs); ItemIs(ms, Member("value", x), cs);
    case OpRemove(_) => ItemIs(ms, Member("op", String("remove")), cs);
    case OpReplace(_, x) => ItemIs(ms, Member("op", String("replace")), cs); ItemIs(ms, Member("value", x), cs);
    case OpMove(fs, _) => ItemIs(ms, Member("op", String("move")), cs); ItemIs(ms, Member("from", String(Pointer(fs))), cs);
    case OpCopy(fs, _) => ItemIs(ms, Member("op", String("copy")), cs); ItemIs(ms, Member("from", String(Pointer(fs))), cs);
    case OpTest(_, x) => ItemIs(ms, Member("op", String("test")), cs); ItemIs(ms, Member("value", x), cs);
  }

  lemma NamesRead()
    ensures ReadOp("add") == Some(Add) && ReadOp("remove") == Some(Remove) && ReadOp("replace") == Some(Replace)
    ensures ReadOp("move") == Some(Move) && ReadOp("copy") == Some(Copy) && ReadOp("test") == Some(Test)
  {
    assert |"add"| == 3 && |"remove"| == 6 && |"replace"| == 7 && |"move"| == 4 && |"copy"| == 4 && |"test"| == 4;
    assert "move"[0] == 'm' && "copy"[0] == 'c' && "test"[0] == 't';
  }

  /** No operation follows a test: testing sorts the lists it compares, and what is added to them later can be lost. */
  predicate TestsLast(os: seq<Operation>)
  {
    forall i :: 0 <= i < |os| - 1 ==> !os[i].OpTest?
  }

  /**
   A whole patch document, as cJSONUtils_ApplyPatches and its case-sensitive twin run it, yields
   the document that RFC 6902 describes, and fails exactly where one of its operations does.
   */
  lemma {:induction false} DocumentIsRfc(v: Json, patches: seq<Json>, os: seq<Operation>, cs: bool)
    requires TestsLast(os)
    requires |patches| == |os| && forall i :: 0 <= i < |os| ==> Says(patches[i], os[i], cs)
    requires Clear(v, true) && MeetsAll(Meaning(v), os, cs)
    ensures Agrees(ApplyPatches(v, Array(patches), cs), RfcAll(Meaning(v), os))
  {
    ListIsRfc(v, patches, os, cs);
  }

  lemma {:induction false} ListIsRfc(v: Json, patches: seq<Json>, os: seq<Operation>, cs: bool)
    requires |patches| == |os| && forall i :: 0 <= i < |os| ==> Says(patches[i], os[i], cs)
    requires Clear(v, true) && MeetsAll(Meaning(v), os, cs)
    ensures Agrees(ApplyPatchList(v, patches, cs), RfcAll(Meaning(v), os))
    decreases |os|
  {
    hide Says, Meets, Rfc, Clear, Meaning, ApplyOp, DecodePatch, SameUse;
    if os != [] {
      SaysDecodes(patches[0], os[0], cs);
      SameResult(v, DecodePatch(patches[0], cs).p, Coded(os[0]), cs);
      OperationIsRfc(v, os[0], cs);
      var r := ApplyPatch(v, patches[0], cs);
      if r.status == 0 { ListIsRfc(r.doc, patches[1..], os[1..], cs); }
    }
  }

  // ---- moving a member ----

  /**
   Moving a member is removing it and adding its value at the target, wherever that is, if the key
   is decodable and no earlier sibling has the same key up to case.
   */
  lemma {:induction false} MoveIsRemoveThenAdd(ms: seq<Member>, i: nat, q: string, cs: bool)
    requires DistinctKeys(ms) && i < |ms| && q != ""
    requires Decodable(ms[i].key) && forall j :: 0 <= j < i ==> Compare(ms[i].key, ms[j].key, false) != 0
    ensures var f, doc := "/" + Encode(ms[i].key), Object(ms);
      var removed := ApplyOp(doc, PatchOp(Remove, f, None, None), cs);
      && removed == Edited(0, Object(RemoveAt(ms, i)))
      && ApplyOp(doc, PatchOp(Move, q, None, Some(f)), cs) == ApplyOp(removed.doc, PatchOp(Add, q, Some(ms[i].value), None), cs)
  {
    hide RemovePath, AddPath, Encode, Decodable, DecodeInPlace, RemoveAt, Lookup;
    var key := ms[i].key;
    RemoveExact(ms, i, cs);
    KeyPath(key);
    LastSlashOf(Encode(key));
    var f := "/" + Encode(key);
    assert f[..0] == "" && f[1..] == Encode(key);
    RootFound(Object(ms), cs);
    CompareSame(key, false);
    assert IndexOf(ms, key, false) == i;
  }

  lemma RootFound(v: Json, cs: bool)
    ensures Lookup(v, "", cs) == Some(v)
  {
    assert NodeAt(v, []) == Some(v);
  }

  /** The keys of an object and this one: decodable, and told apart even ignoring case. */
  ghost predicate Plain(m: map<string, Value>, k: string)
  {
    Decodable(k) && forall l :: l in m ==> Tells(k, l, false)
  }

  /** Moving a member to another key of the same object, whether or not that is there already. */
  lemma {:induction false} MemberMoves(ms: seq<Member>, k: string, l: string, cs: bool)
    requires Clear(Object(ms), true) && k in MembersMeaning(ms) && k != l
    requires Plain(MembersMeaning(ms), k) && Plain(MembersMeaning(ms), l)
    ensures var m := MembersMeaning(ms);
      var r := ApplyOp(Object(ms), Coded(OpMove([k], [l])), cs);
      r.status == 0 && Clear(r.doc, true) && Meaning(r.doc) == VObject((m - {k})[l := m[k]])
  {
    hide ApplyOp, Clear, MembersMeaning, Tells, Decodable;
    var m := MembersMeaning(ms);
    var v := VObject(m);
    assert Meaning(Object(ms)) == v;
    hide Meaning;
    OneStep(v, k);
    OneStep(VObject(m - {k}), l);
    forall n | n in m - {k} ensures Tells(l, n, cs) { TellsEither(l, n, cs); }
    MoveIsRfc(Object(ms), [k], [l], cs);
  }

  /** Copying a member leaves it where it is. */
  lemma {:induction false} MemberCopies(ms: seq<Member>, k: string, l: string, cs: bool)
    requires Clear(Object(ms), true) && k in MembersMeaning(ms) && k != l
    requires Plain(MembersMeaning(ms), k) && Plain(MembersMeaning(ms), l)
    ensures var m := MembersMeaning(ms);
      var r := ApplyOp(Object(ms), Coded(OpCopy([k], [l])), cs);
      r.status == 0 && Clear(r.doc, true) && Meaning(r.doc) == VObject(m[l := m[k]])
  {
    hide ApplyOp, Clear, MembersMeaning, Tells, Decodable;
    var m := MembersMeaning(ms);
    var v := VObject(m);
    assert Meaning(Object(ms)) == v;
    hide Meaning;
    OneStep(v, k);
    OneStep(v, l);
    forall n | n in m ensures Tells(l, n, cs) && Tells(n, k, cs) {
      TellsEither(l, n, cs);
      TellsFlip(k, n, false);
      TellsEither(n, k, cs);
    }
    CopyIsRfc(Object(ms), [k], [l], cs);
  }

  lemma OneStep(v: Value, t: string)
    ensures Get(v, [t]) == ValueOf(v, t) && forall e :: Changed(v, [t], e) == ChangeChild(v, t, e)
    ensures forall cs, last :: Editable(v, [t], cs, last) == Changeable(v, t, last)
    ensures forall cs :: Followable(v, [t], cs) == Passable(v, t, cs)
  {
    hide ValueOf, ChangeChild, Changeable, Passable;
    assert [t][1..] == [];
  }

  /** Of two keys that differ in case only, moving the second one takes the value of the first along. */
  lemma {:induction false} WrongMemberMoved(k: string, l: string, x: Json, y: Json, cs: bool)
    requires k != l && Compare(l, k, false) == 0 && Decodable(l)
    ensures var doc := Object([Member(k, x), Member(l, y)]);
      ApplyOp(doc, PatchOp(Move, "/to", None, Some("/" + Encode(l))), cs)
      == ApplyOp(Object([Member(l, y)]), PatchOp(Add, "/to", Some(x), None), cs)
  {
    hide RemovePath, AddPath, Encode, Decodable, DecodeInPlace, Lookup, Compare;
    var ms := [Member(k, x), Member(l, y)];
    KeyPath(l);
    LastSlashOf(Encode(l));
    var f := "/" + Encode(l);
    assert f[..0] == "" && f[1..] == Encode(l);
    RootFound(Object(ms), cs);
    EditHere(Object(ms), Encode(l), cs);
    assert IndexOf(ms, l, false) == 0;
    assert RemoveAt(ms, 0) == [Member(l, y)];
  }
}
