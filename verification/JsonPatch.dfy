/**
 create_patches, and the proof that applying its patches to a duplicate of `from` yields `to`
 up to member order.
 */
module JsonPatch {
  import opened Json
  import opened JsonTree
  import opened JsonMeaning
  import opened JsonParse
  import opened JsonRoundTrip
  import opened JsonPointer
  import opened JsonCompare
  import opened JsonEdit

  // ---- generation ----

  function Op(op: Opcode, path: string, value: Option<Json>): PatchOp
  {
    PatchOp(op, path, value, None)
  }

  function Replacement(path: string, to: Json): PatchOp
  {
    Op(Replace, path, Some(to))
  }

  /** cJSON_True and cJSON_False are different types. */
  predicate SameType(a: Json, b: Json)
  {
    match a
    case Null => b.Null?
    case Bool(x) => b == a
    case Int(_) => b.Int?
    case String(_) => b.String?
    case Array(_) => b.Array?
    case Object(_) => b.Object?
  }

  function Suffixed(path: string, suffix: string): string
  {
    path + "/" + Encode(suffix)
  }

  function Patches(path: string, from: Json, to: Json, cs: bool): seq<PatchOp>
    decreases Nesting(from), 0, 0
  {
    if !SameType(from, to) then [Replacement(path, to)]
    else
      match from
      case Int(n) => if n != to.n then [Replacement(path, to)] else []
      case String(s) => if s != to.s then [Replacement(path, to)] else []
      case Array(items) => ItemPatches(path, items, to.items, 0, cs)
      case Object(ms) =>
        SortNesting(ms, cs);
        MemberPatches(path, SortMembers(ms, cs), SortMembers(to.members, cs), cs)
      case _ => []
  }

  /** Elements from position `index` on: common ones are compared, the rest removed or appended. */
  function ItemPatches(path: string, fs: seq<Json>, ts: seq<Json>, index: nat, cs: bool): seq<PatchOp>
    decreases ItemsNesting(fs), 1, |fs| + |ts|
  {
    if fs != [] && ts != [] then
      Patches(path + "/" + Digits(index), fs[0], ts[0], cs) + ItemPatches(path, fs[1..], ts[1..], index + 1, cs)
    else if fs != [] then
      [Op(Remove, Suffixed(path, Digits(index)), None)] + ItemPatches(path, fs[1..], [], index, cs)
    else if ts != [] then
      [Op(Add, Suffixed(path, "-"), Some(ts[0]))] + ItemPatches(path, [], ts[1..], index + 1, cs)
    else []
  }

  /** The walk along two sorted member lists. */
  function MemberPatches(path: string, fs: seq<Member>, ts: seq<Member>, cs: bool): seq<PatchOp>
    decreases MembersNesting(fs), 1, |fs| + |ts|
  {
    if fs == [] && ts == [] then []
    else
      var diff := if fs == [] then 1 else if ts == [] then -1 else Compare(fs[0].key, ts[0].key, cs);
      if diff == 0 then
        Patches(Suffixed(path, fs[0].key), fs[0].value, ts[0].value, cs) + MemberPatches(path, fs[1..], ts[1..], cs)
      else if diff < 0 then
        [Op(Remove, Suffixed(path, fs[0].key), None)] + MemberPatches(path, fs[1..], ts, cs)
      else
        [Op(Add, Suffixed(path, ts[0].key), Some(ts[0].value))] + MemberPatches(path, fs, ts[1..], cs)
  }

  // ---- paths ----

  function Lift(prefix: string, ps: seq<PatchOp>): (r: seq<PatchOp>)
    ensures |r| == |ps| && forall i :: 0 <= i < |ps| ==> r[i] == ps[i].(path := prefix + ps[i].path)
  {
    seq(|ps|, i requires 0 <= i < |ps| => ps[i].(path := prefix + ps[i].path))
  }

  lemma LiftConcat(prefix: string, a: seq<PatchOp>, b: seq<PatchOp>)
    ensures Lift(prefix, a + b) == Lift(prefix, a) + Lift(prefix, b)
  {
  }

  lemma LiftTwice(p: string, q: string, ps: seq<PatchOp>)
    ensures Lift(p, Lift(q, ps)) == Lift(p + q, ps)
  {
    forall i | 0 <= i < |ps| ensures Lift(p, Lift(q, ps))[i] == Lift(p + q, ps)[i] {
      assert p + (q + ps[i].path) == (p + q) + ps[i].path;
    }
  }

  lemma LiftOne(p: string, o: PatchOp)
    ensures Lift(p, [o]) == [o.(path := p + o.path)]
  {
  }

  /** Patches below a path are the patches below the root with the path in front. */
  lemma {:induction false} PatchesLift(path: string, from: Json, to: Json, cs: bool)
    ensures Patches(path, from, to, cs) == Lift(path, Patches("", from, to, cs))
    decreases Nesting(from), 0, 0
  {
    if SameType(from, to) && from.Array? {
      ItemPatchesLift(path, from.items, to.items, 0, cs);
    } else if SameType(from, to) && from.Object? {
      SortNesting(from.members, cs);
      MemberPatchesLift(path, SortMembers(from.members, cs), SortMembers(to.members, cs), cs);
    } else {
      LiftOne(path, Replacement("", to));
      assert path + "" == path;
    }
  }

  /** The same for a path one step longer. */
  lemma {:induction false} ChildPatchesLift(path: string, step: string, from: Json, to: Json, cs: bool)
    ensures Patches(path + step, from, to, cs) == Lift(path, Patches("" + step, from, to, cs))
    decreases Nesting(from), 0, 1
  {
    hide Patches;
    PatchesLift(path + step, from, to, cs);
    PatchesLift(step, from, to, cs);
    LiftTwice(path, step, Patches("", from, to, cs));
    assert "" + step == step;
  }

  lemma {:induction false} ItemPatchesLift(path: string, fs: seq<Json>, ts: seq<Json>, index: nat, cs: bool)
    ensures ItemPatches(path, fs, ts, index, cs) == Lift(path, ItemPatches("", fs, ts, index, cs))
    decreases ItemsNesting(fs), 1, |fs| + |ts|
  {
    hide Patches, Digits, Encode;
    if fs != [] && ts != [] {
      var step := "/" + Digits(index);
      ChildPatchesLift(path, step, fs[0], ts[0], cs);
      assert path + "/" + Digits(index) == path + step && "" + "/" + Digits(index) == "" + step;
      ItemPatchesLift(path, fs[1..], ts[1..], index + 1, cs);
      LiftConcat(path, Patches("" + step, fs[0], ts[0], cs), ItemPatches("", fs[1..], ts[1..], index + 1, cs));
    } else if fs != [] {
      var o := Op(Remove, Suffixed("", Digits(index)), None);
      SuffixedLift(path, Digits(index));
      LiftOne(path, o);
      ItemPatchesLift(path, fs[1..], [], index, cs);
      LiftConcat(path, [o], ItemPatches("", fs[1..], [], index, cs));
    } else if ts != [] {
      var o := Op(Add, Suffixed("", "-"), Some(ts[0]));
      SuffixedLift(path, "-");
      LiftOne(path, o);
      ItemPatchesLift(path, [], ts[1..], index + 1, cs);
      LiftConcat(path, [o], ItemPatches("", [], ts[1..], index + 1, cs));
    }
  }

  lemma SuffixedLift(path: string, suffix: string)
    ensures Suffixed(path, suffix) == path + Suffixed("", suffix)
    ensures Suffixed("", suffix) == "/" + Encode(suffix)
  {
    hide Encode;
  }

  lemma {:induction false} MemberPatchesLift(path: string, fs: seq<Member>, ts: seq<Member>, cs: bool)
    ensures MemberPatches(path, fs, ts, cs) == Lift(path, MemberPatches("", fs, ts, cs))
    decreases MembersNesting(fs), 1, |fs| + |ts|
  {
    hide Patches, Encode, Suffixed, Compare;
    if fs == [] && ts == [] {
    } else {
      var diff := if fs == [] then 1 else if ts == [] then -1 else Compare(fs[0].key, ts[0].key, cs);
      if diff == 0 {
        SuffixedLift(path, fs[0].key);
        var step := Suffixed("", fs[0].key);
        ChildPatchesLift(path, step, fs[0].value, ts[0].value, cs);
        assert "" + step == step;
        MemberPatchesLift(path, fs[1..], ts[1..], cs);
        LiftConcat(path, Patches(step, fs[0].value, ts[0].value, cs), MemberPatches("", fs[1..], ts[1..], cs));
      } else if diff < 0 {
        var o := Op(Remove, Suffixed("", fs[0].key), None);
        SuffixedLift(path, fs[0].key);
        LiftOne(path, o);
        MemberPatchesLift(path, fs[1..], ts, cs);
        LiftConcat(path, [o], MemberPatches("", fs[1..], ts, cs));
      } else {
        var o := Op(Add, Suffixed("", ts[0].key), Some(ts[0].value));
        SuffixedLift(path, ts[0].key);
        LiftOne(path, o);
        MemberPatchesLift(path, fs, ts[1..], cs);
        LiftConcat(path, [o], MemberPatches("", fs, ts[1..], cs));
      }
    }
  }

  // ---- applying a patch to one child ----

  lemma LastSlashIs(p: string, i: nat)
    requires 0 < i <= |p| && p[i - 1] == '/' && forall j :: i <= j < |p| ==> p[j] != '/'
    ensures AfterLastSlash(p) == i
  {
    var k := AfterLastSlash(p);
    if k < i { assert false; }
  }

  lemma LastSlashBehind(a: string, q: string)
    requires AfterLastSlash(q) > 0
    ensures AfterLastSlash(a + q) == |a| + AfterLastSlash(q)
  {
    var i := AfterLastSlash(q);
    var p := a + q;
    forall j | |a| + i <= j < |p| ensures p[j] != '/' {
      assert p[j] == q[j - |a|] == q[i..][j - |a| - i];
    }
    LastSlashIs(p, |a| + i);
  }

  lemma LastSlashOf(t: string)
    requires '/' !in t
    ensures AfterLastSlash("/" + t) == 1
  {
    LastSlashIs("/" + t, 1);
  }

  lemma EditStep(v: Json, e: string, k: nat, rest: string, edit: Edit, cs: bool)
    requires k < Children(v) && Child(v, e, cs) == Some(k) && RestOf(e) == rest
    requires EditAt(ChildAt(v, k), rest, edit, cs).status == 0
    ensures EditAt(v, "/" + e, edit, cs) == Edited(0, WithChild(v, k, EditAt(ChildAt(v, k), rest, edit, cs).doc))
  {
    hide Child, RestOf, WithChild;
    assert ("/" + e)[1..] == e;
  }

  /** An edit below child k is the edit of child k. */
  lemma EditLifted(v: Json, k: nat, q: string, edit: Edit, cs: bool)
    requires Nameable(v, cs) && k < Children(v) && AtEnd(q)
    requires EditAt(ChildAt(v, k), q, edit, cs).status == 0
    ensures EditAt(v, "/" + Element(v, k) + q, edit, cs) == Edited(0, WithChild(v, k, EditAt(ChildAt(v, k), q, edit, cs).doc))
  {
    hide EditAt, WithChild, Child, RestOf, Element, Nameable, ChildAt;
    ElementNames(v, k, q, cs);
    assert "/" + Element(v, k) + q == "/" + (Element(v, k) + q);
    EditStep(v, Element(v, k) + q, k, q, edit, cs);
  }

  /** Path texts as create_patches builds them. */
  predicate Rooted(q: string)
  {
    q != "" && q[0] == '/'
  }

  lemma RootedSplit(q: string)
    requires Rooted(q)
    ensures AfterLastSlash(q) > 0 && AtEnd(q[..AfterLastSlash(q) - 1])
  {
    var i := AfterLastSlash(q);
    if i == 0 { assert false; }
    var front := q[..i - 1];
    assert front != "" ==> front[0] == q[0];
  }

  lemma ParentLifted(a: string, q: string)
    requires Rooted(q)
    ensures var i, j := AfterLastSlash(q), AfterLastSlash(a + q);
      j == |a| + i > 0 && i > 0 && (a + q)[..j - 1] == a + q[..i - 1] && (a + q)[j..] == q[i..]
  {
    RootedSplit(q);
    LastSlashBehind(a, q);
  }

  lemma RemoveLifted(v: Json, k: nat, q: string, cs: bool)
    requires Nameable(v, cs) && k < Children(v) && Rooted(q)
    requires RemovePath(ChildAt(v, k), q, cs).status == 0
    ensures RemovePath(v, "/" + Element(v, k) + q, cs) == Edited(0, WithChild(v, k, RemovePath(ChildAt(v, k), q, cs).doc))
  {
    hide EditAt, WithChild, Element, ChildAt, Nameable, DecodeInPlace;
    var a := "/" + Element(v, k);
    RootedSplit(q);
    ParentLifted(a, q);
    var i := AfterLastSlash(q);
    EditLifted(v, k, q[..i - 1], Detach(DecodeInPlace(q[i..])), cs);
  }

  lemma AddLifted(v: Json, k: nat, q: string, x: Json, cs: bool)
    requires Nameable(v, cs) && k < Children(v) && Rooted(q)
    requires AddPath(ChildAt(v, k), q, x, cs).status == 0
    ensures AddPath(v, "/" + Element(v, k) + q, x, cs) == Edited(0, WithChild(v, k, AddPath(ChildAt(v, k), q, x, cs).doc))
  {
    hide EditAt, WithChild, Element, ChildAt, Nameable, DecodeInPlace;
    var a := "/" + Element(v, k);
    RootedSplit(q);
    ParentLifted(a, q);
    var i := AfterLastSlash(q);
    EditLifted(v, k, q[..i - 1], Insert(DecodeInPlace(q[i..]), x), cs);
  }

  /** Replacing a child changes neither the names nor the number of children. */
  lemma WithChildKeeps(v: Json, k: nat, c: Json, cs: bool)
    requires k < Children(v)
    ensures var w := WithChild(v, k, c);
      && Children(w) == Children(v) && Element(w, k) == Element(v, k) && ChildAt(w, k) == c
      && (Nameable(v, cs) ==> Nameable(w, cs))
      && forall d :: WithChild(w, k, d) == WithChild(v, k, d)
  {
  }

  predicate Basic(p: PatchOp)
  {
    p.op == Remove || ((p.op == Add || p.op == Replace) && p.value.Some?)
  }

  /** One operation below child k is that operation on child k. */
  lemma OpLifted(v: Json, k: nat, p: PatchOp, cs: bool)
    requires Nameable(v, cs) && k < Children(v) && Rooted(p.path) && Basic(p)
    requires ApplyOp(ChildAt(v, k), p, cs).status == 0
    ensures ApplyOp(v, p.(path := "/" + Element(v, k) + p.path), cs) ==
            Edited(0, WithChild(v, k, ApplyOp(ChildAt(v, k), p, cs).doc))
  {
    hide RemovePath, AddPath, WithChild, Element, ChildAt, Nameable;
    var q := p.path;
    if p.op == Remove {
      RemoveLifted(v, k, q, cs);
    } else if p.op == Add {
      AddLifted(v, k, q, p.value.value, cs);
    } else {
      RemoveLifted(v, k, q, cs);
      var c := RemovePath(ChildAt(v, k), q, cs).doc;
      var w := WithChild(v, k, c);
      WithChildKeeps(v, k, c, cs);
      AddLifted(w, k, q, p.value.value, cs);
    }
  }

  /** A list of operations below child k is that list on child k. */
  lemma {:induction false} AllLifted(v: Json, k: nat, ps: seq<PatchOp>, cs: bool)
    requires Nameable(v, cs) && k < Children(v)
    requires forall i :: 0 <= i < |ps| ==> Rooted(ps[i].path) && Basic(ps[i])
    requires ApplyAll(ChildAt(v, k), ps, cs).status == 0
    ensures ApplyAll(v, Lift("/" + Element(v, k), ps), cs) == Edited(0, WithChild(v, k, ApplyAll(ChildAt(v, k), ps, cs).doc))
    decreases |ps|
  {
    hide ApplyOp, Element, Rooted, Basic, Nameable;
    var e := "/" + Element(v, k);
    if ps == [] {
      assert WithChild(v, k, ChildAt(v, k)) == v;
    } else {
      hide WithChild, ChildAt;
      var c := ApplyOp(ChildAt(v, k), ps[0], cs).doc;
      OpLifted(v, k, ps[0], cs);
      var w := WithChild(v, k, c);
      WithChildKeeps(v, k, c, cs);
      AllLifted(w, k, ps[1..], cs);
      assert Lift(e, ps)[1..] == Lift(e, ps[1..]);
    }
  }

  // ---- single operations on arrays and objects ----

  lemma DigitsPlain(n: nat)
    requires n < SIZE_LIMIT
    ensures Encode(Digits(n)) == Digits(n) && '/' !in Digits(n) && DecodeInPlace(Digits(n)) == Digits(n)
    ensures DecodeIndex(Digits(n)) == Some(n) && Digits(n) != "-"
  {
    hide Digits;
    DigitsRoundTrip(n);
    var t := Digits(n);
    IndexRoundTrip(n, "");
    assert t + "" == t;
    assert '~' !in t && '/' !in t && t[0] != '-';
    EncodePlain(t);
    DecodePlain(t, 0);
  }

  /** An edit right below the root. */
  lemma EditHere(v: Json, t: string, cs: bool)
    requires '/' !in t
    ensures RemovePath(v, "/" + t, cs) == Perform(v, Detach(DecodeInPlace(t)), cs)
    ensures forall x :: AddPath(v, "/" + t, x, cs) == Perform(v, Insert(DecodeInPlace(t), x), cs)
  {
    hide Perform, DecodeInPlace;
    var p := "/" + t;
    LastSlashOf(t);
    assert p[..0] == "" && p[1..] == t;
  }

  lemma ArrayRemove(items: seq<Json>, k: nat, cs: bool)
    requires k < |items| <= SIZE_LIMIT
    ensures RemovePath(Array(items), "/" + Digits(k), cs) == Edited(0, Array(RemoveAt(items, k)))
  {
    hide Digits, DecodeInPlace, DecodeIndex;
    DigitsPlain(k);
    EditHere(Array(items), Digits(k), cs);
  }

  lemma ArrayInsert(items: seq<Json>, k: nat, x: Json, cs: bool)
    requires k <= |items| && k < SIZE_LIMIT
    ensures AddPath(Array(items), "/" + Digits(k), x, cs) == Edited(0, Array(InsertAt(items, k, x)))
  {
    hide Digits, DecodeInPlace, DecodeIndex;
    DigitsPlain(k);
    EditHere(Array(items), Digits(k), cs);
  }

  lemma ArrayAppend(items: seq<Json>, x: Json, cs: bool)
    ensures AddPath(Array(items), "/-", x, cs) == Edited(0, Array(items + [x]))
  {
    DecodePlain("-", 0);
    EditHere(Array(items), "-", cs);
    assert "/" + "-" == "/-";
  }

  /** Keys that patches can name: decodable, and different even ignoring case. */
  predicate TidyKeys(ms: seq<Member>)
  {
    Told(ms, false) && forall i :: 0 <= i < |ms| ==> Decodable(ms[i].key)
  }

  /** A key that is in the list or differs from its keys even ignoring case. */
  predicate ToldFrom(key: string, ms: seq<Member>)
  {
    forall i :: 0 <= i < |ms| ==> Tells(key, ms[i].key, false)
  }

  lemma TidyTold(ms: seq<Member>, cs: bool)
    requires TidyKeys(ms)
    ensures Told(ms, cs)
  {
    hide Tells, Decodable;
    forall i, j | 0 <= i < |ms| && 0 <= j < |ms| ensures Tells(ms[i].key, ms[j].key, cs) {
      TellsEither(ms[i].key, ms[j].key, cs);
    }
  }

  lemma KeyPath(key: string)
    requires Decodable(key)
    ensures '/' !in Encode(key) && DecodeInPlace(Encode(key)) == key
  {
    EncodeNoSlash(key);
    DecodeExact(key);
  }

  lemma FindKey(ms: seq<Member>, i: nat, cs: bool)
    requires TidyKeys(ms) && i < |ms|
    ensures IndexOf(ms, ms[i].key, cs) == i
  {
    TidyTold(ms, cs);
    IndexOfKey(ms, ms[i].key, cs);
  }

  lemma NoKey(ms: seq<Member>, key: string, cs: bool)
    requires ToldFrom(key, ms) && !HasKey(ms, key)
    ensures IndexOf(ms, key, cs) == |ms|
  {
    forall i | 0 <= i < |ms| ensures Tells(key, ms[i].key, cs) { TellsEither(key, ms[i].key, cs); }
    IndexOfKey(ms, key, cs);
  }

  lemma TidyRemoved(ms: seq<Member>, i: nat)
    requires TidyKeys(ms) && i < |ms|
    ensures TidyKeys(RemoveAt(ms, i)) && !HasKey(RemoveAt(ms, i), ms[i].key)
    ensures forall m :: m in RemoveAt(ms, i) ==> m in ms
  {
    hide Decodable, Tells;
    RemoveDistinct(ms, i);
    var ns := RemoveAt(ms, i);
    hide RemoveAt;
    forall k | 0 <= k < |ns| ensures ns[k] in ms && ns[k].key != ms[i].key {
      var j := if k < i then k else k + 1;
      assert ns[k] == ms[j];
      DistinctAt(ms, i, j);
    }
    ToldAmong(ms, ns);
  }

  lemma ToldAmong(ms: seq<Member>, ns: seq<Member>)
    requires Told(ms, false) && DistinctKeys(ns) && forall m :: m in ns ==> m in ms
    ensures Told(ns, false)
  {
    hide Tells, DistinctKeys;
    forall k, l | 0 <= k < |ns| && 0 <= l < |ns| ensures Tells(ns[k].key, ns[l].key, false) {
      assert ns[k] in ms && ns[l] in ms;
    }
  }

  lemma TidyAppended(ms: seq<Member>, key: string, x: Json)
    requires TidyKeys(ms) && Decodable(key) && ToldFrom(key, ms) && !HasKey(ms, key)
    ensures TidyKeys(ms + [Member(key, x)])
  {
    hide Decodable, Meaning, MembersMeaning, HasKey, DistinctKeys, Tells;
    MeaningAppend(ms, key, x);
    forall i | 0 <= i < |ms| ensures Tells(ms[i].key, key, false) { TellsFlip(key, ms[i].key, false); }
    TellsFlip(key, key, false);
  }

  lemma ObjectRemove(ms: seq<Member>, i: nat, cs: bool)
    requires TidyKeys(ms) && i < |ms|
    ensures RemovePath(Object(ms), "/" + Encode(ms[i].key), cs) == Edited(0, Object(RemoveAt(ms, i)))
    ensures TidyKeys(RemoveAt(ms, i)) && MembersMeaning(RemoveAt(ms, i)) == MembersMeaning(ms) - {ms[i].key}
  {
    hide DecodeInPlace, Encode, Decodable, Tells, MembersMeaning, RemoveAt, IndexOf, HasKey, DistinctKeys, RemovePath;
    KeyPath(ms[i].key);
    EditHere(Object(ms), Encode(ms[i].key), cs);
    FindKey(ms, i, false);
    MeaningRemove(ms, i);
    TidyRemoved(ms, i);
  }

  /**
   Removing a member by its key removes exactly that member if and only if the key is decodable
   and no earlier sibling has the same key up to case: detaching never regards case.
   */
  lemma {:induction false} RemoveExact(ms: seq<Member>, i: nat, cs: bool)
    requires DistinctKeys(ms) && i < |ms|
    ensures RemovePath(Object(ms), "/" + Encode(ms[i].key), cs) == Edited(0, Object(RemoveAt(ms, i)))
       <==> Decodable(ms[i].key) && forall j :: 0 <= j < i ==> Compare(ms[i].key, ms[j].key, false) != 0
  {
    hide DecodeInPlace, Encode, Decodable, RemoveAt, RemovePath;
    var key := ms[i].key;
    EncodeNoSlash(key);
    DecodeExact(key);
    DecodedTells(key);
    EditHere(Object(ms), Encode(key), cs);
    CompareSame(key, false);
    var j := IndexOf(ms, DecodeInPlace(Encode(key)), false);
    if j < |ms| && j != i { RemovedDiffer(ms, j, i); }
  }

  lemma RemovedDiffer(ms: seq<Member>, j: nat, i: nat)
    requires DistinctKeys(ms) && j < |ms| && i < |ms| && i != j
    ensures RemoveAt(ms, j) != RemoveAt(ms, i)
  {
    if j < i {
      assert RemoveAt(ms, j)[j] == ms[j + 1] && RemoveAt(ms, i)[j] == ms[j];
    } else {
      assert RemoveAt(ms, i)[i] == ms[i + 1] && RemoveAt(ms, j)[i] == ms[i];
    }
  }

  lemma TidyDistinct(ms: seq<Member>)
    requires TidyKeys(ms)
    ensures DistinctKeys(ms)
  {
  }

  /** Adding a member, whether or not its key is there already. */
  lemma ObjectAdd(ms: seq<Member>, key: string, x: Json, cs: bool) returns (ns: seq<Member>)
    requires TidyKeys(ms) && Decodable(key) && ToldFrom(key, ms)
    ensures AddPath(Object(ms), "/" + Encode(key), x, cs) == Edited(0, Object(ns))
    ensures TidyKeys(ns) && MembersMeaning(ns) == MembersMeaning(ms)[key := Meaning(x)]
    ensures forall m :: m in ns ==> m == Member(key, x) || m in ms
  {
    hide DecodeInPlace, Encode, Decodable, Tells, TidyKeys, MembersMeaning, Meaning, DistinctKeys, AddPath, Without, HasKey;
    KeyPath(key);
    EditHere(Object(ms), Encode(key), cs);
    PerformInsert(ms, key, x, cs);
    WithoutKey(ms, key, cs);
    var rest := Without(ms, key, cs);
    ns := rest + [Member(key, x)];
    TidyDistinct(rest);
    MeaningAppend(rest, key, x);
    assert ToldFrom(key, rest) by { hide Tells; ToldFromFewer(key, ms, rest); }
    TidyAppended(rest, key, x);
    assert (MembersMeaning(ms) - {key})[key := Meaning(x)] == MembersMeaning(ms)[key := Meaning(x)];
  }

  lemma ToldFromFewer(key: string, ms: seq<Member>, ns: seq<Member>)
    requires ToldFrom(key, ms) && forall m :: m in ns ==> m in ms
    ensures ToldFrom(key, ns)
  {
    forall i | 0 <= i < |ns| ensures Tells(key, ns[i].key, false) { assert ns[i] in ms; }
  }

  /** The members after the deletion in front of an insertion. */
  function Without(ms: seq<Member>, key: string, cs: bool): seq<Member>
  {
    var i := IndexOf(ms, key, cs);
    if i < |ms| then RemoveAt(ms, i) else ms
  }

  lemma PerformInsert(ms: seq<Member>, key: string, x: Json, cs: bool)
    ensures Perform(Object(ms), Insert(key, x), cs) == Edited(0, Object(Without(ms, key, cs) + [Member(key, x)]))
  {
    hide IndexOf, RemoveAt;
  }

  lemma WithoutKey(ms: seq<Member>, key: string, cs: bool)
    requires TidyKeys(ms) && ToldFrom(key, ms)
    ensures var rest := Without(ms, key, cs);
      && TidyKeys(rest) && !HasKey(rest, key) && MembersMeaning(rest) == MembersMeaning(ms) - {key}
      && forall m :: m in rest ==> m in ms
  {
    hide Decodable, Tells, TidyKeys, MembersMeaning, RemoveAt, IndexOf, DistinctKeys;
    TidyDistinct(ms);
    if HasKey(ms, key) {
      var i :| 0 <= i < |ms| && ms[i].key == key;
      hide HasKey;
      FindKey(ms, i, cs);
      MeaningRemove(ms, i);
      TidyRemoved(ms, i);
    } else {
      NoKey(ms, key, cs);
      assert key !in MembersMeaning(ms);
    }
  }

  // ---- shape of the patches ----

  predicate Below(ps: seq<PatchOp>)
  {
    forall i :: 0 <= i < |ps| ==> Rooted(ps[i].path) && Basic(ps[i])
  }

  predicate AllBasic(ps: seq<PatchOp>)
  {
    forall i :: 0 <= i < |ps| ==> Basic(ps[i])
  }

  lemma LiftBelow(step: string, ps: seq<PatchOp>)
    requires Rooted(step) && AllBasic(ps)
    ensures Below(Lift(step, ps))
  {
  }

  /** Either one replacement of the root, or operations below it. */
  lemma {:induction false} PatchesShape(from: Json, to: Json, cs: bool)
    ensures var ps := Patches("", from, to, cs); AllBasic(ps) && (ps == [Replacement("", to)] || Below(ps))
    decreases Nesting(from), 0, 0
  {
    if SameType(from, to) && from.Array? {
      ItemPatchesShape(from.items, to.items, 0, cs);
    } else if SameType(from, to) && from.Object? {
      SortNesting(from.members, cs);
      MemberPatchesShape(SortMembers(from.members, cs), SortMembers(to.members, cs), cs);
    }
  }

  lemma {:induction false} StepShape(step: string, from: Json, to: Json, cs: bool)
    requires Rooted(step)
    ensures Below(Patches(step, from, to, cs))
    decreases Nesting(from), 0, 1
  {
    hide Patches, Rooted, Basic;
    PatchesShape(from, to, cs);
    PatchesLift(step, from, to, cs);
    LiftBelow(step, Patches("", from, to, cs));
  }

  lemma {:induction false} ItemPatchesShape(fs: seq<Json>, ts: seq<Json>, index: nat, cs: bool)
    ensures Below(ItemPatches("", fs, ts, index, cs))
    decreases ItemsNesting(fs), 1, |fs| + |ts|
  {
    hide Patches, Digits, Encode;
    if fs != [] && ts != [] {
      var step := "" + "/" + Digits(index);
      assert step[0] == '/';
      StepShape(step, fs[0], ts[0], cs);
      ItemPatchesShape(fs[1..], ts[1..], index + 1, cs);
    } else if fs != [] {
      SuffixedLift("", Digits(index));
      ItemPatchesShape(fs[1..], [], index, cs);
    } else if ts != [] {
      SuffixedLift("", "-");
      ItemPatchesShape([], ts[1..], index + 1, cs);
    }
  }

  lemma {:induction false} MemberPatchesShape(fs: seq<Member>, ts: seq<Member>, cs: bool)
    ensures Below(MemberPatches("", fs, ts, cs))
    decreases MembersNesting(fs), 1, |fs| + |ts|
  {
    hide Patches, Encode, Compare;
    if fs == [] && ts == [] {
    } else {
      var diff := if fs == [] then 1 else if ts == [] then -1 else Compare(fs[0].key, ts[0].key, cs);
      if diff == 0 {
        SuffixedLift("", fs[0].key);
        StepShape(Suffixed("", fs[0].key), fs[0].value, ts[0].value, cs);
        MemberPatchesShape(fs[1..], ts[1..], cs);
      } else if diff < 0 {
        SuffixedLift("", fs[0].key);
        MemberPatchesShape(fs[1..], ts, cs);
      } else {
        SuffixedLift("", ts[0].key);
        MemberPatchesShape(fs, ts[1..], cs);
      }
    }
  }

  // ---- diff, then apply ----

  /** Trees whose nodes patches can name. */
  predicate Tidy(v: Json)
    decreases v
  {
    match v
    case Array(items) => |items| <= SIZE_LIMIT && forall i :: 0 <= i < |items| ==> Tidy(items[i])
    case Object(ms) => TidyKeys(ms) && forall i :: 0 <= i < |ms| ==> Tidy(ms[i].value)
    case _ => true
  }

  ghost predicate Becomes(doc: Json, ps: seq<PatchOp>, to: Json, cs: bool)
  {
    var r := ApplyAll(doc, ps, cs);
    r.status == 0 && Tidy(r.doc) && Meaning(r.doc) == Meaning(to)
  }

  lemma ApplySingle(doc: Json, p: PatchOp, cs: bool)
    ensures ApplyAll(doc, [p], cs) == ApplyOp(doc, p, cs)
  {
    hide ApplyOp;
    var r := ApplyOp(doc, p, cs);
    assert [p][1..] == [];
    assert ApplyAll(r.doc, [], cs) == Edited(0, r.doc);
  }

  /** The child's patches, sent to the child through its array. */
  lemma {:induction false} ArrayChild(items: seq<Json>, k: nat, f: Json, t: Json, cs: bool) returns (c: Json)
    requires k < |items| <= SIZE_LIMIT && Becomes(items[k], Patches("", f, t, cs), t, cs)
    ensures Tidy(c) && Meaning(c) == Meaning(t)
    ensures ApplyAll(Array(items), Patches("/" + Digits(k), f, t, cs), cs) == Edited(0, Array(items[k := c]))
  {
    hide Patches, Digits, Tidy, Meaning;
    var ps := Patches("", f, t, cs);
    var step := "/" + Digits(k);
    c := ApplyAll(items[k], ps, cs).doc;
    PatchesLift(step, f, t, cs);
    PatchesShape(f, t, cs);
    if Below(ps) {
      AllLifted(Array(items), k, ps, cs);
    } else {
      hide ApplyAll;
      ApplySingle(items[k], ps[0], cs);
      LiftOne(step, ps[0]);
      assert step + "" == step;
      ArrayReplace(items, k, t, cs);
      ApplySingle(Array(items), Replacement(step, t), cs);
    }
  }

  lemma ArrayReplace(items: seq<Json>, k: nat, x: Json, cs: bool)
    requires k < |items| <= SIZE_LIMIT
    ensures ApplyOp(Array(items), Replacement("/" + Digits(k), x), cs) == Edited(0, Array(items[k := x]))
  {
    hide Digits, RemovePath, AddPath;
    ArrayRemove(items, k, cs);
    ArrayInsert(RemoveAt(items, k), k, x, cs);
    assert InsertAt(RemoveAt(items, k), k, x) == items[k := x];
  }

  /** The child's patches, sent to the child through its object. */
  lemma {:induction false} ObjectChild(ms: seq<Member>, i: nat, f: Json, t: Json, cs: bool) returns (ns: seq<Member>, c: Json)
    requires i < |ms| && TidyKeys(ms) && Becomes(ms[i].value, Patches("", f, t, cs), t, cs)
    ensures ApplyAll(Object(ms), Patches("/" + Encode(ms[i].key), f, t, cs), cs) == Edited(0, Object(ns))
    ensures TidyKeys(ns) && MembersMeaning(ns) == MembersMeaning(ms)[ms[i].key := Meaning(t)]
    ensures Tidy(c) && forall m :: m in ns ==> m == Member(ms[i].key, c) || m in ms
  {
    hide Patches, Encode, Tidy, Meaning, MembersMeaning, Decodable, Tells;
    var ps := Patches("", f, t, cs);
    var step := "/" + Encode(ms[i].key);
    c := ApplyAll(ms[i].value, ps, cs).doc;
    PatchesLift(step, f, t, cs);
    PatchesShape(f, t, cs);
    if Below(ps) {
      TidyTold(ms, cs);
      AllLifted(Object(ms), i, ps, cs);
      ns := ms[i := Member(ms[i].key, c)];
      MeaningUpdate(ms, i, c);
    } else {
      hide ApplyAll;
      ApplySingle(ms[i].value, ps[0], cs);
      LiftOne(step, ps[0]);
      assert step + "" == step;
      ns := ObjectReplace(ms, i, t, cs);
      ApplySingle(Object(ms), Replacement(step, t), cs);
    }
  }

  lemma ObjectReplace(ms: seq<Member>, i: nat, x: Json, cs: bool) returns (ns: seq<Member>)
    requires i < |ms| && TidyKeys(ms)
    ensures ApplyOp(Object(ms), Replacement("/" + Encode(ms[i].key), x), cs) == Edited(0, Object(ns))
    ensures TidyKeys(ns) && MembersMeaning(ns) == MembersMeaning(ms)[ms[i].key := Meaning(x)]
    ensures forall m :: m in ns ==> m == Member(ms[i].key, x) || m in ms
  {
    hide Encode, RemovePath, AddPath, RemoveAt, Decodable, HasKey, DistinctKeys, MembersMeaning, Meaning;
    var key := ms[i].key;
    ObjectRemove(ms, i, cs);
    TidyRemoved(ms, i);
    ToldFromFewer(key, ms, RemoveAt(ms, i));
    ns := ObjectAdd(RemoveAt(ms, i), key, x, cs);
    assert (MembersMeaning(ms) - {key})[key := Meaning(x)] == MembersMeaning(ms)[key := Meaning(x)];
  }

  predicate AllTidy(vs: seq<Json>)
  {
    forall i :: 0 <= i < |vs| ==> Tidy(vs[i])
  }

  /** From position k on the array still means fs; the patches make it mean ts there. */
  lemma {:induction false} ItemsDiff(xs: seq<Json>, k: nat, fs: seq<Json>, ts: seq<Json>, cs: bool) returns (ys: seq<Json>)
    requires |xs| == k + |fs| <= SIZE_LIMIT && k + |ts| <= SIZE_LIMIT
    requires AllTidy(xs) && AllTidy(fs) && AllTidy(ts)
    requires forall i :: 0 <= i < |fs| ==> Meaning(xs[k + i]) == Meaning(fs[i])
    requires forall i :: 0 <= i < |fs| && i < |ts| ==> Apart(Meaning(fs[i]), Meaning(ts[i]), false)
    ensures ApplyAll(Array(xs), ItemPatches("", fs, ts, k, cs), cs) == Edited(0, Array(ys))
    ensures |ys| == k + |ts| && ys[..k] == xs[..k] && AllTidy(ys)
    ensures forall i :: 0 <= i < |ts| ==> Meaning(ys[k + i]) == Meaning(ts[i])
    decreases ItemsNesting(fs), 1, |fs| + |ts|
  {
    hide Patches, Digits, Encode, Tidy, Meaning, Apart, ApplyAll, ApplyOp;
    if fs != [] && ts != [] {
      var ps := Patches("" + "/" + Digits(k), fs[0], ts[0], cs);
      DiffApplies(xs[k], fs[0], ts[0], cs);
      assert "" + "/" + Digits(k) == "/" + Digits(k);
      var c := ArrayChild(xs, k, fs[0], ts[0], cs);
      var ws := xs[k := c];
      ys := ItemsDiff(ws, k + 1, fs[1..], ts[1..], cs);
      ApplyConcat(Array(xs), ps, ItemPatches("", fs[1..], ts[1..], k + 1, cs), cs);
      assert ys[k] == ys[..k + 1][k] == c;
      assert ys[..k] == ys[..k + 1][..k] == xs[..k];
      forall i | 0 <= i < |ts| ensures Meaning(ys[k + i]) == Meaning(ts[i]) {
        if i > 0 { assert Meaning(ys[(k + 1) + (i - 1)]) == Meaning(ts[1..][i - 1]); }
      }
    } else if fs != [] {
      var o := Op(Remove, Suffixed("", Digits(k)), None);
      RemoveItemOp(xs, k, cs);
      var ws := RemoveAt(xs, k);
      ys := ItemsDiff(ws, k, fs[1..], [], cs);
      ApplySingle(Array(xs), o, cs);
      ApplyConcat(Array(xs), [o], ItemPatches("", fs[1..], [], k, cs), cs);
    } else if ts != [] {
      var o := Op(Add, Suffixed("", "-"), Some(ts[0]));
      AppendItemOp(xs, ts[0], cs);
      var ws := xs + [ts[0]];
      ys := ItemsDiff(ws, k + 1, [], ts[1..], cs);
      ApplySingle(Array(xs), o, cs);
      ApplyConcat(Array(xs), [o], ItemPatches("", [], ts[1..], k + 1, cs), cs);
      assert ys[k] == ys[..k + 1][k] == ts[0];
      assert ys[..k] == ys[..k + 1][..k] == xs[..k];
      forall i | 0 <= i < |ts| ensures Meaning(ys[k + i]) == Meaning(ts[i]) {
        if i > 0 { assert Meaning(ys[(k + 1) + (i - 1)]) == Meaning(ts[1..][i - 1]); }
      }
    } else {
      ys := xs;
      ApplyNothing(Array(xs), cs);
    }
  }

  lemma ApplyNothing(doc: Json, cs: bool)
    ensures ApplyAll(doc, [], cs) == Edited(0, doc)
  {
  }

  lemma RemoveItemOp(xs: seq<Json>, k: nat, cs: bool)
    requires k < |xs| <= SIZE_LIMIT
    ensures ApplyOp(Array(xs), Op(Remove, Suffixed("", Digits(k)), None), cs) == Edited(0, Array(RemoveAt(xs, k)))
  {
    hide Digits, Encode, RemovePath;
    DigitsPlain(k);
    SuffixedLift("", Digits(k));
    ArrayRemove(xs, k, cs);
  }

  lemma AppendItemOp(xs: seq<Json>, x: Json, cs: bool)
    ensures ApplyOp(Array(xs), Op(Add, Suffixed("", "-"), Some(x)), cs) == Edited(0, Array(xs + [x]))
  {
    hide AddPath;
    EncodePlain("-");
    SuffixedLift("", "-");
    ArrayAppend(xs, x, cs);
    assert "/" + "-" == "/-";
  }

  // ---- objects ----

  predicate AllTidyMembers(ms: seq<Member>)
  {
    TidyKeys(ms) && forall i :: 0 <= i < |ms| ==> Tidy(ms[i].value)
  }

  ghost predicate Covers(m: map<string, Value>, fs: seq<Member>)
  {
    forall i :: 0 <= i < |fs| ==> fs[i].key in m && m[fs[i].key] == Meaning(fs[i].value)
  }

  ghost predicate Awaits(m: map<string, Value>, fs: seq<Member>, ts: seq<Member>)
  {
    forall j :: 0 <= j < |ts| && ts[j].key in m ==> HasKey(fs, ts[j].key)
  }

  ghost function Target(m: map<string, Value>, fs: seq<Member>, ts: seq<Member>): map<string, Value>
  {
    (m - MembersMeaning(fs).Keys) + MembersMeaning(ts)
  }

  lemma TargetBoth<V>(m: map<string, V>, f: map<string, V>, t: map<string, V>, k: string)
    requires k in f && k in t
    ensures (m[k := t[k]] - (f - {k}).Keys) + (t - {k}) == (m - f.Keys) + t
  {
  }

  lemma TargetRemove<V>(m: map<string, V>, f: map<string, V>, t: map<string, V>, k: string)
    requires k in f
    ensures ((m - {k}) - (f - {k}).Keys) + t == (m - f.Keys) + t
  {
  }

  lemma TargetAdd<V>(m: map<string, V>, f: map<string, V>, t: map<string, V>, k: string)
    requires k !in f && k in t
    ensures (m[k := t[k]] - f.Keys) + (t - {k}) == (m - f.Keys) + t
  {
  }

  /** What a step needs of the lists behind the first member. */
  lemma TailFacts(ms: seq<Member>, cs: bool)
    requires ms != [] && AllTidyMembers(ms) && Ascending(ms, cs)
    ensures AllTidyMembers(ms[1..]) && Ascending(ms[1..], cs)
    ensures MembersMeaning(ms[1..]) == MembersMeaning(ms) - {ms[0].key}
    ensures ms[0].key in MembersMeaning(ms) && MembersMeaning(ms)[ms[0].key] == Meaning(ms[0].value)
    ensures !HasKey(ms[1..], ms[0].key)
  {
    hide Tidy, Decodable, Meaning, MembersMeaning, HasKey;
    MeaningTail(ms);
    FirstMeaning(ms);
    TailTidy(ms, cs);
    hide AllTidyMembers, Ascending;
    assert ms[0].key !in MembersMeaning(ms[1..]);
  }

  lemma TailTidy(ms: seq<Member>, cs: bool)
    requires ms != [] && AllTidyMembers(ms) && Ascending(ms, cs)
    ensures AllTidyMembers(ms[1..]) && Ascending(ms[1..], cs)
  {
    hide Tidy, Decodable, Compare;
  }

  lemma HasKeyTail(fs: seq<Member>, key: string)
    requires fs != [] && HasKey(fs, key) && key != fs[0].key
    ensures HasKey(fs[1..], key)
  {
    var i :| 0 <= i < |fs| && fs[i].key == key;
    assert fs[1..][i - 1].key == key;
  }

  /** Coverage survives the loss or change of a key that the list does not hold. */
  lemma CoversOther(m: map<string, Value>, n: map<string, Value>, fs: seq<Member>, k: string)
    requires Covers(m, fs) && !HasKey(fs, k)
    requires forall x :: x in m && x != k ==> x in n && n[x] == m[x]
    ensures Covers(n, fs)
  {
    forall i | 0 <= i < |fs| ensures fs[i].key in n && n[fs[i].key] == Meaning(fs[i].value) {
      assert fs[i].key == k ==> HasKey(fs, k);
    }
  }

  lemma CoversTail(m: map<string, Value>, fs: seq<Member>)
    requires fs != [] && Covers(m, fs)
    ensures Covers(m, fs[1..])
  {
  }

  /** What the walk relies on, with m the meaning of the members so far. */
  ghost predicate Walking(m: map<string, Value>, fs: seq<Member>, ts: seq<Member>, cs: bool)
  {
    && AllTidyMembers(fs) && AllTidyMembers(ts) && Ascending(fs, cs) && Ascending(ts, cs) && Covers(m, fs) && Awaits(m, fs, ts)
    && ApartMembers(MembersMeaning(fs), MembersMeaning(ts), false) && KeysApart(m, ts)
  }

  /** No key that is there differs only in case from one to come. */
  ghost predicate KeysApart(m: map<string, Value>, ts: seq<Member>)
  {
    forall k, j :: k in m && 0 <= j < |ts| ==> Tells(ts[j].key, k, false)
  }

  lemma WalkBoth(m: map<string, Value>, n: map<string, Value>, fs: seq<Member>, ts: seq<Member>, cs: bool)
    requires Walking(m, fs, ts, cs) && fs != [] && ts != [] && fs[0].key == ts[0].key
    requires n == m[ts[0].key := Meaning(ts[0].value)]
    ensures Walking(n, fs[1..], ts[1..], cs) && Target(n, fs[1..], ts[1..]) == Target(m, fs, ts)
  {
    hide AllTidyMembers, Ascending, Meaning, HasKey, MembersMeaning, ApartMembers, KeysApart;
    TailFacts(fs, cs);
    TailFacts(ts, cs);
    CoversTail(m, fs);
    CoversOther(m, n, fs[1..], fs[0].key);
    ApartTails(fs, ts, 1, 1);
    KeysApartStep(m, n, ts);
    var ts1 := ts[1..];
    forall j | 0 <= j < |ts1| && ts1[j].key in n ensures HasKey(fs[1..], ts1[j].key) {
      KeyPresent(ts1, j);
      HasKeyTail(fs, ts1[j].key);
    }
    TargetBoth(m, MembersMeaning(fs), MembersMeaning(ts), fs[0].key);
  }

  /** Lists whose first members are dropped are still apart. */
  lemma ApartTails(fs: seq<Member>, ts: seq<Member>, a: nat, b: nat)
    requires a <= 1 && b <= 1 && a <= |fs| && b <= |ts| && AllTidyMembers(fs) && AllTidyMembers(ts)
    requires ApartMembers(MembersMeaning(fs), MembersMeaning(ts), false)
    ensures ApartMembers(MembersMeaning(fs[a..]), MembersMeaning(ts[b..]), false)
  {
    hide MembersMeaning, ApartMembers, Tells, Tidy, Decodable;
    var f, t := MembersMeaning(fs), MembersMeaning(ts);
    assert fs[0..] == fs && ts[0..] == ts && f - {} == f && t - {} == t;
    if a == 1 { MeaningTail(fs); }
    if b == 1 { MeaningTail(ts); }
    ApartFewer(f, t, if a == 1 then {fs[0].key} else {}, if b == 1 then {ts[0].key} else {}, false);
  }

  lemma KeysApartStep(m: map<string, Value>, n: map<string, Value>, ts: seq<Member>)
    requires ts != [] && AllTidyMembers(ts) && KeysApart(m, ts) && forall k :: k in n ==> k in m || k == ts[0].key
    ensures KeysApart(n, ts[1..])
  {
    hide Tidy, Tells;
  }

  lemma KeyPresent(ms: seq<Member>, j: nat)
    requires j < |ms|
    ensures HasKey(ms, ms[j].key)
  {
  }

  lemma WalkRemove(m: map<string, Value>, n: map<string, Value>, fs: seq<Member>, ts: seq<Member>, cs: bool)
    requires Walking(m, fs, ts, cs) && fs != [] && n == m - {fs[0].key}
    ensures Walking(n, fs[1..], ts, cs) && Target(n, fs[1..], ts) == Target(m, fs, ts)
  {
    hide AllTidyMembers, Ascending, Meaning, HasKey, MembersMeaning, ApartMembers;
    TailFacts(fs, cs);
    CoversTail(m, fs);
    CoversOther(m, n, fs[1..], fs[0].key);
    ApartTails(fs, ts, 1, 0);
    forall j | 0 <= j < |ts| && ts[j].key in n ensures HasKey(fs[1..], ts[j].key) { HasKeyTail(fs, ts[j].key); }
    TargetRemove(m, MembersMeaning(fs), MembersMeaning(ts), fs[0].key);
  }

  lemma WalkAdd(m: map<string, Value>, n: map<string, Value>, fs: seq<Member>, ts: seq<Member>, cs: bool)
    requires Walking(m, fs, ts, cs) && ts != [] && !HasKey(fs, ts[0].key)
    requires n == m[ts[0].key := Meaning(ts[0].value)]
    ensures Walking(n, fs, ts[1..], cs) && Target(n, fs, ts[1..]) == Target(m, fs, ts)
  {
    hide AllTidyMembers, Ascending, Meaning, HasKey, MembersMeaning, ApartMembers, KeysApart;
    TailFacts(ts, cs);
    CoversOther(m, n, fs, ts[0].key);
    ApartTails(fs, ts, 0, 1);
    KeysApartStep(m, n, ts);
    var ts1 := ts[1..];
    forall j | 0 <= j < |ts1| && ts1[j].key in n ensures HasKey(fs, ts1[j].key) {
      KeyPresent(ts1, j);
      assert ts1[j] == ts[j + 1];
    }
    TargetAdd(m, MembersMeaning(fs), MembersMeaning(ts), ts[0].key);
  }

  /** A key in front of the first of an ascending list is not in the list. */
  lemma {:induction false} AheadOfAll(key: string, fs: seq<Member>, cs: bool)
    requires Ascending(fs, cs) && (fs == [] || Compare(fs[0].key, key, cs) > 0)
    ensures !HasKey(fs, key)
  {
    if HasKey(fs, key) {
      var i :| 0 <= i < |fs| && fs[i].key == key;
      CompareSame(key, cs);
      assert false;
    }
  }

  lemma MemberAt(zs: seq<Member>, key: string) returns (i: nat)
    requires key in MembersMeaning(zs) && DistinctKeys(zs)
    ensures i < |zs| && zs[i].key == key && Meaning(zs[i].value) == MembersMeaning(zs)[key]
  {
    assert HasKey(zs, key);
    i :| 0 <= i < |zs| && zs[i].key == key;
  }

  lemma RemoveMemberOp(zs: seq<Member>, i: nat, cs: bool)
    requires i < |zs| && AllTidyMembers(zs)
    ensures ApplyOp(Object(zs), Op(Remove, Suffixed("", zs[i].key), None), cs) == Edited(0, Object(RemoveAt(zs, i)))
    ensures AllTidyMembers(RemoveAt(zs, i)) && MembersMeaning(RemoveAt(zs, i)) == MembersMeaning(zs) - {zs[i].key}
  {
    hide Encode, RemovePath, RemoveAt, Tidy, Decodable, MembersMeaning, HasKey, DistinctKeys;
    SuffixedLift("", zs[i].key);
    ObjectRemove(zs, i, cs);
    TidyRemoved(zs, i);
    AllFrom(zs, RemoveAt(zs, i));
  }

  lemma AllFrom(zs: seq<Member>, ws: seq<Member>)
    requires AllTidyMembers(zs) && TidyKeys(ws) && forall m :: m in ws ==> m in zs
    ensures AllTidyMembers(ws)
  {
    hide Tidy, TidyKeys;
    forall i | 0 <= i < |ws| ensures Tidy(ws[i].value) { assert ws[i] in ws; }
  }

  lemma AddMemberOp(zs: seq<Member>, key: string, x: Json, cs: bool) returns (ws: seq<Member>)
    requires AllTidyMembers(zs) && Decodable(key) && ToldFrom(key, zs) && Tidy(x)
    ensures ApplyOp(Object(zs), Op(Add, Suffixed("", key), Some(x)), cs) == Edited(0, Object(ws))
    ensures AllTidyMembers(ws) && MembersMeaning(ws) == MembersMeaning(zs)[key := Meaning(x)]
  {
    hide Encode, AddPath, Tidy, Decodable, ToldFrom, MembersMeaning, Meaning;
    SuffixedLift("", key);
    ws := ObjectAdd(zs, key, x, cs);
    AllIn(zs, ws, key, x);
  }

  lemma AllIn(zs: seq<Member>, ws: seq<Member>, key: string, x: Json)
    requires AllTidyMembers(zs) && Tidy(x) && TidyKeys(ws)
    requires forall m :: m in ws ==> m == Member(key, x) || m in zs
    ensures AllTidyMembers(ws)
  {
    hide Tidy, TidyKeys;
    forall i | 0 <= i < |ws| ensures Tidy(ws[i].value) { assert ws[i] in ws; }
  }

  /** The walk: from what zs means to the target, whatever was in zs besides. */
  lemma {:induction false} MembersDiff(zs: seq<Member>, fs: seq<Member>, ts: seq<Member>, cs: bool) returns (ys: seq<Member>)
    requires AllTidyMembers(zs) && Walking(MembersMeaning(zs), fs, ts, cs)
    ensures ApplyAll(Object(zs), MemberPatches("", fs, ts, cs), cs) == Edited(0, Object(ys))
    ensures AllTidyMembers(ys) && MembersMeaning(ys) == Target(MembersMeaning(zs), fs, ts)
    decreases MembersNesting(fs), 1, |fs| + |ts|
  {
    hide Patches, Encode, Tidy, Decodable, Tells, Meaning, MembersMeaning, ApplyAll, ApplyOp, Compare, Suffixed, HasKey, Target, Walking, MembersNesting, Nesting;
    var m := MembersMeaning(zs);
    if fs == [] && ts == [] {
      ys := zs;
      ApplyNothing(Object(zs), cs);
      TargetNothing(m);
    } else {
      WalkingParts(m, fs, ts, cs);
      hide Ascending;
      var diff := if fs == [] then 1 else if ts == [] then -1 else Compare(fs[0].key, ts[0].key, cs);
      var ps, rest;
      var ws;
      if diff == 0 {
        MeetingKeys(fs, ts, cs);
        FirstNesting(fs);
        ws := StepBoth(zs, fs, ts, cs);
        WalkBoth(m, MembersMeaning(ws), fs, ts, cs);
        ys := MembersDiff(ws, fs[1..], ts[1..], cs);
        ps, rest := Patches(Suffixed("", fs[0].key), fs[0].value, ts[0].value, cs), MemberPatches("", fs[1..], ts[1..], cs);
      } else if diff < 0 {
        FirstNesting(fs);
        ws := StepRemove(zs, fs, cs);
        WalkRemove(m, MembersMeaning(ws), fs, ts, cs);
        ys := MembersDiff(ws, fs[1..], ts, cs);
        ps, rest := [Op(Remove, Suffixed("", fs[0].key), None)], MemberPatches("", fs[1..], ts, cs);
      } else {
        AheadOfAll(ts[0].key, fs, cs);
        ws := StepAdd(zs, ts, cs);
        WalkAdd(m, MembersMeaning(ws), fs, ts, cs);
        ys := MembersDiff(ws, fs, ts[1..], cs);
        ps, rest := [Op(Add, Suffixed("", ts[0].key), Some(ts[0].value))], MemberPatches("", fs, ts[1..], cs);
      }
      assert MemberPatches("", fs, ts, cs) == ps + rest;
      ApplyConcat(Object(zs), ps, rest, cs);
    }
  }

  /** First keys that compare equal are the same, and the values below them are apart again. */
  lemma MeetingKeys(fs: seq<Member>, ts: seq<Member>, cs: bool)
    requires fs != [] && ts != [] && DistinctKeys(fs) && DistinctKeys(ts)
    requires ApartMembers(MembersMeaning(fs), MembersMeaning(ts), false) && Compare(fs[0].key, ts[0].key, cs) == 0
    ensures fs[0].key == ts[0].key && Apart(Meaning(fs[0].value), Meaning(ts[0].value), false)
  {
    hide MembersMeaning, ApartMembers, Apart, Meaning;
    FirstMeaning(fs);
    FirstMeaning(ts);
    ApartAt(MembersMeaning(fs), MembersMeaning(ts), fs[0].key, ts[0].key, false);
    TellsEither(fs[0].key, ts[0].key, cs);
  }

  lemma WalkingParts(m: map<string, Value>, fs: seq<Member>, ts: seq<Member>, cs: bool)
    requires Walking(m, fs, ts, cs)
    ensures AllTidyMembers(fs) && AllTidyMembers(ts) && Ascending(fs, cs) && Covers(m, fs)
    ensures ApartMembers(MembersMeaning(fs), MembersMeaning(ts), false) && KeysApart(m, ts)
    ensures DistinctKeys(fs) && DistinctKeys(ts)
  {
  }

  lemma TargetNothing(m: map<string, Value>)
    ensures Target(m, [], []) == m
  {
    assert MembersMeaning([]) == map[];
    assert m - {} == m;
  }

  lemma FirstNesting(fs: seq<Member>)
    requires fs != []
    ensures Nesting(fs[0].value) <= MembersNesting(fs) && MembersNesting(fs[1..]) <= MembersNesting(fs)
  {
  }

  lemma {:induction false} StepBoth(zs: seq<Member>, fs: seq<Member>, ts: seq<Member>, cs: bool) returns (ws: seq<Member>)
    requires fs != [] && ts != [] && AllTidyMembers(zs) && AllTidyMembers(fs) && AllTidyMembers(ts)
    requires Covers(MembersMeaning(zs), fs) && fs[0].key == ts[0].key && Apart(Meaning(fs[0].value), Meaning(ts[0].value), false)
    ensures ApplyAll(Object(zs), Patches(Suffixed("", fs[0].key), fs[0].value, ts[0].value, cs), cs) == Edited(0, Object(ws))
    ensures AllTidyMembers(ws) && MembersMeaning(ws) == MembersMeaning(zs)[ts[0].key := Meaning(ts[0].value)]
    decreases MembersNesting(fs), 0, 4
  {
    hide Patches, Encode, Tidy, Decodable, Apart, Meaning, MembersMeaning, ApplyAll, ApplyOp;
    var i := MemberAt(zs, fs[0].key);
    FirstNesting(fs);
    DiffApplies(zs[i].value, fs[0].value, ts[0].value, cs);
    SuffixedLift("", fs[0].key);
    var c;
    ws, c := ObjectChild(zs, i, fs[0].value, ts[0].value, cs);
    AllIn(zs, ws, zs[i].key, c);
  }

  lemma StepRemove(zs: seq<Member>, fs: seq<Member>, cs: bool) returns (ws: seq<Member>)
    requires fs != [] && AllTidyMembers(zs) && Covers(MembersMeaning(zs), fs)
    ensures ApplyAll(Object(zs), [Op(Remove, Suffixed("", fs[0].key), None)], cs) == Edited(0, Object(ws))
    ensures AllTidyMembers(ws) && MembersMeaning(ws) == MembersMeaning(zs) - {fs[0].key}
  {
    hide Suffixed, Tidy, Decodable, Meaning, MembersMeaning, ApplyAll, ApplyOp, RemoveAt;
    var i := MemberAt(zs, fs[0].key);
    RemoveMemberOp(zs, i, cs);
    ws := RemoveAt(zs, i);
    ApplySingle(Object(zs), Op(Remove, Suffixed("", fs[0].key), None), cs);
  }

  lemma StepAdd(zs: seq<Member>, ts: seq<Member>, cs: bool) returns (ws: seq<Member>)
    requires ts != [] && AllTidyMembers(zs) && AllTidyMembers(ts) && KeysApart(MembersMeaning(zs), ts)
    ensures ApplyAll(Object(zs), [Op(Add, Suffixed("", ts[0].key), Some(ts[0].value))], cs) == Edited(0, Object(ws))
    ensures AllTidyMembers(ws) && MembersMeaning(ws) == MembersMeaning(zs)[ts[0].key := Meaning(ts[0].value)]
  {
    hide Suffixed, Tidy, Decodable, Meaning, MembersMeaning, ApplyAll, ApplyOp;
    forall i | 0 <= i < |zs| ensures Tells(ts[0].key, zs[i].key, false) { KeyPresent(zs, i); }
    ws := AddMemberOp(zs, ts[0].key, ts[0].value, cs);
    ApplySingle(Object(zs), Op(Add, Suffixed("", ts[0].key), Some(ts[0].value)), cs);
  }

  lemma TidySorted(ms: seq<Member>, cs: bool)
    requires AllTidyMembers(ms)
    ensures var ns := SortMembers(ms, cs);
      AllTidyMembers(ns) && Ascending(ns, cs) && MembersMeaning(ns) == MembersMeaning(ms)
  {
    hide SortMembers, Tidy, Decodable, MembersMeaning;
    TidyTold(ms, cs);
    SortAscends(ms, cs);
    var ns := SortMembers(ms, cs);
    MeaningPermuted(ms, ns);
    PermutedKeys(ms, ns);
  }

  /** At the start everything is covered and nothing else is there. */
  lemma WalkStart(zs: seq<Member>, fs: seq<Member>, ts: seq<Member>, cs: bool)
    requires AllTidyMembers(zs) && AllTidyMembers(fs) && AllTidyMembers(ts) && Ascending(fs, cs) && Ascending(ts, cs)
    requires MembersMeaning(zs) == MembersMeaning(fs) && ApartMembers(MembersMeaning(fs), MembersMeaning(ts), false)
    ensures Walking(MembersMeaning(zs), fs, ts, cs) && Target(MembersMeaning(zs), fs, ts) == MembersMeaning(ts)
  {
    hide AllTidyMembers, Ascending, Meaning, MembersMeaning, ApartMembers, KeysApart, Covers, Awaits;
    var m := MembersMeaning(zs);
    StartCovers(m, fs, ts);
    StartApart(m, ts);
    assert m - m.Keys == map[];
    assert map[] + MembersMeaning(ts) == MembersMeaning(ts);
  }

  lemma StartCovers(m: map<string, Value>, fs: seq<Member>, ts: seq<Member>)
    requires AllTidyMembers(fs) && m == MembersMeaning(fs)
    ensures Covers(m, fs) && Awaits(m, fs, ts)
  {
    hide Tidy, Decodable, Meaning;
  }

  lemma StartApart(m: map<string, Value>, ts: seq<Member>)
    requires ApartMembers(m, MembersMeaning(ts), false)
    ensures KeysApart(m, ts)
  {
    hide Apart, MembersMeaning, ApartMembers;
    forall k, j | k in m && 0 <= j < |ts| ensures Tells(ts[j].key, k, false) {
      KeyPresent(ts, j);
      ApartAt(m, MembersMeaning(ts), k, ts[j].key, false);
      TellsFlip(k, ts[j].key, false);
    }
  }

  /** The main theorem of create_patches, for any tree that means what `from` means. */
  lemma {:induction false} DiffApplies(doc: Json, from: Json, to: Json, cs: bool)
    requires Tidy(doc) && Tidy(from) && Tidy(to) && Meaning(doc) == Meaning(from) && Apart(Meaning(from), Meaning(to), false)
    ensures Becomes(doc, Patches("", from, to, cs), to, cs)
    decreases Nesting(from), 0, 3
  {
    if SameType(from, to) && from.Array? {
      ArrayDiff(doc.items, from.items, to.items, cs);
    } else if SameType(from, to) && from.Object? {
      ObjectDiff(doc.members, from.members, to.members, cs);
    } else {
      hide ApplyAll;
      ApplyNothing(doc, cs);
      ApplySingle(doc, Replacement("", to), cs);
    }
  }

  lemma {:induction false} ArrayDiff(xs: seq<Json>, fs: seq<Json>, ts: seq<Json>, cs: bool)
    requires Tidy(Array(xs)) && Tidy(Array(fs)) && Tidy(Array(ts)) && ItemsMeaning(xs) == ItemsMeaning(fs)
    requires Apart(Meaning(Array(fs)), Meaning(Array(ts)), false)
    ensures Becomes(Array(xs), Patches("", Array(fs), Array(ts), cs), Array(ts), cs)
    decreases Nesting(Array(fs)), 0, 0
  {
    hide ApplyAll, ItemPatches;
    assert |ItemsMeaning(xs)| == |ItemsMeaning(fs)|;
    forall i | 0 <= i < |fs| ensures Meaning(xs[0 + i]) == Meaning(fs[i]) {
      assert ItemsMeaning(xs)[i] == ItemsMeaning(fs)[i];
    }
    var ys := ItemsDiff(xs, 0, fs, ts, cs);
    forall i | 0 <= i < |ts| ensures Meaning(ys[i]) == Meaning(ts[i]) { assert Meaning(ys[0 + i]) == Meaning(ts[i]); }
    assert ItemsMeaning(ys) == ItemsMeaning(ts);
  }

  lemma {:induction false} ObjectDiff(zs: seq<Member>, fs: seq<Member>, ts: seq<Member>, cs: bool)
    requires AllTidyMembers(zs) && AllTidyMembers(fs) && AllTidyMembers(ts) && MembersMeaning(zs) == MembersMeaning(fs)
    requires ApartMembers(MembersMeaning(fs), MembersMeaning(ts), false)
    ensures Becomes(Object(zs), Patches("", Object(fs), Object(ts), cs), Object(ts), cs)
    decreases Nesting(Object(fs)), 0, 0
  {
    hide ApplyAll, MemberPatches, SortMembers, TidyKeys, MembersMeaning, ApartMembers, Walking, Target, Ascending, MembersNesting;
    TidySorted(fs, cs);
    TidySorted(ts, cs);
    SortNesting(fs, cs);
    var sf, st := SortMembers(fs, cs), SortMembers(ts, cs);
    WalkStart(zs, sf, st, cs);
    var ys := MembersDiff(zs, sf, st, cs);
  }
}
