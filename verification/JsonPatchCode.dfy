/**
 Patches as JSON documents: composing and decoding them, the loops of create_patches and of
 cJSONUtils_ApplyPatches, and the theorem about generating and applying a whole patch document.
 */
module JsonPatchCode {
  import opened Json
  import opened JsonTree
  import opened JsonMeaning
  import opened JsonPointer
  import opened JsonCompare
  import opened JsonEdit
  import opened JsonPatch

  // ---- patch objects ----

  function OpName(op: Opcode): string
  {
    match op
    case Add => "add"
    case Remove => "remove"
    case Replace => "replace"
    case Move => "move"
    case Copy => "copy"
    case Test => "test"
  }

  function ReadOp(name: string): Option<Opcode>
  {
    if name == "add" then Some(Add)
    else if name == "remove" then Some(Remove)
    else if name == "replace" then Some(Replace)
    else if name == "move" then Some(Move)
    else if name == "copy" then Some(Copy)
    else if name == "test" then Some(Test)
    else None
  }

  /** compose_patch */
  function Compose(p: PatchOp): Json
  {
    Object([Member("op", String(OpName(p.op))), Member("path", String(p.path))]
           + if p.value.Some? then [Member("value", p.value.value)] else [])
  }

  function ComposeAll(ps: seq<PatchOp>): (r: seq<Json>)
    ensures |r| == |ps| && forall i :: 0 <= i < |ps| ==> r[i] == Compose(ps[i])
  {
    seq(|ps|, i requires 0 <= i < |ps| => Compose(ps[i]))
  }

  /** get_object_item of the patch utilities */
  function Item(v: Json, name: string, cs: bool): Option<Json>
  {
    if !v.Object? then None
    else
      var i := IndexOf(v.members, name, cs);
      if i < |v.members| then Some(v.members[i].value) else None
  }

  datatype Decoded = Good(p: PatchOp) | Bad(status: int)

  /** The checks at the start of apply_patch. A "from" that is not a string counts as missing. */
  function DecodePatch(patch: Json, cs: bool): Decoded
  {
    var path := Item(patch, "path", cs);
    if path == None || !path.value.String? then Bad(2)
    else
      var name := Item(patch, "op", cs);
      var op := if name.Some? && name.value.String? then ReadOp(name.value.s) else None;
      if op == None then Bad(3)
      else
        var from := Item(patch, "from", cs);
        Good(PatchOp(op.value, path.value.s, Item(patch, "value", cs),
                     if from.Some? && from.value.String? then Some(from.value.s) else None))
  }

  function ApplyPatch(doc: Json, patch: Json, cs: bool): Edited
  {
    match DecodePatch(patch, cs)
    case Bad(status) => Edited(status, doc)
    case Good(p) => ApplyOp(doc, p, cs)
  }

  function ApplyPatchList(doc: Json, patches: seq<Json>, cs: bool): Edited
    decreases |patches|
  {
    if patches == [] then Edited(0, doc)
    else
      var r := ApplyPatch(doc, patches[0], cs);
      if r.status != 0 then r else ApplyPatchList(r.doc, patches[1..], cs)
  }

  /** cJSONUtils_ApplyPatches and its case-sensitive twin */
  function ApplyPatches(doc: Json, patches: Json, cs: bool): Edited
  {
    if !patches.Array? then Edited(1, doc) else ApplyPatchList(doc, patches.items, cs)
  }

  /** cJSONUtils_GeneratePatches and its case-sensitive twin */
  function GeneratePatches(from: Json, to: Json, cs: bool): Json
  {
    Array(ComposeAll(Patches("", from, to, cs)))
  }

  lemma ItemAt(ms: seq<Member>, i: nat, cs: bool)
    requires i < |ms| && Told(ms, cs)
    ensures Item(Object(ms), ms[i].key, cs) == Some(ms[i].value)
  {
    IndexOfKey(ms, ms[i].key, cs);
  }

  lemma ItemNone(ms: seq<Member>, key: string, cs: bool)
    requires forall i :: 0 <= i < |ms| ==> Compare(key, ms[i].key, cs) != 0
    ensures Item(Object(ms), key, cs) == None
  {
  }

  /** A composed patch decodes to what it was composed from. */
  lemma DecodeComposed(p: PatchOp, cs: bool)
    requires p.from == None
    ensures DecodePatch(Compose(p), cs) == Good(p)
  {
    hide Item, Told, OpName, ReadOp;
    var ms := Compose(p).members;
    PatchKeys(ms, cs);
    ItemAt(ms, 0, cs);
    ItemAt(ms, 1, cs);
    ItemNone(ms, "from", cs);
    if p.value.Some? { ItemAt(ms, 2, cs); } else { ItemNone(ms, "value", cs); }
    ReadName(p.op);
  }

  lemma PatchKeys(ms: seq<Member>, cs: bool)
    requires |ms| == 2 || (|ms| == 3 && ms[2].key == "value")
    requires ms[0].key == "op" && ms[1].key == "path"
    ensures Told(ms, cs)
    ensures forall i :: 0 <= i < |ms| ==> Compare("from", ms[i].key, cs) != 0
    ensures |ms| == 2 ==> forall i :: 0 <= i < |ms| ==> Compare("value", ms[i].key, cs) != 0
  {
    var op, path, value, from := "op", "path", "value", "from";
    assert |op| == 2 && |path| == 4 && |value| == 5 && |from| == 4 && path[0] == 'p' && from[0] == 'f';
    CompareChars(op, path, cs);
    CompareChars(path, op, cs);
    CompareChars(op, value, cs);
    CompareChars(value, op, cs);
    CompareChars(path, value, cs);
    CompareChars(value, path, cs);
    CompareChars(from, op, cs);
    CompareChars(from, path, cs);
    CompareChars(from, value, cs);
  }

  lemma ReadName(op: Opcode)
    ensures ReadOp(OpName(op)) == Some(op)
  {
    assert |"add"| == 3 && |"remove"| == 6 && |"replace"| == 7 && |"move"| == 4 && |"copy"| == 4 && |"test"| == 4;
    assert "move"[0] == 'm' && "copy"[0] == 'c' && "test"[0] == 't';
  }

  lemma {:induction false} ApplyComposed(doc: Json, ps: seq<PatchOp>, cs: bool)
    requires forall i :: 0 <= i < |ps| ==> ps[i].from == None
    ensures ApplyPatchList(doc, ComposeAll(ps), cs) == ApplyAll(doc, ps, cs)
    decreases |ps|
  {
    hide ApplyOp, Compose, DecodePatch;
    if ps != [] {
      DecodeComposed(ps[0], cs);
      assert ComposeAll(ps)[1..] == ComposeAll(ps[1..]);
      ApplyComposed(ApplyOp(doc, ps[0], cs).doc, ps[1..], cs);
    }
  }

  predicate NoFrom(ps: seq<PatchOp>)
  {
    forall i :: 0 <= i < |ps| ==> ps[i].from == None
  }

  lemma {:induction false} PatchesNoFrom(path: string, from: Json, to: Json, cs: bool)
    ensures NoFrom(Patches(path, from, to, cs))
    decreases Nesting(from), 0, 0
  {
    if SameType(from, to) && from.Array? {
      ItemsNoFrom(path, from.items, to.items, 0, cs);
    } else if SameType(from, to) && from.Object? {
      SortNesting(from.members, cs);
      MembersNoFrom(path, SortMembers(from.members, cs), SortMembers(to.members, cs), cs);
    }
  }

  lemma {:induction false} ItemsNoFrom(path: string, fs: seq<Json>, ts: seq<Json>, index: nat, cs: bool)
    ensures NoFrom(ItemPatches(path, fs, ts, index, cs))
    decreases ItemsNesting(fs), 1, |fs| + |ts|
  {
    hide Patches, Suffixed, Digits;
    if fs != [] && ts != [] {
      PatchesNoFrom(path + "/" + Digits(index), fs[0], ts[0], cs);
      ItemsNoFrom(path, fs[1..], ts[1..], index + 1, cs);
    } else if fs != [] {
      ItemsNoFrom(path, fs[1..], [], index, cs);
    } else if ts != [] {
      ItemsNoFrom(path, [], ts[1..], index + 1, cs);
    }
  }

  lemma {:induction false} MembersNoFrom(path: string, fs: seq<Member>, ts: seq<Member>, cs: bool)
    ensures NoFrom(MemberPatches(path, fs, ts, cs))
    decreases MembersNesting(fs), 1, |fs| + |ts|
  {
    hide Patches, Suffixed, Compare;
    if fs == [] && ts == [] {
    } else {
      var diff := if fs == [] then 1 else if ts == [] then -1 else Compare(fs[0].key, ts[0].key, cs);
      if diff == 0 {
        PatchesNoFrom(Suffixed(path, fs[0].key), fs[0].value, ts[0].value, cs);
        MembersNoFrom(path, fs[1..], ts[1..], cs);
      } else if diff < 0 {
        MembersNoFrom(path, fs[1..], ts, cs);
      } else {
        MembersNoFrom(path, fs, ts[1..], cs);
      }
    }
  }

  /**
   Generating the patch document from `from` to `to` and applying it to any tree that equals
   `from` up to member order succeeds and yields `to` up to member order, in both case modes.
   */
  lemma {:induction false} GenerateThenApply(doc: Json, from: Json, to: Json, cs: bool)
    requires Tidy(doc) && Tidy(from) && Tidy(to) && Meaning(doc) == Meaning(from) && Apart(Meaning(from), Meaning(to), false)
    ensures var r := ApplyPatches(doc, GeneratePatches(from, to, cs), cs);
      r.status == 0 && Tidy(r.doc) && Meaning(r.doc) == Meaning(to)
  {
    hide Patches, Tidy, Meaning, Apart, ApplyAll;
    DiffApplies(doc, from, to, cs);
    PatchesNoFrom("", from, to, cs);
    ApplyComposed(doc, Patches("", from, to, cs), cs);
  }

  /** The walk finds nothing to patch exactly when the comparison finds no difference, for any trees. */
  lemma {:induction false} PatchesOrEqual(path: string, a: Json, b: Json, cs: bool)
    ensures Patches(path, a, b, cs) == [] <==> CompareJson(a, b, cs)
    decreases Nesting(a), 0, 0
  {
    if a.Array? && b.Array? {
      ItemPatchesOrEqual(path, a.items, b.items, 0, cs);
    } else if a.Object? && b.Object? {
      SortNesting(a.members, cs);
      MemberPatchesOrEqual(path, SortMembers(a.members, cs), SortMembers(b.members, cs), cs);
    }
  }

  lemma {:induction false} ItemPatchesOrEqual(path: string, a: seq<Json>, b: seq<Json>, index: nat, cs: bool)
    ensures ItemPatches(path, a, b, index, cs) == [] <==> CompareItems(a, b, cs)
    decreases ItemsNesting(a), 1, |a|
  {
    hide Digits, Suffixed;
    if a != [] && b != [] {
      PatchesOrEqual(path + "/" + Digits(index), a[0], b[0], cs);
      ItemPatchesOrEqual(path, a[1..], b[1..], index + 1, cs);
    }
  }

  lemma {:induction false} MemberPatchesOrEqual(path: string, a: seq<Member>, b: seq<Member>, cs: bool)
    ensures MemberPatches(path, a, b, cs) == [] <==> CompareMembers(a, b, cs)
    decreases MembersNesting(a), 1, |a|
  {
    hide Suffixed, Compare;
    if a != [] && b != [] {
      PatchesOrEqual(Suffixed(path, a[0].key), a[0].value, b[0].value, cs);
      MemberPatchesOrEqual(path, a[1..], b[1..], cs);
    }
  }

  /**
   There is nothing to patch exactly when source and target are equal up to member order. With
   regard to case this holds for all trees with distinct sibling keys.
   */
  lemma {:induction false} NothingToPatch(from: Json, to: Json, cs: bool)
    requires Clear(from, cs) && Clear(to, cs) && (cs || Apart(Meaning(from), Meaning(to), false))
    ensures GeneratePatches(from, to, cs) == Array([]) <==> Meaning(from) == Meaning(to)
  {
    hide Patches, Meaning, CompareJson, Clear, Apart;
    if cs { ApartExactly(Meaning(from), Meaning(to)); }
    CompareMeans(from, to, cs);
    PatchesOrEqual("", from, to, cs);
    var ps := Patches("", from, to, cs);
    assert |ComposeAll(ps)| == |ps|;
  }

  // ---- where the conditions come from ----

  /** Removing the only member of an object works exactly for decodable keys. */
  lemma {:induction false} OnlyMember(key: string, x: Json, cs: bool)
    ensures var from := Object([Member(key, x)]);
      && Patches("", from, Object([]), cs) == [Op(Remove, Suffixed("", key), None)]
      && (ApplyAll(from, Patches("", from, Object([]), cs), cs).status == 0 <==> Decodable(key))
  {
    var ms := [Member(key, x)];
    var o := Op(Remove, Suffixed("", key), None);
    OnlyPatch(Member(key, x), cs);
    hide Patches, Encode, DecodeInPlace, Decodable, Perform;
    SuffixedLift("", key);
    EncodeNoSlash(key);
    EditHere(Object(ms), Encode(key), cs);
    DecodeExact(key);
    var child := DecodeInPlace(Encode(key));
    DecodedTells(key);
    CompareSame(key, false);
    OnlyFound(child, key, x, cs);
    hide ApplyAll, RemovePath;
    ApplySingle(Object(ms), o, cs);
  }

  lemma OnlyPatch(m: Member, cs: bool)
    ensures Patches("", Object([m]), Object([]), cs) == [Op(Remove, Suffixed("", m.key), None)]
  {
    hide Suffixed;
    var ms := [m];
    assert ms[1..] == [];
    assert MemberPatches("", ms, [], cs) == [Op(Remove, Suffixed("", m.key), None)] + MemberPatches("", [], [], cs);
  }

  lemma OnlyFound(child: string, key: string, x: Json, cs: bool)
    requires Tells(child, key, false) && Compare(key, key, false) == 0
    ensures Perform(Object([Member(key, x)]), Detach(child), cs).status == 0 <==> child == key
  {
    hide Compare;
  }

  /**
   For any two keys that differ in case only, the case-sensitive twins remove the wrong member: the
   patch names the one that strcmp puts first, and the other one is found where it stands first.
   */
  lemma WrongMemberRemoved(k: string, l: string, x: int, y: int)
    requires Compare(l, k, true) < 0 && Compare(l, k, false) == 0 && Decodable(l)
    ensures var from, to := Object([Member(k, Int(x)), Member(l, Int(y))]), Object([Member(k, Int(x))]);
      && Patches("", from, to, true) == [Op(Remove, Suffixed("", l), None)]
      && ApplyAll(from, Patches("", from, to, true), true) == Edited(0, Object([Member(l, Int(y))]))
  {
    var a, b := Member(k, Int(x)), Member(l, Int(y));
    CompareSame(k, true);
    CompareFlip(l, k, true);
    hide Compare;
    SortTwo(a, b);
    PatchOfTwo(a, b);
    hide ApplyAll, ApplyOp, Patches;
    RemovedFirst(a, b);
    ApplySingle(Object([a, b]), Op(Remove, Suffixed("", l), None), true);
  }

  lemma PatchOfTwo(a: Member, b: Member)
    requires Compare(a.key, a.key, true) == 0 && Compare(b.key, a.key, true) < 0 && a.value.Int?
    requires SortMembers([a, b], true) == [b, a] && SortMembers([a], true) == [a]
    ensures Patches("", Object([a, b]), Object([a]), true) == [Op(Remove, Suffixed("", b.key), None)]
  {
    hide Compare, SortMembers, Suffixed;
    var s, o := [b, a], Op(Remove, Suffixed("", b.key), None);
    assert s[1..] == [a] && [a][1..] == [];
    assert MemberPatches("", s, [a], true) == [o] + MemberPatches("", [a], [a], true);
    assert Patches(Suffixed("", a.key), a.value, a.value, true) == [];
    assert MemberPatches("", [a], [a], true) == [] + MemberPatches("", [], [], true);
  }

  lemma RemovedFirst(a: Member, b: Member)
    requires Decodable(b.key) && Compare(b.key, a.key, false) == 0
    ensures ApplyOp(Object([a, b]), Op(Remove, Suffixed("", b.key), None), true) == Edited(0, Object([b]))
  {
    hide Compare, DecodeInPlace, RemovePath, Decodable, Encode;
    KeyPath(b.key);
    SuffixedLift("", b.key);
    EditHere(Object([a, b]), Encode(b.key), true);
    assert RemoveAt([a, b], 0) == [b];
  }

  lemma SortTwo(a: Member, b: Member)
    requires Compare(a.key, b.key, true) > 0
    ensures SortMembers([a, b], true) == [b, a] && SortMembers([a], true) == [a]
  {
    var s := [a, b];
    assert !Ascending(s, true) by { assert Compare(s[0].key, s[1].key, true) >= 0; }
    assert s[..1] == [a] && s[1..] == [b];
    assert [a] + Merge([], [b], true) == [a, b];
    assert [b][1..] == [];
    assert Merge([a], [], true) == [a];
  }

  // ---- the code ----

  /** create_patches */
  method CreatePatches(path: string, from: Json, to: Json, cs: bool) returns (patches: seq<PatchOp>)
    ensures patches == Patches(path, from, to, cs)
    decreases Nesting(from), 0
  {
    hide ItemPatches, MemberPatches;
    patches := [];
    if !SameType(from, to) {
      return [Replacement(path, to)];
    }
    match from
    case Int(n) =>
      if n != to.n {
        patches := [Replacement(path, to)];
      }
    case String(s) =>
      if s != to.s {
        patches := [Replacement(path, to)];
      }
    case Array(items) =>
      patches := CreateItemPatches(path, items, to.items, cs);
    case Object(members) =>
      var sortedFrom, sortedTo := SortMembers(members, cs), SortMembers(to.members, cs);
      SortNesting(members, cs);
      patches := CreateMemberPatches(path, sortedFrom, sortedTo, cs);
    case Null =>
    case Bool(_) =>
  }

  method CreateItemPatches(path: string, fs: seq<Json>, ts: seq<Json>, cs: bool) returns (patches: seq<PatchOp>)
    ensures patches == ItemPatches(path, fs, ts, 0, cs)
    decreases ItemsNesting(fs), 1
  {
    hide Patches, Digits, Suffixed;
    patches := [];
    ghost var all := ItemPatches(path, fs, ts, 0, cs);
    assert fs[0..] == fs && ts[0..] == ts && [] + all == all;
    var i: nat := 0;
    while i < |fs| && i < |ts|
      invariant i <= |fs| && i <= |ts| && patches + ItemPatches(path, fs[i..], ts[i..], i, cs) == all
    {
      assert fs[i..][0] == fs[i] && fs[i..][1..] == fs[i + 1..] && ts[i..][0] == ts[i] && ts[i..][1..] == ts[i + 1..];
      NestingOfItem(fs, i);
      var more := CreatePatches(path + "/" + Digits(i), fs[i], ts[i], cs);
      Regroup(patches, more, ItemPatches(path, fs[i + 1..], ts[i + 1..], i + 1, cs));
      patches := patches + more;
      i := i + 1;
    }
    var more := CreateLeftovers(path, fs[i..], ts[i..], i, cs);
    patches := patches + more;
  }

  /** Removals all name the same index; additions name the end. */
  method CreateLeftovers(path: string, fs: seq<Json>, ts: seq<Json>, index: nat, cs: bool) returns (patches: seq<PatchOp>)
    requires fs == [] || ts == []
    ensures patches == ItemPatches(path, fs, ts, index, cs)
  {
    hide Patches, Digits, Suffixed;
    patches := [];
    ghost var all := ItemPatches(path, fs, ts, index, cs);
    assert fs[0..] == fs && ts[0..] == ts && [] + all == all;
    var i: nat, j: nat := 0, 0;
    while i < |fs|
      invariant i <= |fs| && patches + ItemPatches(path, fs[i..], ts, index, cs) == all
    {
      assert fs[i..][0] == fs[i] && fs[i..][1..] == fs[i + 1..];
      var o := Op(Remove, Suffixed(path, Digits(index)), None);
      Regroup(patches, [o], ItemPatches(path, fs[i + 1..], [], index, cs));
      patches := patches + [o];
      i := i + 1;
    }
    while j < |ts|
      invariant j <= |ts| && patches + ItemPatches(path, [], ts[j..], index + j, cs) == all
    {
      assert ts[j..][0] == ts[j] && ts[j..][1..] == ts[j + 1..];
      var o := Op(Add, Suffixed(path, "-"), Some(ts[j]));
      Regroup(patches, [o], ItemPatches(path, [], ts[j + 1..], index + j + 1, cs));
      patches := patches + [o];
      j := j + 1;
    }
    assert patches + [] == patches;
  }

  lemma Regroup<T>(a: seq<T>, b: seq<T>, c: seq<T>)
    ensures a + (b + c) == (a + b) + c
  {
  }

  method CreateMemberPatches(path: string, fs: seq<Member>, ts: seq<Member>, cs: bool) returns (patches: seq<PatchOp>)
    ensures patches == MemberPatches(path, fs, ts, cs)
    decreases MembersNesting(fs), 1
  {
    hide Patches, Suffixed, Compare;
    patches := [];
    ghost var all := MemberPatches(path, fs, ts, cs);
    assert fs[0..] == fs && ts[0..] == ts && [] + all == all;
    var i: nat, j: nat := 0, 0;
    while i < |fs| || j < |ts|
      invariant i <= |fs| && j <= |ts| && patches + MemberPatches(path, fs[i..], ts[j..], cs) == all
      decreases |fs| - i + |ts| - j
    {
      assert i < |fs| ==> fs[i..][0] == fs[i] && fs[i..][1..] == fs[i + 1..];
      assert j < |ts| ==> ts[j..][0] == ts[j] && ts[j..][1..] == ts[j + 1..];
      var diff := 0;
      if i == |fs| {
        diff := 1;
      } else if j == |ts| {
        diff := -1;
      } else {
        diff := Compare(fs[i].key, ts[j].key, cs);
      }
      if diff == 0 {
        NestingOfMember(fs, i);
        var more := CreatePatches(Suffixed(path, fs[i].key), fs[i].value, ts[j].value, cs);
        Regroup(patches, more, MemberPatches(path, fs[i + 1..], ts[j + 1..], cs));
        patches := patches + more;
        i, j := i + 1, j + 1;
      } else if diff < 0 {
        ghost var o := Op(Remove, Suffixed(path, fs[i].key), None);
        Regroup(patches, [o], MemberPatches(path, fs[i + 1..], ts[j..], cs));
        patches := patches + [Op(Remove, Suffixed(path, fs[i].key), None)];
        i := i + 1;
      } else {
        ghost var o := Op(Add, Suffixed(path, ts[j].key), Some(ts[j].value));
        Regroup(patches, [o], MemberPatches(path, fs[i..], ts[j + 1..], cs));
        patches := patches + [Op(Add, Suffixed(path, ts[j].key), Some(ts[j].value))];
        j := j + 1;
      }
    }
    assert patches + [] == patches;
  }

  /** cJSONUtils_ApplyPatches: stops at the first patch that fails and reports its status. */
  method DoApplyPatches(doc: Json, patches: Json, cs: bool) returns (status: int, result: Json)
    ensures Edited(status, result) == ApplyPatches(doc, patches, cs)
  {
    hide ApplyPatch;
    result := doc;
    if !patches.Array? {
      return 1, doc;
    }
    var list := patches.items;
    assert list[0..] == list;
    var i: nat := 0;
    while i < |list|
      invariant i <= |list| && ApplyPatchList(result, list[i..], cs) == ApplyPatchList(doc, list, cs)
    {
      assert list[i..][0] == list[i] && list[i..][1..] == list[i + 1..];
      var r := ApplyPatch(result, list[i], cs);
      result := r.doc;
      if r.status != 0 {
        return r.status, result;
      }
      i := i + 1;
    }
    return 0, result;
  }
}
