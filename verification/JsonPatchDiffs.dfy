/**
 What create_patches names: every patch it generates is about a place where the two trees differ.
 */
module JsonPatchDiffs {
  import opened Json
  import opened JsonTree
  import opened JsonMeaning
  import opened JsonParse
  import opened JsonRoundTrip
  import opened JsonPointer
  import opened JsonCompare
  import opened JsonEdit
  import opened JsonPatch
  import opened JsonPatchRfc

  /** Values of different types, or different scalars. */
  predicate Unlike(a: Value, b: Value)
  {
    match a
    case VArray(_) => !b.VArray?
    case VObject(_) => !b.VObject?
    case _ => a != b
  }

  /**
   Right below two objects: a member that only the first or only the second has. Right below two
   arrays: the first element that is too many, or one that is missing at the end.
   */
  ghost predicate ChildDiffers(a: Value, b: Value, op: Opcode, x: Option<Json>, t: string)
  {
    match a
    case VObject(m) =>
      b.VObject? && var n := b.members;
      if op == Remove then t in m && t !in n
      else op == Add && x.Some? && t !in m && t in n && Meaning(x.value) == n[t]
    case VArray(items) =>
      b.VArray? && var others := b.items;
      if op == Remove then |others| < |items| && IndexToken(t) && DigitsValue(t) == |others|
      else op == Add && x.Some? && |items| < |others| && t == "-" && Meaning(x.value) in others[|items|..]
    case _ => false
  }

  /** Following the tokens in both trees leads to a difference that the operation settles. */
  ghost predicate Difference(a: Value, b: Value, op: Opcode, x: Option<Json>, ts: seq<string>)
    decreases |ts|
  {
    if ts == [] then op == Replace && Unlike(a, b) && x.Some? && Meaning(x.value) == b
    else if |ts| == 1 && op != Replace then ChildDiffers(a, b, op, x, ts[0])
    else
      && ValueOf(a, ts[0]).Some? && ValueOf(b, ts[0]).Some?
      && Difference(ValueOf(a, ts[0]).value, ValueOf(b, ts[0]).value, op, x, ts[1..])
  }

  ghost predicate Differs(a: Value, b: Value, p: PatchOp)
  {
    exists ts: seq<string> :: p.path == Pointer(ts) && Difference(a, b, p.op, p.value, ts)
  }

  ghost predicate AllDiffer(a: Value, b: Value, ps: seq<PatchOp>)
  {
    forall i :: 0 <= i < |ps| ==> Differs(a, b, ps[i])
  }

  lemma AllDifferConcat(a: Value, b: Value, ps: seq<PatchOp>, qs: seq<PatchOp>)
    requires AllDiffer(a, b, ps) && AllDiffer(a, b, qs)
    ensures AllDiffer(a, b, ps + qs)
  {
    hide Differs;
  }

  lemma AllDifferOne(a: Value, b: Value, p: PatchOp)
    requires Differs(a, b, p)
    ensures AllDiffer(a, b, [p])
  {
    hide Differs;
  }

  /** Differences of a child are differences of the whole. */
  lemma {:induction false} ChildDifferences(a: Value, b: Value, t: string, ps: seq<PatchOp>, qs: seq<PatchOp>)
    requires ValueOf(a, t).Some? && ValueOf(b, t).Some? && AllDiffer(ValueOf(a, t).value, ValueOf(b, t).value, ps)
    requires qs == Lift("/" + Encode(t), ps)
    ensures AllDiffer(a, b, qs)
  {
    hide ValueOf, Encode, ChildDiffers, Unlike;
    forall i | 0 <= i < |qs| ensures Differs(a, b, qs[i]) {
      var ts: seq<string> :| ps[i].path == Pointer(ts) && Difference(ValueOf(a, t).value, ValueOf(b, t).value, ps[i].op, ps[i].value, ts);
      ChildDifference(a, b, t, ps[i], ts);
    }
  }

  lemma ChildDifference(a: Value, b: Value, t: string, p: PatchOp, ts: seq<string>)
    requires ValueOf(a, t).Some? && ValueOf(b, t).Some? && p.path == Pointer(ts)
    requires Difference(ValueOf(a, t).value, ValueOf(b, t).value, p.op, p.value, ts)
    ensures Differs(a, b, p.(path := "/" + Encode(t) + p.path))
  {
    hide ValueOf, Encode, ChildDiffers, Unlike;
    var us := [t] + ts;
    assert us[1..] == ts;
    PointerCons(us);
    assert "/" + Encode(t) + p.path == Pointer(us);
    assert Difference(a, b, p.op, p.value, us);
  }

  // ---- objects ----

  /** A difference between what is left of two objects is one between the objects. */
  lemma {:induction false} FewerDiffer(f: map<string, Value>, t: map<string, Value>, k: string, ps: seq<PatchOp>)
    requires AllDiffer(VObject(f - {k}), VObject(t - {k}), ps)
    ensures AllDiffer(VObject(f), VObject(t), ps)
  {
    hide Pointer, Meaning;
    forall i | 0 <= i < |ps| ensures Differs(VObject(f), VObject(t), ps[i]) {
      var ts: seq<string> :| ps[i].path == Pointer(ts) && Difference(VObject(f - {k}), VObject(t - {k}), ps[i].op, ps[i].value, ts);
      assert Difference(VObject(f), VObject(t), ps[i].op, ps[i].value, ts);
    }
  }

  lemma MemberGone(f: map<string, Value>, t: map<string, Value>, k: string)
    requires k in f && k !in t
    ensures Differs(VObject(f), VObject(t), Op(Remove, Suffixed("", k), None))
  {
    hide Encode, Meaning;
    OneToken(k);
    assert Difference(VObject(f), VObject(t), Remove, None, [k]);
  }

  lemma MemberNew(f: map<string, Value>, t: map<string, Value>, k: string, x: Json)
    requires k !in f && k in t && t[k] == Meaning(x)
    ensures Differs(VObject(f), VObject(t), Op(Add, Suffixed("", k), Some(x)))
  {
    hide Encode, Meaning;
    OneToken(k);
    assert Difference(VObject(f), VObject(t), Add, Some(x), [k]);
  }

  lemma OneToken(k: string)
    ensures Pointer([k]) == "/" + Encode(k) == Suffixed("", k)
  {
    hide Encode;
    SuffixedLift("", k);
    assert [k][1..] == [];
    assert "/" + Encode(k) + "" == "/" + Encode(k);
  }

  /** The walk along two sorted lists. */
  lemma {:induction false} MemberPatchesDiffer(fs: seq<Member>, ts: seq<Member>, cs: bool)
    requires ClearMembers(fs, cs) && ClearMembers(ts, cs) && Ascending(fs, cs) && Ascending(ts, cs)
    requires ApartMembers(MembersMeaning(fs), MembersMeaning(ts), cs)
    ensures AllDiffer(VObject(MembersMeaning(fs)), VObject(MembersMeaning(ts)), MemberPatches("", fs, ts, cs))
    decreases MembersNesting(fs), 1, |fs| + |ts|
  {
    hide Patches, Compare, Clear, Meaning, MembersMeaning, ApartMembers, Tells, Differs, Encode, Suffixed;
    var f, t := MembersMeaning(fs), MembersMeaning(ts);
    if fs == [] && ts == [] {
    } else {
      var diff := if fs == [] then 1 else if ts == [] then -1 else Compare(fs[0].key, ts[0].key, cs);
      if diff == 0 {
        WalkedBoth(fs, ts, cs);
        hide MemberPatches, Patches;
        AllDifferConcat(VObject(f), VObject(t), Patches(Suffixed("", fs[0].key), fs[0].value, ts[0].value, cs), MemberPatches("", fs[1..], ts[1..], cs));
      } else if diff < 0 {
        WalkedFirst(fs, ts, cs);
      } else {
        if fs != [] { CompareFlip(fs[0].key, ts[0].key, cs); }
        WalkedSecond(fs, ts, cs);
      }
    }
  }

  /** A member that only the first list has, and those behind it. */
  lemma {:induction false} WalkedFirst(fs: seq<Member>, ts: seq<Member>, cs: bool)
    requires fs != [] && (ts == [] || Compare(fs[0].key, ts[0].key, cs) < 0)
    requires ClearMembers(fs, cs) && ClearMembers(ts, cs) && Ascending(fs, cs) && Ascending(ts, cs)
    requires ApartMembers(MembersMeaning(fs), MembersMeaning(ts), cs)
    ensures AllDiffer(VObject(MembersMeaning(fs)), VObject(MembersMeaning(ts)),
                      [Op(Remove, Suffixed("", fs[0].key), None)] + MemberPatches("", fs[1..], ts, cs))
    decreases MembersNesting(fs), 1, |fs| + |ts|, 0
  {
    hide Patches, MemberPatches, Compare, Clear, Meaning, MembersMeaning, ApartMembers, Tells, Differs, Encode, AllDiffer, Ascending, Suffixed;
    var f, t, key := MembersMeaning(fs), MembersMeaning(ts), fs[0].key;
    FirstOnly(fs, ts, cs);
    MeaningTail(fs);
    TailClear(fs, cs);
    ApartFewer(f, t, {key}, {}, cs);
    assert t - {} == t && t - {key} == t;
    MemberPatchesDiffer(fs[1..], ts, cs);
    FewerDiffer(f, t, key, MemberPatches("", fs[1..], ts, cs));
    MemberGone(f, t, key);
    var o := Op(Remove, Suffixed("", key), None);
    AllDifferOne(VObject(f), VObject(t), o);
    AllDifferConcat(VObject(f), VObject(t), [o], MemberPatches("", fs[1..], ts, cs));
  }

  /** A member that only the second list has. */
  lemma {:induction false} WalkedSecond(fs: seq<Member>, ts: seq<Member>, cs: bool)
    requires ts != [] && (fs == [] || Compare(ts[0].key, fs[0].key, cs) < 0)
    requires ClearMembers(fs, cs) && ClearMembers(ts, cs) && Ascending(fs, cs) && Ascending(ts, cs)
    requires ApartMembers(MembersMeaning(fs), MembersMeaning(ts), cs)
    ensures AllDiffer(VObject(MembersMeaning(fs)), VObject(MembersMeaning(ts)),
                      [Op(Add, Suffixed("", ts[0].key), Some(ts[0].value))] + MemberPatches("", fs, ts[1..], cs))
    decreases MembersNesting(fs), 1, |fs| + |ts|, 0
  {
    hide Patches, MemberPatches, Compare, Clear, Meaning, MembersMeaning, ApartMembers, Tells, Differs, Encode, AllDiffer, Ascending, Suffixed;
    var f, t, key := MembersMeaning(fs), MembersMeaning(ts), ts[0].key;
    FirstOnly(ts, fs, cs);
    MeaningTail(ts);
    TailClear(ts, cs);
    ApartFewer(f, t, {}, {key}, cs);
    assert f - {} == f && f - {key} == f;
    MemberPatchesDiffer(fs, ts[1..], cs);
    FewerDiffer(f, t, key, MemberPatches("", fs, ts[1..], cs));
    MemberNew(f, t, key, ts[0].value);
    var o := Op(Add, Suffixed("", key), Some(ts[0].value));
    AllDifferOne(VObject(f), VObject(t), o);
    AllDifferConcat(VObject(f), VObject(t), [o], MemberPatches("", fs, ts[1..], cs));
  }

  /** A first key in front of the other list's is not in the other list. */
  lemma FirstOnly(fs: seq<Member>, ts: seq<Member>, cs: bool)
    requires fs != [] && DistinctKeys(fs) && Ascending(ts, cs) && (ts == [] || Compare(fs[0].key, ts[0].key, cs) < 0)
    ensures fs[0].key in MembersMeaning(fs) && MembersMeaning(fs)[fs[0].key] == Meaning(fs[0].value) && fs[0].key !in MembersMeaning(ts)
  {
    hide Meaning, MembersMeaning, Compare;
    FirstMeaning(fs);
    if ts != [] { CompareFlip(fs[0].key, ts[0].key, cs); }
    AheadOfAll(fs[0].key, ts, cs);
    KeyMeant(ts, fs[0].key);
  }

  /** Members with the same key, and those behind them. */
  lemma {:induction false} WalkedBoth(fs: seq<Member>, ts: seq<Member>, cs: bool)
    requires fs != [] && ts != [] && Compare(fs[0].key, ts[0].key, cs) == 0
    requires ClearMembers(fs, cs) && ClearMembers(ts, cs) && Ascending(fs, cs) && Ascending(ts, cs)
    requires ApartMembers(MembersMeaning(fs), MembersMeaning(ts), cs)
    ensures var f, t := VObject(MembersMeaning(fs)), VObject(MembersMeaning(ts));
      && AllDiffer(f, t, Patches(Suffixed("", fs[0].key), fs[0].value, ts[0].value, cs))
      && AllDiffer(f, t, MemberPatches("", fs[1..], ts[1..], cs))
    decreases MembersNesting(fs), 1, |fs| + |ts|, 0
  {
    hide Patches, MemberPatches, Compare, Clear, Meaning, MembersMeaning, ApartMembers, Tells, Differs, Encode, AllDiffer, Ascending;
    var f, t, key := MembersMeaning(fs), MembersMeaning(ts), fs[0].key;
    FirstMeaning(fs);
    FirstMeaning(ts);
    ApartAt(f, t, key, ts[0].key, cs);
    EqualKeys(key, ts[0].key, cs);
    PatchesDiffer(fs[0].value, ts[0].value, cs);
    OneToken(key);
    PatchesLift(Suffixed("", key), fs[0].value, ts[0].value, cs);
    ChildDifferences(VObject(f), VObject(t), key, Patches("", fs[0].value, ts[0].value, cs), Patches(Suffixed("", key), fs[0].value, ts[0].value, cs));
    MeaningTail(fs);
    MeaningTail(ts);
    ApartFewer(f, t, {key}, {key}, cs);
    TailClear(fs, cs);
    TailClear(ts, cs);
    MemberPatchesDiffer(fs[1..], ts[1..], cs);
    FewerDiffer(f, t, key, MemberPatches("", fs[1..], ts[1..], cs));
  }

  // ---- arrays ----

  lemma IndexOfDigits(n: nat)
    ensures Encode(Digits(n)) == Digits(n) && IndexToken(Digits(n)) && DigitsValue(Digits(n)) == n
  {
    hide Digits, DigitsValue, Encode;
    DigitsRoundTrip(n);
    NoLeadingZero(n);
    var t := Digits(n);
    assert '~' !in t && '/' !in t;
    EncodePlain(t);
  }

  lemma ElementGone(xs: seq<Value>, ys: seq<Value>)
    requires |ys| < |xs|
    ensures Differs(VArray(xs), VArray(ys), Op(Remove, Suffixed("", Digits(|ys|)), None))
  {
    hide Encode, Meaning, Digits, DigitsValue, IndexToken;
    var t := Digits(|ys|);
    IndexOfDigits(|ys|);
    OneToken(t);
    assert Difference(VArray(xs), VArray(ys), Remove, None, [t]);
  }

  lemma ElementNew(xs: seq<Value>, ys: seq<Value>, x: Json)
    requires |xs| < |ys| && Meaning(x) in ys[|xs|..]
    ensures Differs(VArray(xs), VArray(ys), Op(Add, Suffixed("", "-"), Some(x)))
  {
    hide Encode, Meaning, DigitsValue, IndexToken;
    OneToken("-");
    assert Difference(VArray(xs), VArray(ys), Add, Some(x), ["-"]);
  }

  /** Leftover elements of the first array: each removal names the end of the second. */
  lemma {:induction false} RemovalsDiffer(xs: seq<Value>, ys: seq<Value>, fs: seq<Json>, cs: bool)
    requires |ys| < |xs|
    ensures AllDiffer(VArray(xs), VArray(ys), ItemPatches("", fs, [], |ys|, cs))
  {
    hide Differs, Digits, Suffixed, Patches;
    if fs != [] {
      RemovalsDiffer(xs, ys, fs[1..], cs);
      var o := Op(Remove, Suffixed("", Digits(|ys|)), None);
      ElementGone(xs, ys);
      AllDifferOne(VArray(xs), VArray(ys), o);
      AllDifferConcat(VArray(xs), VArray(ys), [o], ItemPatches("", fs[1..], [], |ys|, cs));
    }
  }

  /** Elements missing at the end of the first array. */
  lemma {:induction false} AdditionsDiffer(xs: seq<Value>, ys: seq<Value>, ts: seq<Json>, index: nat, cs: bool)
    requires |xs| <= |ys| && forall k :: 0 <= k < |ts| ==> Meaning(ts[k]) in ys[|xs|..]
    ensures AllDiffer(VArray(xs), VArray(ys), ItemPatches("", [], ts, index, cs))
    decreases |ts|
  {
    hide Differs, Digits, Suffixed, Patches, Meaning;
    if ts != [] {
      AdditionsDiffer(xs, ys, ts[1..], index + 1, cs);
      var o := Op(Add, Suffixed("", "-"), Some(ts[0]));
      assert Meaning(ts[0]) in ys[|xs|..];
      ElementNew(xs, ys, ts[0]);
      AllDifferOne(VArray(xs), VArray(ys), o);
      AllDifferConcat(VArray(xs), VArray(ys), [o], ItemPatches("", [], ts[1..], index + 1, cs));
    }
  }

  /** Elements from a common position on. */
  lemma {:induction false} ItemPatchesDiffer(fa: seq<Json>, ta: seq<Json>, index: nat, cs: bool)
    requires index <= |fa| && index <= |ta| && Clear(Array(fa), cs) && Clear(Array(ta), cs) && Apart(Meaning(Array(fa)), Meaning(Array(ta)), cs)
    ensures AllDiffer(Meaning(Array(fa)), Meaning(Array(ta)), ItemPatches("", fa[index..], ta[index..], index, cs))
    decreases ItemsNesting(fa), 1, |fa| - index
  {
    hide Patches, Clear, Meaning, Apart, Differs, Digits, Encode, Suffixed, ItemsMeaning, AllDiffer;
    ArrayMeans(fa);
    ArrayMeans(ta);
    var xs, ys := ItemsMeaning(fa), ItemsMeaning(ta);
    var fs, ts := fa[index..], ta[index..];
    if fs == [] {
      forall k | 0 <= k < |ts| ensures Meaning(ts[k]) in ys[|xs|..] { assert ys[|xs|..][k] == Meaning(ts[k]); }
      AdditionsDiffer(xs, ys, ts, index, cs);
    } else if ts == [] {
      RemovalsDiffer(xs, ys, fs, cs);
    } else {
      assert fs[1..] == fa[index + 1..] && ts[1..] == ta[index + 1..];
      ItemDiffers(fa, ta, index, cs);
      ItemPatchesDiffer(fa, ta, index + 1, cs);
      AllDifferConcat(VArray(xs), VArray(ys), Patches("" + "/" + Digits(index), fs[0], ts[0], cs), ItemPatches("", fs[1..], ts[1..], index + 1, cs));
    }
  }

  lemma {:induction false} ItemDiffers(fa: seq<Json>, ta: seq<Json>, index: nat, cs: bool)
    requires index < |fa| && index < |ta| && Clear(Array(fa), cs) && Clear(Array(ta), cs) && Apart(Meaning(Array(fa)), Meaning(Array(ta)), cs)
    ensures AllDiffer(Meaning(Array(fa)), Meaning(Array(ta)), Patches("" + "/" + Digits(index), fa[index], ta[index], cs))
    decreases ItemsNesting(fa), 1, |fa| - index, 0
  {
    hide Patches, Clear, Meaning, Apart, Differs, Digits, Encode, ItemsMeaning, AllDiffer, DigitsValue, IndexToken, ValueOf, ItemsNesting, Nesting;
    ItemParted(fa, ta, index, cs);
    NestingOfItem(fa, index);
    var t := Digits(index);
    PatchesDiffer(fa[index], ta[index], cs);
    IndexOfDigits(index);
    var step := "/" + Encode(t);
    assert "" + "/" + t == step;
    PatchesLift(step, fa[index], ta[index], cs);
    ChildDifferences(Meaning(Array(fa)), Meaning(Array(ta)), t, Patches("", fa[index], ta[index], cs), Patches(step, fa[index], ta[index], cs));
  }

  lemma ItemParted(fa: seq<Json>, ta: seq<Json>, index: nat, cs: bool)
    requires index < |fa| && index < |ta| && Clear(Array(fa), cs) && Clear(Array(ta), cs) && Apart(Meaning(Array(fa)), Meaning(Array(ta)), cs)
    ensures Clear(fa[index], cs) && Clear(ta[index], cs) && Apart(Meaning(fa[index]), Meaning(ta[index]), cs)
    ensures ValueOf(Meaning(Array(fa)), Digits(index)) == Some(Meaning(fa[index]))
    ensures ValueOf(Meaning(Array(ta)), Digits(index)) == Some(Meaning(ta[index]))
  {
    hide Digits, DigitsValue;
    IndexOfDigits(index);
    assert ItemsMeaning(fa)[index] == Meaning(fa[index]) && ItemsMeaning(ta)[index] == Meaning(ta[index]);
  }

  // ---- whole trees ----

  /**
   Every generated patch is about a difference: a value is replaced only where the types or the
   scalars at its place differ, removed only where the target has none, and added only where the
   source has none, with the value of the target.
   */
  lemma {:induction false} PatchesDiffer(from: Json, to: Json, cs: bool)
    requires Clear(from, cs) && Clear(to, cs) && Apart(Meaning(from), Meaning(to), cs)
    ensures AllDiffer(Meaning(from), Meaning(to), Patches("", from, to, cs))
    decreases Nesting(from), 0, 1
  {
    if SameType(from, to) && from.Array? {
      assert from.items[0..] == from.items && to.items[0..] == to.items;
      hide Clear, Meaning, Apart, AllDiffer;
      ItemPatchesDiffer(from.items, to.items, 0, cs);
    } else if SameType(from, to) && from.Object? {
      hide AllDiffer, MemberPatches;
      SortedDiffer(from.members, to.members, cs);
    } else {
      hide Meaning;
      RootDiffers(from, to, cs);
    }
  }

  lemma RootDiffers(from: Json, to: Json, cs: bool)
    requires !(SameType(from, to) && (from.Array? || from.Object?))
    ensures AllDiffer(Meaning(from), Meaning(to), Patches("", from, to, cs))
  {
    assert Pointer([]) == "";
    if Patches("", from, to, cs) != [] {
      assert Unlike(Meaning(from), Meaning(to));
      assert Difference(Meaning(from), Meaning(to), Replace, Some(to), []);
      AllDifferOne(Meaning(from), Meaning(to), Replacement("", to));
    }
  }

  lemma {:induction false} SortedDiffer(ms: seq<Member>, ns: seq<Member>, cs: bool)
    requires Clear(Object(ms), cs) && Clear(Object(ns), cs) && Apart(Meaning(Object(ms)), Meaning(Object(ns)), cs)
    ensures AllDiffer(Meaning(Object(ms)), Meaning(Object(ns)), Patches("", Object(ms), Object(ns), cs))
    decreases Nesting(Object(ms)), 0, 0
  {
    var fs, ts := SortMembers(ms, cs), SortMembers(ns, cs);
    SortAscends(ms, cs);
    SortAscends(ns, cs);
    SortNesting(ms, cs);
    MeaningPermuted(ms, fs);
    MeaningPermuted(ns, ts);
    ClearSorted(ms, cs);
    ClearSorted(ns, cs);
    hide AllDiffer, MemberPatches, MembersMeaning, Clear, Ascending, Told, SortMembers;
    MemberPatchesDiffer(fs, ts, cs);
  }
}
