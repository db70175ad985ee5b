/**
 For which keys generated patches can be relied on: exactly those that decoding in place restores,
 no two of them differing in case only.
 */
module JsonPatchKeys {
  import opened Json
  import opened JsonTree
  import opened JsonMeaning
  import opened JsonCompare
  import opened JsonKeys
  import opened JsonPointer
  import opened JsonEdit
  import opened JsonPatch
  import opened JsonPatchCode

  /** Arrays have no more elements than a size_t can count. */
  predicate Sized(v: Json)
    decreases v
  {
    match v
    case Array(items) => |items| <= SIZE_LIMIT && forall i :: 0 <= i < |items| ==> Sized(items[i])
    case Object(ms) => forall i :: 0 <= i < |ms| ==> Sized(ms[i].value)
    case _ => true
  }

  /** A tree with distinct sibling keys, all of them among these. */
  ghost predicate Drawn(v: Json, ks: iset<string>)
  {
    Over(v, ks) && Clear(v, true) && Sized(v)
  }

  ghost predicate Patchable(ks: iset<string>)
  {
    (forall k :: k in ks ==> Decodable(k)) && ToldSet(ks)
  }

  /** Generating and applying is right for these trees, if they are drawn from the keys. */
  ghost predicate PatchedRight(doc: Json, from: Json, to: Json, ks: iset<string>, cs: bool)
  {
    Drawn(doc, ks) && Drawn(from, ks) && Drawn(to, ks) && Meaning(doc) == Meaning(from) ==>
    var r := ApplyPatches(doc, GeneratePatches(from, to, cs), cs);
    r.status == 0 && Meaning(r.doc) == Meaning(to)
  }

  lemma {:induction false} DrawnTidy(v: Json, ks: iset<string>)
    requires Drawn(v, ks) && Patchable(ks)
    ensures Tidy(v)
    decreases v
  {
    hide Tells, Compare, Decodable, ToldSet;
    if v.Array? {
      forall i | 0 <= i < |v.items| ensures Tidy(v.items[i]) { DrawnTidy(v.items[i], ks); }
    } else if v.Object? {
      var ms := v.members;
      forall i, j | 0 <= i < |ms| && 0 <= j < |ms| ensures Tells(ms[i].key, ms[j].key, false) {
        SetTells(ms[i].key, ms[j].key, ks);
      }
      forall i | 0 <= i < |ms| ensures Tidy(ms[i].value) { DrawnTidy(ms[i].value, ks); }
    }
  }

  /**
   In both case modes, generating and applying is right for all trees over a set of keys if and
   only if each key is decodable and no two of them differ in case only.
   */
  lemma {:induction false} PatchKeysExact(ks: iset<string>, cs: bool)
    ensures (forall doc, from, to :: PatchedRight(doc, from, to, ks, cs)) <==> Patchable(ks)
  {
    if Patchable(ks) {
      forall doc, from, to ensures PatchedRight(doc, from, to, ks, cs) { PatchableRight(doc, from, to, ks, cs); }
    } else if k :| k in ks && !Decodable(k) {
      UndecodableWrong(k, ks, cs);
    } else {
      var k, l :| k in ks && l in ks && !Tells(k, l, false);
      CompareFlip(k, l, true);
      CompareFlip(k, l, false);
      CompareEqual(k, l);
      if !cs {
        CaseWrong(k, l, ks);
      } else if Compare(l, k, true) < 0 {
        RemovalWrong(k, l, ks);
      } else {
        RemovalWrong(l, k, ks);
      }
    }
  }

  lemma PatchableRight(doc: Json, from: Json, to: Json, ks: iset<string>, cs: bool)
    requires Patchable(ks)
    ensures PatchedRight(doc, from, to, ks, cs)
  {
    hide Tidy, Meaning, Apart, Over, Clear, ApplyPatches, ToldSet, Decodable;
    if Drawn(doc, ks) && Drawn(from, ks) && Drawn(to, ks) && Meaning(doc) == Meaning(from) {
      DrawnTidy(doc, ks);
      DrawnTidy(from, ks);
      DrawnTidy(to, ks);
      OverApart(from, to, ks);
      GenerateThenApply(doc, from, to, cs);
    }
  }

  /** Small objects over the keys. */
  lemma DrawnFlat(ms: seq<Member>, ks: iset<string>)
    requires DistinctKeys(ms) && forall i :: 0 <= i < |ms| ==> ms[i].key in ks && ms[i].value.Int?
    ensures Drawn(Object(ms), ks)
  {
    hide Compare;
    ToldExactly(ms);
    forall i | 0 <= i < |ms| ensures Over(ms[i].value, ks) && Sized(ms[i].value) && Clear(ms[i].value, true) {}
    var v := Object(ms);
    assert Over(v, ks) && Sized(v) && Clear(v, true);
  }

  /** The patch document acts as the patches in it. */
  lemma AppliesAll(doc: Json, from: Json, to: Json, cs: bool)
    ensures ApplyPatches(doc, GeneratePatches(from, to, cs), cs) == ApplyAll(doc, Patches("", from, to, cs), cs)
  {
    hide Patches, ApplyAll, ApplyPatch;
    PatchesNoFrom("", from, to, cs);
    ApplyComposed(doc, Patches("", from, to, cs), cs);
  }

  /** Removing the only member fails. */
  lemma UndecodableWrong(k: string, ks: iset<string>, cs: bool)
    requires k in ks && !Decodable(k)
    ensures exists from, to :: !PatchedRight(from, from, to, ks, cs)
  {
    var from, to := Object([Member(k, Int(0))]), Object([]);
    DrawnFlat([Member(k, Int(0))], ks);
    DrawnFlat([], ks);
    hide Drawn, Decodable, Patches, ApplyAll, ApplyPatches, GeneratePatches, Meaning;
    OnlyMember(k, Int(0), cs);
    AppliesAll(from, from, to, cs);
    assert !PatchedRight(from, from, to, ks, cs);
  }

  /** With regard to case, the wrong member is removed. */
  lemma RemovalWrong(k: string, l: string, ks: iset<string>)
    requires k in ks && l in ks && Decodable(l) && Compare(l, k, true) < 0 && Compare(l, k, false) == 0
    ensures exists from, to :: !PatchedRight(from, from, to, ks, true)
  {
    CompareSame(k, true);
    var a, b := Member(k, Int(0)), Member(l, Int(1));
    var from, to := Object([a, b]), Object([a]);
    DrawnFlat([a, b], ks);
    DrawnFlat([a], ks);
    hide Drawn, Decodable, Patches, ApplyAll, ApplyPatches, GeneratePatches, Meaning, MembersMeaning, Compare;
    WrongMemberRemoved(k, l, 0, 1);
    AppliesAll(from, from, to, true);
    SingleMeaning(a, b);
    assert !PatchedRight(from, from, to, ks, true);
  }

  lemma SingleMeaning(a: Member, b: Member)
    requires a.key != b.key
    ensures Meaning(Object([a])) != Meaning(Object([b]))
  {
    hide MembersMeaning;
    ObjectMeaning([a]);
    ObjectMeaning([b]);
    MemberMeant([a], 0);
    if a.key in MembersMeaning([b]) { MeantMember([b], a.key); }
  }

  /** Without regard to case, a key that changes its case only is not seen to change. */
  lemma CaseWrong(k: string, l: string, ks: iset<string>)
    requires k in ks && l in ks && k != l && Compare(k, l, false) == 0
    ensures exists from, to :: !PatchedRight(from, from, to, ks, false)
  {
    var a, b := Member(k, Int(0)), Member(l, Int(0));
    var from, to := Object([a]), Object([b]);
    DrawnFlat([a], ks);
    DrawnFlat([b], ks);
    hide Drawn, ApplyAll, ApplyPatches, GeneratePatches, Meaning, MembersMeaning, Compare;
    PatchesUnseen(a, b);
    AppliesAll(from, from, to, false);
    ApplyNothing(from, false);
    SingleMeaning(a, b);
    assert !PatchedRight(from, from, to, ks, false);
  }

  lemma PatchesUnseen(a: Member, b: Member)
    requires Compare(a.key, b.key, false) == 0 && a.value.Int? && a.value == b.value
    ensures Patches("", Object([a]), Object([b]), false) == []
  {
    hide Compare, Suffixed;
    assert [a][1..] == [] && [b][1..] == [];
    assert Patches(Suffixed("", a.key), a.value, b.value, false) == [];
    assert MemberPatches("", [a], [b], false) == [] + MemberPatches("", [], [], false);
    assert SortMembers([a], false) == [a] && SortMembers([b], false) == [b];
    assert Object([a]).members == [a] && Object([b]).members == [b];
  }
}
