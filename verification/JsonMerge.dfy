/**
 JSON Merge Patch: merge_patch against the function of section 2 of RFC 7396, and the proof
 that a generated merge patch turns `from` into `to`.
 */
module JsonMerge {
  import opened Json
  import opened JsonTree
  import opened JsonMeaning
  import opened JsonCompare

  // ---- the function of RFC 7396 ----

  /** MergePatch of section 2 of RFC 7396 on meanings; an absent target is VNull. */
  ghost function RfcMerge(t: Value, p: Value): Value
    decreases p
  {
    if !p.VObject? then p
    else
      var tm := if t.VObject? then t.members else map[];
      VObject(map k | k in tm.Keys + p.members.Keys && !(k in p.members && p.members[k] == VNull)
                :: if k in p.members then RfcMerge(if k in tm then tm[k] else VNull, p.members[k]) else tm[k])
  }

  /** The members of the result for an object patch. */
  ghost function RfcMembers(t: map<string, Value>, p: map<string, Value>): (r: map<string, Value>)
    ensures forall k :: k in r <==> if k in p then p[k] != VNull else k in t
    ensures forall k :: k in r ==> r[k] == if k in p then RfcMerge(Under(t, k), p[k]) else t[k]
  {
    assert RfcMerge(VObject(t), VObject(p)).VObject?;
    RfcMerge(VObject(t), VObject(p)).members
  }

  ghost function Under(t: map<string, Value>, k: string): Value
  {
    if k in t then t[k] else VNull
  }

  function MembersOr(v: Value): map<string, Value>
  {
    if v.VObject? then v.members else map[]
  }

  lemma RfcObject(t: Value, p: Value)
    requires p.VObject?
    ensures RfcMerge(t, p) == VObject(RfcMembers(if t.VObject? then t.members else map[], p.members))
  {
  }

  // ---- merge_patch ----

  /** merge_patch; None is a null pointer as target. */
  function MergePatch(target: Option<Json>, patch: Json, cs: bool): Json
    decreases patch
  {
    if !patch.Object? then patch
    else Object(MergeMembers(if target.Some? && target.value.Object? then target.value.members else [], patch.members, cs))
  }

  function MergeMembers(ts: seq<Member>, ps: seq<Member>, cs: bool): seq<Member>
    decreases ps
  {
    if ps == [] then ts else MergeMembers(MergeOne(ts, ps[0], cs), ps[1..], cs)
  }

  /** One member of the patch: detach the old value, append the merged one unless it is null. */
  function MergeOne(ts: seq<Member>, p: Member, cs: bool): seq<Member>
    decreases p
  {
    var i := IndexOf(ts, p.key, cs);
    var rest := if i < |ts| then RemoveAt(ts, i) else ts;
    if p.value.Null? then rest
    else rest + [Member(p.key, MergePatch(if i < |ts| then Some(ts[i].value) else None, p.value, cs))]
  }

  ghost function Sense(t: Option<Json>): Value
  {
    if t == None then VNull else Meaning(t.value)
  }

  predicate ClearOption(t: Option<Json>, cs: bool)
  {
    t.Some? ==> Clear(t.value, cs)
  }

  /** What one patch member does to the meaning. */
  ghost function OneStep(m: map<string, Value>, key: string, p: Value): map<string, Value>
  {
    if p == VNull then m - {key} else (m - {key})[key := RfcMerge(Under(m, key), p)]
  }

  /** Taking a patch member first or leaving it in the map makes no difference. */
  lemma {:induction false} RfcStep(m: map<string, Value>, p: map<string, Value>, key: string)
    requires key in p
    ensures RfcMembers(OneStep(m, key, p[key]), p - {key}) == RfcMembers(m, p)
  {
    hide RfcMerge, RfcMembers;
    var a, b := RfcMembers(OneStep(m, key, p[key]), p - {key}), RfcMembers(m, p);
    forall k | k in a || k in b ensures k in a && k in b && a[k] == b[k] {
    }
  }

  lemma RfcNothing(m: map<string, Value>)
    ensures RfcMembers(m, map[]) == m
  {
    hide RfcMembers;
    var a := RfcMembers(m, map[]);
    forall k | k in a || k in m ensures k in a && k in m && a[k] == m[k] {
    }
  }

  // ---- what a patch does, member by member ----

  /** What merging a patch makes of a value. Unlike the RFC's function this says what repeated members do. */
  ghost function Applied(t: Value, p: Json): Value
    decreases p
  {
    if !p.Object? then Meaning(p) else VObject(AppliedMembers(MembersOr(t), p.members))
  }

  ghost function AppliedMembers(m: map<string, Value>, ps: seq<Member>): map<string, Value>
    decreases ps
  {
    if ps == [] then m else AppliedMembers(AppliedOne(m, ps[0]), ps[1..])
  }

  ghost function AppliedOne(m: map<string, Value>, p: Member): map<string, Value>
    decreases p
  {
    if p.value.Null? then m - {p.key} else (m - {p.key})[p.key := Applied(Under(m, p.key), p.value)]
  }

  /** At each member of the patch, its key is told apart from those that are there. */
  ghost predicate Fits(t: Value, p: Json, cs: bool)
    decreases p
  {
    if !p.Object? then Clear(p, cs) else FitsMembers(MembersOr(t), p.members, cs)
  }

  ghost predicate FitsMembers(m: map<string, Value>, ps: seq<Member>, cs: bool)
    decreases ps
  {
    ps != [] ==> FitsOne(m, ps[0], cs) && FitsMembers(AppliedOne(m, ps[0]), ps[1..], cs)
  }

  ghost predicate FitsOne(m: map<string, Value>, p: Member, cs: bool)
    decreases p
  {
    (forall k :: k in m ==> Tells(p.key, k, cs)) && (!p.value.Null? ==> Fits(Under(m, p.key), p.value, cs))
  }

  /** merge_patch does this, also for patches that name a key more than once. */
  lemma {:induction false} MergeApplies(target: Option<Json>, patch: Json, cs: bool)
    requires ClearOption(target, cs) && Fits(Sense(target), patch, cs)
    ensures Meaning(MergePatch(target, patch, cs)) == Applied(Sense(target), patch)
    ensures Clear(MergePatch(target, patch, cs), cs)
    decreases patch, 1
  {
    hide MembersMeaning, Clear;
    if patch.Object? {
      var ts := if target.Some? && target.value.Object? then target.value.members else [];
      if target.Some? { ClearParts(target.value, cs); }
      NoMembers();
      hide Meaning;
      TargetMembers(target, ts);
      MergeMembersApply(ts, patch.members, cs);
      ObjectMeaning(MergeMembers(ts, patch.members, cs));
      ClearObject(MergeMembers(ts, patch.members, cs), cs);
    }
  }

  lemma TargetMembers(target: Option<Json>, ts: seq<Member>)
    requires ts == if target.Some? && target.value.Object? then target.value.members else []
    ensures MembersOr(Sense(target)) == MembersMeaning(ts)
  {
    NoMembers();
  }

  lemma ClearParts(v: Json, cs: bool)
    requires Clear(v, cs)
    ensures v.Object? ==> ClearMembers(v.members, cs)
  {
  }

  lemma ClearObject(ms: seq<Member>, cs: bool)
    requires ClearMembers(ms, cs)
    ensures Clear(Object(ms), cs)
  {
  }

  lemma NoMembers()
    ensures MembersMeaning([]) == map[]
  {
  }

  lemma {:induction false} MergeMembersApply(ts: seq<Member>, ps: seq<Member>, cs: bool)
    requires ClearMembers(ts, cs) && FitsMembers(MembersMeaning(ts), ps, cs)
    ensures ClearMembers(MergeMembers(ts, ps, cs), cs)
    ensures MembersMeaning(MergeMembers(ts, ps, cs)) == AppliedMembers(MembersMeaning(ts), ps)
    decreases ps, 0
  {
    hide MembersMeaning, MergeOne, Clear, AppliedOne, FitsOne, DistinctKeys;
    if ps != [] {
      MergeOneApplies(ts, ps[0], cs);
      MergeMembersApply(MergeOne(ts, ps[0], cs), ps[1..], cs);
    }
  }

  /** A patch key is told apart from the keys of the target. */
  predicate KeyApart(key: string, ts: seq<Member>, cs: bool)
  {
    forall i :: 0 <= i < |ts| ==> Tells(key, ts[i].key, cs)
  }

  lemma KeyApartOf(key: string, ts: seq<Member>, cs: bool)
    requires DistinctKeys(ts) && forall k :: k in MembersMeaning(ts) ==> Tells(key, k, cs)
    ensures KeyApart(key, ts, cs)
  {
    hide MembersMeaning, Tells, DistinctKeys, Meaning, HasKey;
    forall i | 0 <= i < |ts| ensures Tells(key, ts[i].key, cs) { MemberMeant(ts, i); }
  }

  lemma {:induction false} MergeOneApplies(ts: seq<Member>, p: Member, cs: bool)
    requires ClearMembers(ts, cs) && FitsOne(MembersMeaning(ts), p, cs)
    ensures ClearMembers(MergeOne(ts, p, cs), cs)
    ensures MembersMeaning(MergeOne(ts, p, cs)) == AppliedOne(MembersMeaning(ts), p)
    decreases p, 0
  {
    hide MembersMeaning, Clear, RemoveAt, MergePatch, Meaning, HasKey, DistinctKeys, Tells, Fits, Applied;
    var i := IndexOf(ts, p.key, cs);
    KeyApartOf(p.key, ts, cs);
    FoundMember(ts, p.key, cs);
    var m := MembersMeaning(ts);
    var rest := if i < |ts| then RemoveAt(ts, i) else ts;
    var old_value := if i < |ts| then Some(ts[i].value) else None;
    assert Sense(old_value) == Under(m, p.key);
    assert ClearMembers(rest, cs) && MembersMeaning(rest) == m - {p.key} && !HasKey(rest, p.key) && KeyApart(p.key, rest, cs) by {
      if i < |ts| { ClearRemoved(ts, i, cs); } else { assert m - {p.key} == m; }
    }
    if !p.value.Null? {
      MergeApplies(old_value, p.value, cs);
      var merged := MergePatch(old_value, p.value, cs);
      MeaningAppend(rest, p.key, merged);
      ClearAppended(rest, p.key, merged, cs);
    }
  }

  /** For patches with distinct keys this is the function of the RFC. */
  lemma {:induction false} AppliedIsRfc(t: Value, p: Json, cs: bool)
    requires Clear(p, cs) && Apart(t, Meaning(p), cs)
    ensures Fits(t, p, cs) && Applied(t, p) == RfcMerge(t, Meaning(p))
    decreases p, 1
  {
    hide RfcMerge, RfcMembers, MembersMeaning, Clear, Apart;
    if p.Object? {
      ClearParts(p, cs);
      ApartParts(t, p, cs);
      AppliedMembersRfc(MembersOr(t), p.members, cs);
      RfcObject(t, Meaning(p));
    } else {
      ScalarIsRfc(t, p);
    }
  }

  lemma ApartParts(t: Value, p: Json, cs: bool)
    requires p.Object? && Apart(t, Meaning(p), cs)
    ensures ApartMembers(MembersOr(t), MembersMeaning(p.members), cs)
  {
  }

  lemma ScalarIsRfc(t: Value, patch: Json)
    requires !patch.Object?
    ensures RfcMerge(t, Meaning(patch)) == Meaning(patch)
  {
    assert !Meaning(patch).VObject?;
  }

  lemma {:induction false} AppliedMembersRfc(m: map<string, Value>, ps: seq<Member>, cs: bool)
    requires ClearMembers(ps, cs) && ApartMembers(m, MembersMeaning(ps), cs)
    ensures FitsMembers(m, ps, cs) && AppliedMembers(m, ps) == RfcMembers(m, MembersMeaning(ps))
    decreases ps, 0
  {
    hide RfcMerge, RfcMembers, MembersMeaning, Clear, ApartMembers, Apart, Meaning, DistinctKeys, OneStep, AppliedOne, FitsOne, Tells;
    if ps == [] {
      NoMembers();
      RfcNothing(m);
    } else {
      assert DistinctKeys(ps);
      MeaningTail(ps);
      FirstMeaning(ps);
      ClearSelf(ps, cs);
      ApartStep(m, MembersMeaning(ps), ps[0].key, cs);
      ApartFirst(m, MembersMeaning(ps), ps[0].key, cs);
      AppliedOneRfc(m, ps[0], cs);
      RfcStep(m, MembersMeaning(ps), ps[0].key);
      AppliedMembersRfc(AppliedOne(m, ps[0]), ps[1..], cs);
    }
  }

  lemma {:induction false} AppliedOneRfc(m: map<string, Value>, p: Member, cs: bool)
    requires Clear(p.value, cs) && (forall k :: k in m ==> Tells(p.key, k, cs)) && Apart(Under(m, p.key), Meaning(p.value), cs)
    ensures FitsOne(m, p, cs) && AppliedOne(m, p) == OneStep(m, p.key, Meaning(p.value))
    decreases p, 0
  {
    hide Clear, Apart, RfcMerge, Meaning, Applied, Fits, Tells;
    NullMeans(p.value);
    AppliedIsRfc(Under(m, p.key), p.value, cs);
  }

  lemma ApartFirst(m: map<string, Value>, p: map<string, Value>, key: string, cs: bool)
    requires key in p && ApartMembers(m, p, cs)
    ensures (forall k :: k in m ==> Tells(key, k, cs)) && Apart(Under(m, key), p[key], cs)
  {
    hide Tells;
    forall k | k in m ensures Tells(key, k, cs) { TellsFlip(k, key, cs); }
  }

  lemma ClearSelf(ps: seq<Member>, cs: bool)
    requires ClearMembers(ps, cs)
    ensures ApartMembers(MembersMeaning(ps), MembersMeaning(ps), cs)
  {
    hide Apart;
    ClearParted(Object(ps), cs);
  }

  lemma ApartStep(m: map<string, Value>, p: map<string, Value>, key: string, cs: bool)
    requires ApartMembers(m, p, cs) && ApartMembers(p, p, cs) && key in p
    ensures ApartMembers(OneStep(m, key, p[key]), p - {key}, cs)
  {
    hide RfcMerge, Tells;
  }

  /** merge_patch computes the function of the RFC, whenever keys can be told apart. */
  lemma {:induction false} MergeIsRfc(target: Option<Json>, patch: Json, cs: bool)
    requires ClearOption(target, cs) && Clear(patch, cs) && Apart(Sense(target), Meaning(patch), cs)
    ensures Meaning(MergePatch(target, patch, cs)) == RfcMerge(Sense(target), Meaning(patch))
    ensures Clear(MergePatch(target, patch, cs), cs)
  {
    hide MergePatch, Fits, Applied, RfcMerge, Clear, Apart, Meaning;
    AppliedIsRfc(Sense(target), patch, cs);
    MergeApplies(target, patch, cs);
  }

  lemma NullMeans(v: Json)
    ensures Meaning(v) == VNull <==> v.Null?
  {
  }

  /** The lookup agrees with the meaning. */
  lemma FoundMember(ts: seq<Member>, key: string, cs: bool)
    requires DistinctKeys(ts) && KeyApart(key, ts, cs)
    ensures var i := IndexOf(ts, key, cs); var m := MembersMeaning(ts);
      if i < |ts| then ts[i].key == key && key in m && m[key] == Meaning(ts[i].value) else key !in m && !HasKey(ts, key)
  {
    IndexOfKey(ts, key, cs);
  }

  lemma ClearRemoved(ts: seq<Member>, i: nat, cs: bool)
    requires i < |ts| && ClearMembers(ts, cs)
    ensures ClearMembers(RemoveAt(ts, i), cs) && !HasKey(RemoveAt(ts, i), ts[i].key)
    ensures forall key :: KeyApart(key, ts, cs) ==> KeyApart(key, RemoveAt(ts, i), cs)
    ensures MembersMeaning(RemoveAt(ts, i)) == MembersMeaning(ts) - {ts[i].key}
  {
    hide Clear, MembersMeaning, Meaning, Tells, DistinctKeys;
    MeaningRemove(ts, i);
    RemoveDistinct(ts, i);
    Remaining(ts, i);
    var ns := RemoveAt(ts, i);
    hide RemoveAt;
    forall k, l | 0 <= k < |ns| && 0 <= l < |ns| ensures Tells(ns[k].key, ns[l].key, cs) {
      assert ns[k] in ts && ns[l] in ts;
    }
    forall k | 0 <= k < |ns| ensures Clear(ns[k].value, cs) { assert ns[k] in ts; }
  }

  lemma Remaining(ts: seq<Member>, i: nat)
    requires i < |ts| && DistinctKeys(ts)
    ensures var ns := RemoveAt(ts, i); forall k :: 0 <= k < |ns| ==> ns[k] in ts && ns[k].key != ts[i].key
  {
    var ns := RemoveAt(ts, i);
    forall k | 0 <= k < |ns| ensures ns[k] in ts && ns[k].key != ts[i].key {
      var j := if k < i then k else k + 1;
      assert ns[k] == ts[j];
      DistinctAt(ts, i, j);
    }
  }

  lemma ClearAppended(ts: seq<Member>, key: string, x: Json, cs: bool)
    requires ClearMembers(ts, cs) && Clear(x, cs) && !HasKey(ts, key) && KeyApart(key, ts, cs)
    ensures ClearMembers(ts + [Member(key, x)], cs)
  {
    hide Clear, MembersMeaning, Meaning, Tells, DistinctKeys, HasKey;
    MeaningAppend(ts, key, x);
    forall i | 0 <= i < |ts| ensures Tells(ts[i].key, key, cs) { TellsFlip(key, ts[i].key, cs); }
    TellsFlip(key, key, cs);
  }

  // ---- generate_merge_patch ----

  /** None is the null pointer that says there is nothing to change. */
  function GenerateMerge(from: Json, to: Json, cs: bool): Option<Json>
    decreases Nesting(from), 0, 0
  {
    if !to.Object? || !from.Object? then Some(to)
    else
      SortNesting(from.members, cs);
      var ms := GenerateMembers(SortMembers(from.members, cs), SortMembers(to.members, cs), cs);
      if ms == [] then None else Some(Object(ms))
  }

  /** The walk compares keys with strcmp, and values below it without regard to case. */
  function GenerateMembers(fs: seq<Member>, ts: seq<Member>, cs: bool): seq<Member>
    decreases MembersNesting(fs), 1, |fs| + |ts|
  {
    if fs == [] && ts == [] then []
    else
      var diff := if fs == [] then 1 else if ts == [] then -1 else Compare(fs[0].key, ts[0].key, true);
      if diff < 0 then [Member(fs[0].key, Null)] + GenerateMembers(fs[1..], ts, cs)
      else if diff > 0 then [ts[0]] + GenerateMembers(fs, ts[1..], cs)
      else GenerateCommon(fs[0], ts[0], cs) + GenerateMembers(fs[1..], ts[1..], cs)
  }

  /** What a key in both objects contributes, with the values as the comparison has left them. */
  function GenerateCommon(f: Member, t: Member, cs: bool): seq<Member>
    decreases Nesting(f.value), 0, 1
  {
    if CompareJson(f.value, t.value, cs) then []
    else
      AfterNesting(f.value, t.value, cs);
      var r := AfterCompare(f.value, t.value, cs);
      var p := GenerateMerge(r.0, r.1, false);
      if p == None then [] else [Member(t.key, p.value)]
  }

  function OptionOf(gs: seq<Member>): Option<Json>
  {
    if gs == [] then None else Some(Object(gs))
  }

  lemma GenerateObjects(fs: seq<Member>, ts: seq<Member>, cs: bool)
    ensures GenerateMerge(Object(fs), Object(ts), cs) == OptionOf(GenerateMembers(SortMembers(fs, cs), SortMembers(ts, cs), cs))
  {
    hide SortMembers, GenerateMembers;
  }

  /** No object member is null, except inside arrays: null there means removal. */
  predicate NoNullMembers(v: Json)
    decreases v
  {
    v.Object? ==> forall i :: 0 <= i < |v.members| ==> !v.members[i].value.Null? && NoNullMembers(v.members[i].value)
  }

  /** Merging a value into nothing gives the value exactly when it has no null members. */
  lemma {:induction false} MergeIntoNothing(v: Json)
    requires Clear(v, true)
    ensures RfcMerge(VNull, Meaning(v)) == Meaning(v) <==> NoNullMembers(v)
    decreases v
  {
    if v.Object? {
      var ms := v.members;
      RfcObject(VNull, Meaning(v));
      hide RfcMerge, RfcMembers, MembersMeaning, DistinctKeys;
      forall i | 0 <= i < |ms| ensures IntoNothing(ms[i].value) <==> !ms[i].value.Null? && NoNullMembers(ms[i].value) {
        MergeIntoNothing(ms[i].value);
        NullMeans(ms[i].value);
      }
      MembersIntoNothing(ms);
    }
  }

  ghost predicate IntoNothing(v: Json)
  {
    Meaning(v) != VNull && RfcMerge(VNull, Meaning(v)) == Meaning(v)
  }

  lemma MembersIntoNothing(ms: seq<Member>)
    requires DistinctKeys(ms)
    ensures RfcMembers(map[], MembersMeaning(ms)) == MembersMeaning(ms) <==> forall i :: 0 <= i < |ms| ==> IntoNothing(ms[i].value)
  {
    hide RfcMerge, RfcMembers, MembersMeaning, DistinctKeys, Meaning;
    var p := MembersMeaning(ms);
    var r := RfcMembers(map[], p);
    forall i | 0 <= i < |ms| ensures ms[i].key in p && p[ms[i].key] == Meaning(ms[i].value) { MemberMeant(ms, i); }
    if forall i :: 0 <= i < |ms| ==> IntoNothing(ms[i].value) {
      forall k | k in p ensures p[k] != VNull && RfcMerge(VNull, p[k]) == p[k] {
        MeantMember(ms, k);
        var i :| 0 <= i < |ms| && ms[i].key == k;
        assert IntoNothing(ms[i].value);
      }
      RfcSame(r, p);
    }
    if r == p {
      forall i | 0 <= i < |ms| ensures IntoNothing(ms[i].value) { assert ms[i].key in r; }
    }
  }

  // ---- the patch between two meanings ----

  /** What a generated patch means. For equal objects it has no members. */
  ghost function Between(f: Value, t: Value): Value
    decreases t
  {
    if !f.VObject? || !t.VObject? then t
    else
      VObject(map k | k in f.members.Keys + t.members.Keys && !(k in f.members && k in t.members && f.members[k] == t.members[k])
                :: if k !in t.members then VNull
                   else if k !in f.members then t.members[k]
                   else Between(f.members[k], t.members[k]))
  }

  ghost function BetweenMembers(f: map<string, Value>, t: map<string, Value>): (r: map<string, Value>)
    ensures forall k :: k in r <==> (k in f || k in t) && !(k in f && k in t && f[k] == t[k])
    ensures forall k :: k in r ==> r[k] == if k !in t then VNull else if k !in f then t[k] else Between(f[k], t[k])
  {
    assert Between(VObject(f), VObject(t)).VObject?;
    Between(VObject(f), VObject(t)).members
  }

  lemma BetweenObjects(f: map<string, Value>, t: map<string, Value>)
    ensures Between(VObject(f), VObject(t)) == VObject(BetweenMembers(f, t))
  {
  }

  lemma BetweenNothing(f: map<string, Value>, t: map<string, Value>)
    ensures BetweenMembers(f, t) == map[] <==> f == t
  {
    hide Between, BetweenMembers;
    var r := BetweenMembers(f, t);
    if r == map[] {
      forall k | k in f || k in t ensures k in f && k in t && f[k] == t[k] { assert k !in r; }
    }
  }

  /**
   A merge patch can turn f into t: each member of t is one of f as well, or it is not null and can
   be reached from what f has there.
   */
  ghost predicate Expressible(f: Value, t: Value)
    decreases t
  {
    t.VObject? ==>
      forall k :: k in t.members ==>
        || (k in MembersOr(f) && MembersOr(f)[k] == t.members[k])
        || (t.members[k] != VNull && Expressible(Under(MembersOr(f), k), t.members[k]))
  }

  /** Merging the patch between two values into the first gives the second exactly when a patch can do so. */
  lemma {:induction false} BetweenExact(f: Value, t: Value)
    ensures RfcMerge(f, Between(f, t)) == t <==> Expressible(f, t)
    decreases t
  {
    if t.VObject? {
      var m, p := MembersOr(f), MembersOr(Between(f, t));
      BetweenIsObject(f, t);
      RfcObject(f, Between(f, t));
      var r := RfcMembers(m, p);
      assert RfcMerge(f, Between(f, t)) == VObject(r);
      hide RfcMerge, Between, RfcMembers, Expressible;
      forall k | k in t.members
        ensures k in r && r[k] == t.members[k] <==> Reached(m, t.members, k)
      {
        BetweenExact(Under(m, k), t.members[k]);
        BetweenMember(f, t, k);
      }
      forall k | k in r ensures k in t.members {
        if k !in t.members { BetweenRemoves(f, t, k); }
      }
      if r == t.members {
        assert forall k :: k in t.members ==> Reached(m, t.members, k);
      }
      if forall k :: k in t.members ==> Reached(m, t.members, k) {
        RfcSame(r, t.members);
      }
      ExpressibleMembers(f, t);
    }
  }

  ghost predicate Reached(m: map<string, Value>, t: map<string, Value>, k: string)
    requires k in t
  {
    (k in m && m[k] == t[k]) || (t[k] != VNull && Expressible(Under(m, k), t[k]))
  }

  lemma ExpressibleMembers(f: Value, t: Value)
    requires t.VObject?
    ensures Expressible(f, t) <==> forall k :: k in t.members ==> Reached(MembersOr(f), t.members, k)
  {
  }

  lemma BetweenIsObject(f: Value, t: Value)
    requires t.VObject?
    ensures Between(f, t).VObject?
  {
  }

  /** The entry of the patch for a member of t. */
  lemma BetweenMember(f: Value, t: Value, k: string)
    requires t.VObject? && k in t.members
    ensures var m, p := MembersOr(f), MembersOr(Between(f, t));
      if k in m && m[k] == t.members[k] then k !in p
      else k in p && p[k] == Between(Under(m, k), t.members[k]) && (p[k] == VNull <==> t.members[k] == VNull)
  {
    if f.VObject? {
      BetweenObjects(f.members, t.members);
    }
  }

  lemma BetweenRemoves(f: Value, t: Value, k: string)
    requires t.VObject? && k !in t.members
    ensures var m, p := MembersOr(f), MembersOr(Between(f, t)); if k in p then p[k] == VNull else k !in m
  {
    if f.VObject? {
      BetweenObjects(f.members, t.members);
    }
  }

  lemma RfcSame(a: map<string, Value>, b: map<string, Value>)
    requires forall k :: k in a <==> k in b
    requires forall k :: k in a ==> a[k] == b[k]
    ensures a == b
  {
  }

  /** Keys that are told apart from those of both values are told apart from those of the patch. */
  lemma {:induction false} ApartBetween(x: Value, f: Value, t: Value, cs: bool)
    requires Apart(x, f, cs) && Apart(x, t, cs)
    ensures Apart(x, Between(f, t), cs)
    decreases t
  {
    if f.VObject? && t.VObject? && x.VObject? {
      BetweenObjects(f.members, t.members);
      var m, p := x.members, BetweenMembers(f.members, t.members);
      hide BetweenMembers, Between, Tells;
      forall k, l | k in m && l in p ensures Tells(k, l, cs) {}
      forall k | k in m && k in p ensures Apart(m[k], p[k], cs) {
        if k in f.members && k in t.members {
          ApartBetween(m[k], f.members[k], t.members[k], cs);
        }
      }
    }
  }

  // ---- what the walk produces ----

  /** The order of the keys in this mode is that of strcmp. */
  predicate Ordered(ks: set<string>, cs: bool)
  {
    forall k, l :: k in ks && l in ks ==> (Compare(k, l, cs) < 0 <==> Compare(k, l, true) < 0)
  }

  /** The comparison tells the keys apart. */
  predicate ToldKeys(ks: set<string>, cs: bool)
  {
    forall k, l :: k in ks && l in ks ==> Tells(k, l, cs)
  }

  /** compare_json can decide whether the values are equal. */
  ghost predicate Comparable(f: Value, t: Value, cs: bool)
  {
    Apart(f, f, cs) && Apart(t, t, cs) && Apart(f, t, cs)
  }

  /**
   The walk meets the members in step. The lists are sorted in the caller's mode at the top and
   ignoring case below, but walked along with strcmp: either the two orders agree on the keys of
   each object, or both objects have the same keys.
   */
  ghost predicate Walkable(f: Value, t: Value, cs: bool)
    decreases f
  {
    f.VObject? && t.VObject? ==>
      && ((Ordered(f.members.Keys, cs) && Ordered(t.members.Keys, cs)) || (f.members.Keys == t.members.Keys && ToldKeys(f.members.Keys, cs)))
      && forall k :: k in f.members && k in t.members ==>
           Comparable(f.members[k], t.members[k], cs) && Walkable(f.members[k], t.members[k], false)
  }

  /** The values of common members, as the walk needs them. */
  ghost predicate Meeting(f: map<string, Value>, t: map<string, Value>, cs: bool)
  {
    forall k :: k in f && k in t ==> Comparable(f[k], t[k], cs) && Walkable(f[k], t[k], false)
  }

  /** With regard to case the order is always right. */
  lemma OrderedExactly(ks: set<string>)
    ensures Ordered(ks, true)
  {
  }

  lemma OrderedTold(ks: set<string>, cs: bool)
    requires Ordered(ks, cs)
    ensures ToldKeys(ks, cs)
  {
    forall k, l | k in ks && l in ks ensures Tells(k, l, cs) {
      CompareFlip(k, l, true);
      CompareFlip(k, l, cs);
      CompareEqual(k, l);
    }
  }

  lemma ToldList(ms: seq<Member>, cs: bool)
    requires DistinctKeys(ms) && ToldKeys(MembersMeaning(ms).Keys, cs)
    ensures Told(ms, cs)
  {
    hide MembersMeaning, DistinctKeys, Tells, HasKey;
    forall i | 0 <= i < |ms| ensures ms[i].key in MembersMeaning(ms) { MemberMeant(ms, i); }
  }

  /** The values of a list are clear with regard to case. */
  predicate ClearList(ms: seq<Member>)
  {
    DistinctKeys(ms) && forall i :: 0 <= i < |ms| ==> Clear(ms[i].value, true)
  }

  lemma ListDistinct(ms: seq<Member>)
    requires ClearList(ms)
    ensures DistinctKeys(ms)
  {
  }

  lemma ClearListParts(v: Json)
    requires v.Object?
    ensures Clear(v, true) <==> ClearList(v.members)
  {
    ToldExactly(v.members);
  }

  lemma ToldSorts(ms: seq<Member>, cs: bool)
    requires ClearList(ms) && ToldKeys(MembersMeaning(ms).Keys, cs)
    ensures var ns := SortMembers(ms, cs); ClearList(ns) && Ascending(ns, cs) && MembersMeaning(ns) == MembersMeaning(ms)
  {
    hide SortMembers, Clear, MembersMeaning, ToldKeys;
    var ns := SortMembers(ms, cs);
    ToldList(ms, cs);
    SortAscends(ms, cs);
    PermutedKeys(ms, ns);
    MeaningPermuted(ms, ns);
  }

  /** Two lists that the walk goes along in step. */
  predicate InStep(fs: seq<Member>, ts: seq<Member>)
  {
    (Ascending(fs, true) && Ascending(ts, true)) || (|fs| == |ts| && forall i :: 0 <= i < |fs| ==> fs[i].key == ts[i].key)
  }

  lemma OrderedAscends(ms: seq<Member>, cs: bool)
    requires Ascending(ms, cs) && DistinctKeys(ms) && Ordered(MembersMeaning(ms).Keys, cs)
    ensures Ascending(ms, true)
  {
    hide MembersMeaning, DistinctKeys, Compare, HasKey;
    forall i | 0 <= i < |ms| ensures ms[i].key in MembersMeaning(ms) { MemberMeant(ms, i); }
  }

  /** Ascending lists with the same keys have them in the same places. */
  lemma {:induction false} SameKeySequence(fs: seq<Member>, ts: seq<Member>, cs: bool)
    requires Ascending(fs, cs) && Ascending(ts, cs) && Told(fs, cs) && Told(ts, cs) && MembersMeaning(fs).Keys == MembersMeaning(ts).Keys
    ensures |fs| == |ts| && forall i :: 0 <= i < |fs| ==> fs[i].key == ts[i].key
    decreases |fs|
  {
    hide MembersMeaning, Ascending, DistinctKeys, Tells;
    assert DistinctKeys(fs) && DistinctKeys(ts) by { assert Told(fs, cs) && Told(ts, cs); }
    if fs != [] { MemberMeant(fs, 0); }
    if ts != [] { MemberMeant(ts, 0); }
    if fs == [] || ts == [] {
      NoMembers();
    } else {
      FirstKeys(fs, ts, cs);
      MeaningTail(fs);
      MeaningTail(ts);
      ToldTail(fs, cs);
      ToldTail(ts, cs);
      SameKeySequence(fs[1..], ts[1..], cs);
      forall i | 0 <= i < |fs| ensures fs[i].key == ts[i].key {
        if i > 0 { assert fs[i] == fs[1..][i - 1] && ts[i] == ts[1..][i - 1]; }
      }
    }
  }

  lemma ToldTail(ms: seq<Member>, cs: bool)
    requires ms != [] && Told(ms, cs) && Ascending(ms, cs)
    ensures Told(ms[1..], cs) && Ascending(ms[1..], cs)
  {
    hide Tells, Compare;
  }

  lemma SortedInStep(fs: seq<Member>, ts: seq<Member>, cs: bool)
    requires ClearList(fs) && ClearList(ts) && Walkable(Meaning(Object(fs)), Meaning(Object(ts)), cs)
    ensures var sf, st := SortMembers(fs, cs), SortMembers(ts, cs);
      && ClearList(sf) && ClearList(st) && InStep(sf, st)
      && MembersMeaning(sf) == MembersMeaning(fs) && MembersMeaning(st) == MembersMeaning(ts)
  {
    var f, t := MembersMeaning(fs), MembersMeaning(ts);
    assert Meaning(Object(fs)) == VObject(f) && Meaning(Object(ts)) == VObject(t);
    hide SortMembers, Clear, MembersMeaning, ToldKeys, Ordered, Comparable, Meaning, DistinctKeys, Ascending;
    if Ordered(f.Keys, cs) && Ordered(t.Keys, cs) {
      OrderedTold(f.Keys, cs);
      OrderedTold(t.Keys, cs);
    }
    ToldSorts(fs, cs);
    ToldSorts(ts, cs);
    var sf, st := SortMembers(fs, cs), SortMembers(ts, cs);
    ToldList(sf, cs);
    ToldList(st, cs);
    if Ordered(f.Keys, cs) && Ordered(t.Keys, cs) {
      OrderedAscends(sf, cs);
      OrderedAscends(st, cs);
    } else {
      SameKeySequence(sf, st, cs);
    }
  }

  /** gs has distinct keys, all from fs or ts, and means the patch between them. */
  ghost predicate Walked(gs: seq<Member>, fs: seq<Member>, ts: seq<Member>)
  {
    && ClearList(gs)
    && MembersMeaning(gs) == BetweenMembers(MembersMeaning(fs), MembersMeaning(ts))
  }

  lemma BetweenKeep(f: map<string, Value>, t: map<string, Value>, k: string, x: Value)
    requires k !in f && k !in t
    ensures BetweenMembers(f[k := x], t[k := x]) == BetweenMembers(f, t)
  {
    hide Between, BetweenMembers;
    RfcSame(BetweenMembers(f[k := x], t[k := x]), BetweenMembers(f, t));
  }

  lemma BetweenDiffer(f: map<string, Value>, t: map<string, Value>, k: string, x: Value, y: Value)
    requires k !in f && k !in t && x != y
    ensures BetweenMembers(f[k := x], t[k := y]) == BetweenMembers(f, t)[k := Between(x, y)]
  {
    hide Between, BetweenMembers;
    RfcSame(BetweenMembers(f[k := x], t[k := y]), BetweenMembers(f, t)[k := Between(x, y)]);
  }

  lemma BetweenNew(f: map<string, Value>, t: map<string, Value>, k: string, y: Value)
    requires k !in f && k !in t
    ensures BetweenMembers(f, t[k := y]) == BetweenMembers(f, t)[k := y]
  {
    hide Between, BetweenMembers;
    RfcSame(BetweenMembers(f, t[k := y]), BetweenMembers(f, t)[k := y]);
  }

  lemma BetweenRemoved(f: map<string, Value>, t: map<string, Value>, k: string, x: Value)
    requires k !in f && k !in t
    ensures BetweenMembers(f[k := x], t) == BetweenMembers(f, t)[k := VNull]
  {
    hide Between, BetweenMembers;
    RfcSame(BetweenMembers(f[k := x], t), BetweenMembers(f, t)[k := VNull]);
  }

  /** The first member of a list with distinct keys, apart from the others. */
  lemma HeadMeaning(ms: seq<Member>)
    requires ms != [] && DistinctKeys(ms)
    ensures ms[0].key !in MembersMeaning(ms[1..])
    ensures MembersMeaning(ms) == MembersMeaning(ms[1..])[ms[0].key := Meaning(ms[0].value)]
  {
    hide MembersMeaning, Meaning, HasKey, DistinctKeys;
    MeaningTail(ms);
    FirstMeaning(ms);
    var m := MembersMeaning(ms);
    assert m == (m - {ms[0].key})[ms[0].key := m[ms[0].key]];
  }

  lemma PrependMember(m: Member, gs: seq<Member>)
    requires ClearList(gs) && m.key !in MembersMeaning(gs) && Clear(m.value, true)
    ensures ClearList([m] + gs) && MembersMeaning([m] + gs) == MembersMeaning(gs)[m.key := Meaning(m.value)]
  {
    hide Clear, Meaning, MembersMeaning;
    var r := [m] + gs;
    forall i | 0 <= i < |gs| ensures gs[i].key != m.key { MemberMeant(gs, i); }
    forall i, j | 0 <= i < j < |r| ensures r[i].key != r[j].key {
      assert r[j] == gs[j - 1];
    }
    assert r[1..] == gs && r[0] == m;
    HeadMeaning(r);
  }

  lemma TailParts(ms: seq<Member>)
    requires ms != [] && ClearList(ms)
    ensures ClearList(ms[1..]) && Clear(ms[0].value, true) && DistinctKeys(ms)
    ensures MembersMeaning(ms[1..]) == MembersMeaning(ms) - {ms[0].key}
    ensures ms[0].key in MembersMeaning(ms) && MembersMeaning(ms)[ms[0].key] == Meaning(ms[0].value)
  {
    hide Clear, Meaning, MembersMeaning;
    MeaningTail(ms);
    FirstMeaning(ms);
  }

  /** The rests are in step again. */
  lemma StepOn(fs: seq<Member>, ts: seq<Member>)
    requires InStep(fs, ts) && (fs != [] || ts != [])
    ensures var diff := if fs == [] then 1 else if ts == [] then -1 else Compare(fs[0].key, ts[0].key, true);
      if diff < 0 then fs != [] && InStep(fs[1..], ts) && fs[0].key !in MembersMeaning(ts)
      else if diff > 0 then ts != [] && InStep(fs, ts[1..]) && ts[0].key !in MembersMeaning(fs)
      else fs != [] && ts != [] && fs[0].key == ts[0].key && InStep(fs[1..], ts[1..])
  {
    if fs == [] || ts == [] {
      NoMembers();
    } else {
      CompareEqual(fs[0].key, ts[0].key);
      CompareFlip(fs[0].key, ts[0].key, true);
      var diff := Compare(fs[0].key, ts[0].key, true);
      if diff < 0 {
        SmallerKey(fs[0].key, ts);
      } else if diff > 0 {
        SmallerKey(ts[0].key, fs);
      }
    }
  }

  /** A smaller first key is not in the other list. */
  lemma SmallerKey(key: string, ms: seq<Member>)
    requires Ascending(ms, true) && (ms == [] || Compare(key, ms[0].key, true) < 0)
    ensures key !in MembersMeaning(ms)
  {
    if HasKey(ms, key) {
      var i :| 0 <= i < |ms| && ms[i].key == key;
      CompareFlip(key, ms[0].key, true);
      CompareSame(key, true);
      assert false;
    }
  }

  lemma WalkRemove(gs: seq<Member>, fs: seq<Member>, ts: seq<Member>)
    requires fs != [] && DistinctKeys(fs) && Walked(gs, fs[1..], ts) && fs[0].key !in MembersMeaning(ts)
    ensures Walked([Member(fs[0].key, Null)] + gs, fs, ts)
  {
    assert Clear(Null, true) && Meaning(Null) == VNull;
    hide BetweenMembers, MembersMeaning, Clear, Meaning;
    var k := fs[0].key;
    HeadMeaning(fs);
    BetweenRemoved(MembersMeaning(fs[1..]), MembersMeaning(ts), k, Meaning(fs[0].value));
    assert k !in MembersMeaning(gs) by { NotBetween(MembersMeaning(fs[1..]), MembersMeaning(ts), k); }
    PrependMember(Member(k, Null), gs);
  }

  lemma NotBetween(f: map<string, Value>, t: map<string, Value>, k: string)
    requires k !in f && k !in t
    ensures k !in BetweenMembers(f, t)
  {
  }

  lemma WalkAdd(gs: seq<Member>, fs: seq<Member>, ts: seq<Member>)
    requires ts != [] && ClearList(ts) && Walked(gs, fs, ts[1..]) && ts[0].key !in MembersMeaning(fs)
    ensures Walked([ts[0]] + gs, fs, ts)
  {
    hide BetweenMembers, MembersMeaning, Clear, Meaning;
    var k := ts[0].key;
    HeadMeaning(ts);
    BetweenNew(MembersMeaning(fs), MembersMeaning(ts[1..]), k, Meaning(ts[0].value));
    assert k !in MembersMeaning(gs) by { NotBetween(MembersMeaning(fs), MembersMeaning(ts[1..]), k); }
    PrependMember(ts[0], gs);
  }

  lemma WalkKeep(gs: seq<Member>, fs: seq<Member>, ts: seq<Member>)
    requires fs != [] && ts != [] && DistinctKeys(fs) && DistinctKeys(ts) && fs[0].key == ts[0].key
    requires Walked(gs, fs[1..], ts[1..]) && Meaning(fs[0].value) == Meaning(ts[0].value)
    ensures Walked(gs, fs, ts)
  {
    hide BetweenMembers, MembersMeaning, ClearList, Meaning;
    HeadMeaning(fs);
    HeadMeaning(ts);
    BetweenKeep(MembersMeaning(fs[1..]), MembersMeaning(ts[1..]), fs[0].key, Meaning(fs[0].value));
  }

  lemma WalkMerge(gs: seq<Member>, fs: seq<Member>, ts: seq<Member>, p: Json)
    requires fs != [] && ts != [] && DistinctKeys(fs) && DistinctKeys(ts) && fs[0].key == ts[0].key
    requires Walked(gs, fs[1..], ts[1..]) && Clear(p, true)
    requires Meaning(fs[0].value) != Meaning(ts[0].value) && Meaning(p) == Between(Meaning(fs[0].value), Meaning(ts[0].value))
    ensures Walked([Member(ts[0].key, p)] + gs, fs, ts)
  {
    hide BetweenMembers, Between, MembersMeaning, Clear, Meaning;
    var k := fs[0].key;
    HeadMeaning(fs);
    HeadMeaning(ts);
    BetweenDiffer(MembersMeaning(fs[1..]), MembersMeaning(ts[1..]), k, Meaning(fs[0].value), Meaning(ts[0].value));
    assert k !in MembersMeaning(gs) by { NotBetween(MembersMeaning(fs[1..]), MembersMeaning(ts[1..]), k); }
    PrependMember(Member(k, p), gs);
  }

  lemma WalkEnd()
    ensures Walked([], [], [])
  {
    NoMembers();
    BetweenNothing(map[], map[]);
  }

  /** A generated patch means the patch between the two; none is generated exactly between equal objects. */
  ghost predicate Generated(p: Option<Json>, from: Json, to: Json)
  {
    match p
    case None => from.Object? && to.Object? && Meaning(from) == Meaning(to)
    case Some(q) =>
      && Clear(q, true) && Meaning(q) == Between(Meaning(from), Meaning(to))
      && !(from.Object? && to.Object? && Meaning(from) == Meaning(to))
  }

  /** generate_merge_patch produces the patch between the two meanings. */
  lemma {:induction false} GenerateMergeMeans(from: Json, to: Json, cs: bool)
    requires Clear(from, true) && Clear(to, true) && Walkable(Meaning(from), Meaning(to), cs)
    ensures Generated(GenerateMerge(from, to, cs), from, to)
    decreases Nesting(from), 0, 3
  {
    if to.Object? && from.Object? {
      ClearListParts(from);
      ClearListParts(to);
      ObjectMergeMeans(from.members, to.members, cs);
    }
  }

  lemma {:induction false} ObjectMergeMeans(fs: seq<Member>, ts: seq<Member>, cs: bool)
    requires ClearList(fs) && ClearList(ts) && Walkable(Meaning(Object(fs)), Meaning(Object(ts)), cs)
    ensures Generated(GenerateMerge(Object(fs), Object(ts), cs), Object(fs), Object(ts))
    decreases Nesting(Object(fs)), 0, 0
  {
    SortNesting(fs, cs);
    hide SortMembers, GenerateMembers, GenerateMerge, MembersMeaning, Meaning, ClearList, InStep, Walked, Walkable, Meeting, Generated;
    ObjectMeaning(fs);
    ObjectMeaning(ts);
    WalkableMeets(MembersMeaning(fs), MembersMeaning(ts), cs);
    SortedInStep(fs, ts, cs);
    var sf, st := SortMembers(fs, cs), SortMembers(ts, cs);
    GenerateWalk(sf, st, cs);
    WalkedObject(GenerateMembers(sf, st, cs), sf, st, fs, ts);
    GenerateObjects(fs, ts, cs);
  }

  lemma WalkableMeets(f: map<string, Value>, t: map<string, Value>, cs: bool)
    requires Walkable(VObject(f), VObject(t), cs)
    ensures Meeting(f, t, cs)
  {
    hide Comparable;
  }

  lemma WalkedObject(gs: seq<Member>, sf: seq<Member>, st: seq<Member>, fs: seq<Member>, ts: seq<Member>)
    requires Walked(gs, sf, st) && MembersMeaning(sf) == MembersMeaning(fs) && MembersMeaning(st) == MembersMeaning(ts)
    ensures Generated(OptionOf(gs), Object(fs), Object(ts))
  {
    hide Meaning, MembersMeaning, BetweenMembers, Between, Clear, HasKey, ClearList, DistinctKeys;
    ObjectMeaning(fs);
    ObjectMeaning(ts);
    ObjectMeaning(gs);
    BetweenNothing(MembersMeaning(fs), MembersMeaning(ts));
    BetweenObjects(MembersMeaning(fs), MembersMeaning(ts));
    NoMembers();
    if gs != [] {
      ListDistinct(gs);
      MemberMeant(gs, 0);
      ClearListParts(Object(gs));
    }
  }

  /** The walk along two lists in step. */
  lemma {:induction false} GenerateWalk(fs: seq<Member>, ts: seq<Member>, cs: bool)
    requires ClearList(fs) && ClearList(ts) && InStep(fs, ts) && Meeting(MembersMeaning(fs), MembersMeaning(ts), cs)
    ensures Walked(GenerateMembers(fs, ts, cs), fs, ts)
    decreases MembersNesting(fs), 1, |fs| + |ts|
  {
    hide Walked, ClearList, InStep, GenerateCommon, Compare, MembersMeaning, Walkable, Comparable, Meaning;
    if fs == [] && ts == [] {
      WalkEnd();
    } else {
      StepOn(fs, ts);
      var diff := if fs == [] then 1 else if ts == [] then -1 else Compare(fs[0].key, ts[0].key, true);
      if fs != [] { TailParts(fs); }
      if ts != [] { TailParts(ts); }
      if diff < 0 {
        GenerateWalk(fs[1..], ts, cs);
        WalkRemove(GenerateMembers(fs[1..], ts, cs), fs, ts);
      } else if diff > 0 {
        GenerateWalk(fs, ts[1..], cs);
        WalkAdd(GenerateMembers(fs, ts[1..], cs), fs, ts);
      } else {
        GenerateWalk(fs[1..], ts[1..], cs);
        CommonMeans(GenerateMembers(fs[1..], ts[1..], cs), fs, ts, cs);
      }
    }
  }

  lemma {:induction false} CommonMeans(gs: seq<Member>, fs: seq<Member>, ts: seq<Member>, cs: bool)
    requires fs != [] && ts != [] && ClearList(fs) && ClearList(ts) && fs[0].key == ts[0].key
    requires Meeting(MembersMeaning(fs), MembersMeaning(ts), cs) && Walked(gs, fs[1..], ts[1..])
    ensures Walked(GenerateCommon(fs[0], ts[0], cs) + gs, fs, ts)
    decreases MembersNesting(fs), 0, 4
  {
    hide Walked, Clear, CompareJson, GenerateMerge, AfterCompare, Between, Meaning, MembersMeaning, Walkable, Apart;
    var f, t := fs[0].value, ts[0].value;
    TailParts(fs);
    TailParts(ts);
    ClearParted(f, cs);
    ClearParted(t, cs);
    CompareMeans(f, t, cs);
    if CompareJson(f, t, cs) {
      assert [] + gs == gs;
      WalkKeep(gs, fs, ts);
    } else {
      AfterAlike(f, t, cs);
      AfterNesting(f, t, cs);
      var r := AfterCompare(f, t, cs);
      GenerateMergeMeans(r.0, r.1, false);
      var p := GenerateMerge(r.0, r.1, false);
      WalkMerge(gs, fs, ts, p.value);
    }
  }

  // ---- generate, then merge ----

  /** The tree that is left after merging the generated patch; without a patch it stays. */
  function Merged(doc: Json, patch: Option<Json>, cs: bool): Json
  {
    if patch == None then doc else MergePatch(Some(doc), patch.value, cs)
  }

  /** A patch between two clear values that are apart is clear, and apart from the first. */
  lemma ClearBetween(doc: Json, q: Json, f: Value, t: Value, cs: bool)
    requires Clear(q, true) && Meaning(q) == Between(f, t) && Meaning(doc) == f
    requires Apart(f, f, cs) && Apart(t, t, cs) && Apart(f, t, cs)
    ensures Clear(q, cs) && Apart(Meaning(doc), Meaning(q), cs)
  {
    hide Clear, Apart, Between, Meaning;
    ApartFlip(f, t, cs);
    var p := Between(f, t);
    ApartBetween(f, f, t, cs);
    ApartBetween(t, f, t, cs);
    ApartFlip(f, p, cs);
    ApartFlip(t, p, cs);
    ApartBetween(p, f, t, cs);
    ClearParted(q, cs);
  }

  /**
   Generating a merge patch from `from` to `to` and merging it into any tree that equals `from` up
   to member order gives `to` up to member order, if and only if a merge patch can turn the one
   into the other. No patch is generated exactly when both are objects and equal already.
   */
  lemma {:induction false} GenerateThenMerge(doc: Json, from: Json, to: Json, cs: bool)
    requires Clear(doc, cs) && Clear(from, cs) && Clear(to, cs) && (cs || Apart(Meaning(from), Meaning(to), false))
    requires Walkable(Meaning(from), Meaning(to), cs) && Meaning(doc) == Meaning(from)
    ensures var p := GenerateMerge(from, to, cs);
      && (p == None <==> from.Object? && to.Object? && Meaning(from) == Meaning(to))
      && (Meaning(Merged(doc, p, cs)) == Meaning(to) <==> Expressible(Meaning(from), Meaning(to)))
  {
    hide GenerateMerge, RfcMerge, MergePatch, Meaning, Clear, Apart, Between, Walkable, Expressible;
    ClearParted(from, cs);
    ClearParted(to, cs);
    if cs { ApartExactly(Meaning(from), Meaning(to)); }
    GenerateMergeMeans(from, to, cs);
    BetweenExact(Meaning(from), Meaning(to));
    var p := GenerateMerge(from, to, cs);
    if p.Some? {
      ClearBetween(doc, p.value, Meaning(from), Meaning(to), cs);
      MergeIsRfc(Some(doc), p.value, cs);
    } else {
      EqualExpressible(Meaning(from));
    }
  }

  lemma EqualExpressible(f: Value)
    ensures Expressible(f, f)
  {
  }

  /** A null member of the target cannot be expressed: merging removes it. */
  lemma NullIsLost(cs: bool)
    ensures var to := Object([Member("a", Null)]);
      GenerateMerge(Object([]), to, cs) == Some(to) && MergePatch(Some(Object([])), to, cs) == Object([])
  {
    var m := Member("a", Null);
    assert [m][1..] == [];
    assert GenerateMembers([], [m], cs) == [m] + GenerateMembers([], [], cs);
    assert GenerateMembers([], [m], cs) == [m];
    assert SortMembers([m], cs) == [m] && SortMembers([], cs) == [];
    assert Object([m]).members == [m] && Object([]).members == [];
    assert MergeOne([], m, cs) == [];
    assert MergeMembers([], [m], cs) == MergeMembers([], [], cs);
  }

  /** A target without null members can always be reached. */
  lemma {:induction false} FullExpressible(f: Value, v: Json)
    requires Clear(v, true) && NoNullMembers(v)
    ensures Expressible(f, Meaning(v))
    decreases v
  {
    if v.Object? {
      var ms, t := v.members, MembersMeaning(v.members);
      forall k | k in t ensures t[k] != VNull && Expressible(Under(MembersOr(f), k), t[k]) {
        MeantMember(ms, k);
        var i :| 0 <= i < |ms| && ms[i].key == k;
        FullExpressible(Under(MembersOr(f), k), ms[i].value);
        NullMeans(ms[i].value);
      }
    }
  }

  // ---- the code ----

  /** merge_patch: the loop over the members of the patch */
  method DoMergePatch(target: Option<Json>, patch: Json, cs: bool) returns (merged: Json)
    ensures merged == MergePatch(target, patch, cs)
    decreases patch
  {
    if !patch.Object? {
      return patch;
    }
    var ts: seq<Member> := [];
    if target.Some? && target.value.Object? {
      ts := target.value.members;
    }
    var ps := patch.members;
    ghost var all := MergeMembers(ts, ps, cs);
    assert ps[0..] == ps;
    var i: nat := 0;
    while i < |ps|
      invariant i <= |ps| && MergeMembers(ts, ps[i..], cs) == all
    {
      assert ps[i..][0] == ps[i] && ps[i..][1..] == ps[i + 1..];
      ghost var was := ts;
      var k := IndexOf(ts, ps[i].key, cs);
      var detached := None;
      if k < |ts| {
        detached := Some(ts[k].value);
        ts := RemoveAt(ts, k);
      }
      if !ps[i].value.Null? {
        var replacement := DoMergePatch(detached, ps[i].value, cs);
        ts := ts + [Member(ps[i].key, replacement)];
      }
      assert ts == MergeOne(was, ps[i], cs);
      i := i + 1;
    }
    return Object(ts);
  }

  /** generate_merge_patch: the walk along two sorted objects */
  method DoGenerateMerge(from: Json, to: Json, cs: bool) returns (patch: Option<Json>)
    ensures patch == GenerateMerge(from, to, cs)
    decreases Nesting(from)
  {
    hide SortMembers, CompareJson, AfterCompare, Compare;
    if !to.Object? || !from.Object? {
      return Some(to);
    }
    SortNesting(from.members, cs);
    var fs, ts := SortMembers(from.members, cs), SortMembers(to.members, cs);
    var gs: seq<Member> := [];
    ghost var all := GenerateMembers(fs, ts, cs);
    assert fs[0..] == fs && ts[0..] == ts && [] + all == all;
    var i: nat, j: nat := 0, 0;
    while i < |fs| || j < |ts|
      invariant i <= |fs| && j <= |ts| && gs + GenerateMembers(fs[i..], ts[j..], cs) == all
      decreases |fs| - i + |ts| - j
    {
      assert i < |fs| ==> fs[i..][0] == fs[i] && fs[i..][1..] == fs[i + 1..];
      assert j < |ts| ==> ts[j..][0] == ts[j] && ts[j..][1..] == ts[j + 1..];
      var diff := 1;
      if i < |fs| {
        diff := if j < |ts| then Compare(fs[i].key, ts[j].key, true) else -1;
      }
      if diff < 0 {
        Regroup(gs, [Member(fs[i].key, Null)], GenerateMembers(fs[i + 1..], ts[j..], cs));
        gs := gs + [Member(fs[i].key, Null)];
        i := i + 1;
      } else if diff > 0 {
        Regroup(gs, [ts[j]], GenerateMembers(fs[i..], ts[j + 1..], cs));
        gs := gs + [ts[j]];
        j := j + 1;
      } else {
        Regroup(gs, GenerateCommon(fs[i], ts[j], cs), GenerateMembers(fs[i + 1..], ts[j + 1..], cs));
        if !CompareJson(fs[i].value, ts[j].value, cs) {
          NestingOfMember(fs, i);
          var r := AfterCompare(fs[i].value, ts[j].value, cs);
          AfterNesting(fs[i].value, ts[j].value, cs);
          var p := DoGenerateMerge(r.0, r.1, false);
          if p.Some? {
            gs := gs + [Member(ts[j].key, p.value)];
          } else {
            assert gs + [] == gs;
          }
        } else {
          assert gs + [] == gs;
        }
        i, j := i + 1, j + 1;
      }
    }
    assert gs + [] == gs;
    if gs == [] {
      return None;
    }
    return Some(Object(gs));
  }

  lemma Regroup(a: seq<Member>, b: seq<Member>, c: seq<Member>)
    ensures a + (b + c) == (a + b) + c
  {
  }
}
