/**
 compare_json: structural comparison that sorts objects first. With keys that the comparison
 can tell apart it decides equality up to member order.
 */
module JsonCompare {
  import opened Json
  import opened JsonTree
  import opened JsonMeaning

  /** Sibling keys are distinct for this comparison, everywhere in the tree. */
  predicate Clear(v: Json, cs: bool)
    decreases v
  {
    match v
    case Array(items) => forall i :: 0 <= i < |items| ==> Clear(items[i], cs)
    case Object(ms) => Told(ms, cs) && forall i :: 0 <= i < |ms| ==> Clear(ms[i].value, cs)
    case _ => true
  }

  /** Keys that the walks over two trees compare are told apart by the comparison. */
  ghost predicate Apart(a: Value, b: Value, cs: bool)
    decreases a
  {
    match a
    case VArray(items) =>
      b.VArray? ==> forall i :: 0 <= i < |items| && i < |b.items| ==> Apart(items[i], b.items[i], cs)
    case VObject(m) =>
      b.VObject? ==>
        && (forall k, l :: k in m && l in b.members ==> Tells(k, l, cs))
        && (forall k :: k in m && k in b.members ==> Apart(m[k], b.members[k], cs))
    case _ => true
  }

  ghost predicate ApartMembers(m: map<string, Value>, n: map<string, Value>, cs: bool)
  {
    Apart(VObject(m), VObject(n), cs)
  }

  /** With regard to case any two values are apart. */
  lemma {:induction false} ApartExactly(a: Value, b: Value)
    ensures Apart(a, b, true)
    decreases a
  {
    match a
    case VArray(items) =>
      if b.VArray? {
        forall i | 0 <= i < |items| && i < |b.items| ensures Apart(items[i], b.items[i], true) {
          ApartExactly(items[i], b.items[i]);
        }
      }
    case VObject(m) =>
      if b.VObject? {
        forall k, l | k in m && l in b.members ensures Tells(k, l, true) { CompareEqual(k, l); }
        forall k | k in m && k in b.members ensures Apart(m[k], b.members[k], true) { ApartExactly(m[k], b.members[k]); }
      }
    case _ =>
  }

  /** Fewer members are still apart. */
  lemma ApartFewer(m: map<string, Value>, n: map<string, Value>, ks: set<string>, ls: set<string>, cs: bool)
    requires ApartMembers(m, n, cs)
    ensures ApartMembers(m - ks, n - ls, cs)
  {
  }

  lemma ApartAt(m: map<string, Value>, n: map<string, Value>, k: string, l: string, cs: bool)
    requires ApartMembers(m, n, cs) && k in m && l in n
    ensures Tells(k, l, cs) && (k == l ==> Apart(m[k], n[l], cs))
  {
  }

  lemma {:induction false} ApartFlip(a: Value, b: Value, cs: bool)
    requires Apart(a, b, cs)
    ensures Apart(b, a, cs)
    decreases a
  {
    if a.VArray? && b.VArray? {
      forall i | 0 <= i < |a.items| && i < |b.items| ensures Apart(b.items[i], a.items[i], cs) {
        ApartFlip(a.items[i], b.items[i], cs);
      }
    } else if a.VObject? && b.VObject? {
      forall k, l | k in b.members && l in a.members ensures Tells(k, l, cs) { TellsFlip(l, k, cs); }
      forall k | k in b.members && k in a.members ensures Apart(b.members[k], a.members[k], cs) {
        ApartFlip(a.members[k], b.members[k], cs);
      }
    }
  }

  /** Clear trees are those with distinct sibling keys that are apart from themselves. */
  lemma {:induction false} ClearParted(v: Json, cs: bool)
    ensures Clear(v, cs) <==> Clear(v, true) && Apart(Meaning(v), Meaning(v), cs)
    decreases v
  {
    hide Compare, Tells;
    if v.Array? {
      forall i | 0 <= i < |v.items|
        ensures Clear(v.items[i], cs) <==> Clear(v.items[i], true) && Apart(Meaning(v.items[i]), Meaning(v.items[i]), cs)
      {
        ClearParted(v.items[i], cs);
      }
      assert forall i :: 0 <= i < |v.items| ==> ItemsMeaning(v.items)[i] == Meaning(v.items[i]);
    } else if v.Object? {
      var ms := v.members;
      ToldExactly(ms);
      forall i | 0 <= i < |ms|
        ensures Clear(ms[i].value, cs) <==> Clear(ms[i].value, true) && Apart(Meaning(ms[i].value), Meaning(ms[i].value), cs)
      {
        ClearParted(ms[i].value, cs);
      }
      if DistinctKeys(ms) { MembersParted(ms, cs); }
    }
  }

  lemma MembersParted(ms: seq<Member>, cs: bool)
    requires DistinctKeys(ms)
    ensures var m := MembersMeaning(ms);
      ApartMembers(m, m, cs) <==>
        Told(ms, cs) && forall i :: 0 <= i < |ms| ==> Apart(Meaning(ms[i].value), Meaning(ms[i].value), cs)
  {
    hide Tells, Meaning, MembersMeaning, HasKey, DistinctKeys;
    var m := MembersMeaning(ms);
    forall i | 0 <= i < |ms| ensures ms[i].key in m && m[ms[i].key] == Meaning(ms[i].value) { MemberMeant(ms, i); }
    forall k | k in m ensures exists i :: 0 <= i < |ms| && ms[i].key == k { MeantMember(ms, k); }
  }

  lemma MemberMeant(ms: seq<Member>, i: nat)
    requires DistinctKeys(ms) && i < |ms|
    ensures ms[i].key in MembersMeaning(ms) && MembersMeaning(ms)[ms[i].key] == Meaning(ms[i].value)
  {
  }

  lemma MeantMember(ms: seq<Member>, k: string)
    requires k in MembersMeaning(ms)
    ensures exists i :: 0 <= i < |ms| && ms[i].key == k
  {
    assert HasKey(ms, k);
  }

  lemma {:induction false} NestingOfItem(items: seq<Json>, i: nat)
    requires i < |items|
    ensures Nesting(items[i]) <= ItemsNesting(items)
  {
    if i > 0 { NestingOfItem(items[1..], i - 1); }
  }

  lemma {:induction false} NestingOfMember(ms: seq<Member>, i: nat)
    requires i < |ms|
    ensures Nesting(ms[i].value) <= MembersNesting(ms)
  {
    if i > 0 { NestingOfMember(ms[1..], i - 1); }
  }

  lemma {:induction false} NestingBound(ms: seq<Member>, n: nat)
    requires forall i :: 0 <= i < |ms| ==> Nesting(ms[i].value) <= n
    ensures MembersNesting(ms) <= n
  {
    if ms != [] { NestingBound(ms[1..], n); }
  }

  /** Sorting does not make a list deeper. */
  lemma SortNesting(ms: seq<Member>, cs: bool)
    ensures MembersNesting(SortMembers(ms, cs)) <= MembersNesting(ms)
  {
    hide SortMembers, MembersNesting, Nesting;
    var ns := SortMembers(ms, cs);
    SortKeeps(ms, cs);
    forall i | 0 <= i < |ns| ensures Nesting(ns[i].value) <= MembersNesting(ms) {
      assert ns[i] in multiset(ns);
      var j :| 0 <= j < |ms| && ms[j] == ns[i];
      NestingOfMember(ms, j);
    }
    NestingBound(ns, MembersNesting(ms));
  }

  /** compare_json; two booleans differ in type. */
  function CompareJson(a: Json, b: Json, cs: bool): bool
    decreases Nesting(a), 0, 0
  {
    match a
    case Null => b.Null?
    case Bool(x) => b == a
    case Int(n) => b == a
    case String(s) => b == a
    case Array(items) => b.Array? && CompareItems(items, b.items, cs)
    case Object(ms) =>
      SortNesting(ms, cs);
      b.Object? && CompareMembers(SortMembers(ms, cs), SortMembers(b.members, cs), cs)
  }

  function CompareItems(a: seq<Json>, b: seq<Json>, cs: bool): bool
    decreases ItemsNesting(a), 1, |a|
  {
    if a == [] || b == [] then a == [] && b == []
    else CompareJson(a[0], b[0], cs) && CompareItems(a[1..], b[1..], cs)
  }

  function CompareMembers(a: seq<Member>, b: seq<Member>, cs: bool): bool
    decreases MembersNesting(a), 1, |a|
  {
    if a == [] || b == [] then a == [] && b == []
    else Compare(a[0].key, b[0].key, cs) == 0 && CompareJson(a[0].value, b[0].value, cs) && CompareMembers(a[1..], b[1..], cs)
  }

  // ---- what comparing leaves behind ----

  /** The two trees after compare_json: objects are sorted as far as the comparison got. */
  function AfterCompare(a: Json, b: Json, cs: bool): (Json, Json)
    decreases Nesting(a), 0, 0
  {
    if a.Array? && b.Array? then
      var r := AfterItems(a.items, b.items, cs);
      (Array(r.0), Array(r.1))
    else if a.Object? && b.Object? then
      SortNesting(a.members, cs);
      var r := AfterMembers(SortMembers(a.members, cs), SortMembers(b.members, cs), cs);
      (Object(r.0), Object(r.1))
    else (a, b)
  }

  function AfterItems(a: seq<Json>, b: seq<Json>, cs: bool): (seq<Json>, seq<Json>)
    decreases ItemsNesting(a), 1, |a|
  {
    if a == [] || b == [] then (a, b)
    else
      var x := AfterCompare(a[0], b[0], cs);
      var r := if CompareJson(a[0], b[0], cs) then AfterItems(a[1..], b[1..], cs) else (a[1..], b[1..]);
      ([x.0] + r.0, [x.1] + r.1)
  }

  function AfterMembers(a: seq<Member>, b: seq<Member>, cs: bool): (seq<Member>, seq<Member>)
    decreases MembersNesting(a), 1, |a|
  {
    if a == [] || b == [] || Compare(a[0].key, b[0].key, cs) != 0 then (a, b)
    else
      var x := AfterCompare(a[0].value, b[0].value, cs);
      var r := if CompareJson(a[0].value, b[0].value, cs) then AfterMembers(a[1..], b[1..], cs) else (a[1..], b[1..]);
      ([Member(a[0].key, x.0)] + r.0, [Member(b[0].key, x.1)] + r.1)
  }

  /** Comparing two objects puts the members of both into the order of their keys. */
  lemma {:induction false} AfterSorted(a: Json, b: Json, cs: bool)
    requires a.Object? && b.Object?
    ensures var r := AfterCompare(a, b, cs);
      && r.0.Object? && SameKeys(r.0.members, SortMembers(a.members, cs))
      && r.1.Object? && SameKeys(r.1.members, SortMembers(b.members, cs))
  {
    SortNesting(a.members, cs);
    AfterKeys(SortMembers(a.members, cs), SortMembers(b.members, cs), cs);
  }

  predicate SameKeys(a: seq<Member>, b: seq<Member>)
  {
    |a| == |b| && forall i :: 0 <= i < |a| ==> a[i].key == b[i].key
  }

  lemma {:induction false} AfterKeys(a: seq<Member>, b: seq<Member>, cs: bool)
    ensures SameKeys(AfterMembers(a, b, cs).0, a) && SameKeys(AfterMembers(a, b, cs).1, b)
    decreases |a|
  {
    hide AfterCompare, CompareJson, Compare;
    if a != [] && b != [] && Compare(a[0].key, b[0].key, cs) == 0 {
      AfterKeys(a[1..], b[1..], cs);
      KeysCons(a, AfterMembers(a[1..], b[1..], cs).0);
      KeysCons(b, AfterMembers(a[1..], b[1..], cs).1);
    }
  }

  lemma KeysCons(a: seq<Member>, rest: seq<Member>)
    requires a != [] && SameKeys(rest, a[1..])
    ensures forall x :: SameKeys([Member(a[0].key, x)] + rest, a)
    ensures forall x :: SameKeys([Member(a[0].key, x)] + a[1..], a)
  {
    assert forall i :: 0 < i < |a| ==> a[i] == a[1..][i - 1];
  }

  lemma {:induction false} AfterNesting(a: Json, b: Json, cs: bool)
    ensures Nesting(AfterCompare(a, b, cs).0) <= Nesting(a)
    decreases Nesting(a), 0, 0
  {
    if a.Array? && b.Array? {
      AfterItemsNesting(a.items, b.items, cs);
    } else if a.Object? && b.Object? {
      SortNesting(a.members, cs);
      AfterMembersNesting(SortMembers(a.members, cs), SortMembers(b.members, cs), cs);
    }
  }

  lemma {:induction false} AfterItemsNesting(a: seq<Json>, b: seq<Json>, cs: bool)
    ensures ItemsNesting(AfterItems(a, b, cs).0) <= ItemsNesting(a)
    decreases ItemsNesting(a), 1, |a|
  {
    hide AfterCompare, CompareJson;
    if a != [] && b != [] {
      AfterNesting(a[0], b[0], cs);
      AfterItemsNesting(a[1..], b[1..], cs);
      var x := AfterItems(a, b, cs).0;
      assert x[1..] == if CompareJson(a[0], b[0], cs) then AfterItems(a[1..], b[1..], cs).0 else a[1..];
    }
  }

  lemma {:induction false} AfterMembersNesting(a: seq<Member>, b: seq<Member>, cs: bool)
    ensures MembersNesting(AfterMembers(a, b, cs).0) <= MembersNesting(a)
    decreases MembersNesting(a), 1, |a|
  {
    hide AfterCompare, CompareJson, Compare;
    if !(a == [] || b == [] || Compare(a[0].key, b[0].key, cs) != 0) {
      AfterNesting(a[0].value, b[0].value, cs);
      AfterMembersNesting(a[1..], b[1..], cs);
      var x := AfterMembers(a, b, cs).0;
      assert x[1..] == if CompareJson(a[0].value, b[0].value, cs) then AfterMembers(a[1..], b[1..], cs).0 else a[1..];
    }
  }

  /** x is a up to member order, and as clear. */
  ghost predicate Alike(x: Json, a: Json)
  {
    Meaning(x) == Meaning(a) && Clear(x, true) && (Clear(a, false) ==> Clear(x, false)) && (x.Object? <==> a.Object?)
  }

  ghost predicate AlikeItems(xs: seq<Json>, a: seq<Json>)
  {
    |xs| == |a| && forall i :: 0 <= i < |a| ==> Alike(xs[i], a[i])
  }

  ghost predicate AlikeMembers(xs: seq<Member>, a: seq<Member>)
  {
    |xs| == |a| && forall i :: 0 <= i < |a| ==> xs[i].key == a[i].key && Alike(xs[i].value, a[i].value)
  }

  predicate ClearValues(ms: seq<Member>)
  {
    forall i :: 0 <= i < |ms| ==> Clear(ms[i].value, true)
  }

  predicate ClearItems(vs: seq<Json>)
  {
    forall i :: 0 <= i < |vs| ==> Clear(vs[i], true)
  }

  /** Comparing changes nothing but the order of members. */
  lemma {:induction false} AfterAlike(a: Json, b: Json, cs: bool)
    requires Clear(a, true) && Clear(b, true)
    ensures Alike(AfterCompare(a, b, cs).0, a) && Alike(AfterCompare(a, b, cs).1, b)
    decreases Nesting(a), 0, 0
  {
    if a.Array? && b.Array? {
      AfterItemsAlike(a.items, b.items, cs);
      hide AfterItems;
      var r := AfterItems(a.items, b.items, cs);
      AlikeArrays(r.0, a.items);
      AlikeArrays(r.1, b.items);
    } else if a.Object? && b.Object? {
      SortNesting(a.members, cs);
      var s, t := SortMembers(a.members, cs), SortMembers(b.members, cs);
      SortedValues(a.members, cs);
      SortedValues(b.members, cs);
      AfterMembersAlike(s, t, cs);
      hide AfterMembers, SortMembers;
      var r := AfterMembers(s, t, cs);
      AlikeObjects(r.0, s, a.members);
      AlikeObjects(r.1, t, b.members);
    }
  }

  lemma SortedValues(ms: seq<Member>, cs: bool)
    requires Clear(Object(ms), true)
    ensures multiset(SortMembers(ms, cs)) == multiset(ms) && ClearValues(SortMembers(ms, cs))
  {
    hide SortMembers;
    SortKeeps(ms, cs);
    PermutedKeys(ms, SortMembers(ms, cs));
  }

  lemma AlikeArrays(xs: seq<Json>, a: seq<Json>)
    requires AlikeItems(xs, a)
    ensures Alike(Array(xs), Array(a))
  {
    assert ItemsMeaning(xs) == ItemsMeaning(a);
  }

  lemma AlikeObjects(xs: seq<Member>, s: seq<Member>, ms: seq<Member>)
    requires AlikeMembers(xs, s) && multiset(s) == multiset(ms) && Clear(Object(ms), true)
    ensures Alike(Object(xs), Object(ms))
  {
    hide Meaning, MembersMeaning, Tells, HasKey;
    PermutedKeys(ms, s);
    MeaningPermuted(ms, s);
    ToldExactly(xs);
    forall k | k in MembersMeaning(s) ensures HasKey(xs, k) {
      MeantMember(s, k);
      var i :| 0 <= i < |s| && s[i].key == k;
      KeyAt(xs, i);
    }
    forall i | 0 <= i < |xs| ensures xs[i].key in MembersMeaning(s) && MembersMeaning(s)[xs[i].key] == Meaning(xs[i].value) {
      MemberMeant(s, i);
    }
    MeaningIs(xs, MembersMeaning(s));
    ObjectMeaning(xs);
    ObjectMeaning(ms);
    if Clear(Object(ms), false) {
      forall i, j | 0 <= i < |xs| && 0 <= j < |xs| ensures Tells(xs[i].key, xs[j].key, false) {
        assert s[i] in ms && s[j] in ms;
      }
      forall i | 0 <= i < |xs| ensures Clear(xs[i].value, false) { assert s[i] in ms; }
    }
  }

  lemma KeyAt(ms: seq<Member>, i: nat)
    requires i < |ms|
    ensures HasKey(ms, ms[i].key)
  {
  }

  lemma ObjectMeaning(ms: seq<Member>)
    ensures Meaning(Object(ms)) == VObject(MembersMeaning(ms))
  {
  }

  lemma AlikeSelf(a: Json)
    requires Clear(a, true)
    ensures Alike(a, a)
  {
  }

  lemma {:induction false} AfterItemsAlike(a: seq<Json>, b: seq<Json>, cs: bool)
    requires ClearItems(a) && ClearItems(b)
    ensures AlikeItems(AfterItems(a, b, cs).0, a) && AlikeItems(AfterItems(a, b, cs).1, b)
    decreases ItemsNesting(a), 1, |a|
  {
    hide AfterCompare, CompareJson, Alike, Clear;
    forall i | 0 <= i < |a| ensures Alike(a[i], a[i]) { AlikeSelf(a[i]); }
    forall i | 0 <= i < |b| ensures Alike(b[i], b[i]) { AlikeSelf(b[i]); }
    if a != [] && b != [] {
      AfterAlike(a[0], b[0], cs);
      AfterItemsAlike(a[1..], b[1..], cs);
    }
  }

  lemma {:induction false} AfterMembersAlike(a: seq<Member>, b: seq<Member>, cs: bool)
    requires ClearValues(a) && ClearValues(b)
    ensures AlikeMembers(AfterMembers(a, b, cs).0, a) && AlikeMembers(AfterMembers(a, b, cs).1, b)
    decreases MembersNesting(a), 1, |a|
  {
    hide AfterCompare, CompareJson, Alike, Clear, Compare;
    forall i | 0 <= i < |a| ensures Alike(a[i].value, a[i].value) { AlikeSelf(a[i].value); }
    forall i | 0 <= i < |b| ensures Alike(b[i].value, b[i].value) { AlikeSelf(b[i].value); }
    if !(a == [] || b == [] || Compare(a[0].key, b[0].key, cs) != 0) {
      AfterAlike(a[0].value, b[0].value, cs);
      AfterMembersAlike(a[1..], b[1..], cs);
    }
  }

  // ---- comparison is equality of meaning ----

  lemma MeaningTail(ms: seq<Member>)
    requires DistinctKeys(ms) && ms != []
    ensures DistinctKeys(ms[1..]) && MembersMeaning(ms[1..]) == MembersMeaning(ms) - {ms[0].key}
  {
    assert RemoveAt(ms, 0) == ms[1..];
    MeaningRemove(ms, 0);
  }

  lemma FirstLeast(a: seq<Member>, i: nat, cs: bool)
    requires i < |a| && Ascending(a, cs)
    ensures i == 0 || Compare(a[0].key, a[i].key, cs) < 0
  {
  }

  /** The first keys of two ascending lists with the same keys are the same. */
  lemma {:induction false} FirstKeys(a: seq<Member>, b: seq<Member>, cs: bool)
    requires a != [] && b != [] && Told(a, cs) && Told(b, cs) && Ascending(a, cs) && Ascending(b, cs)
    requires HasKey(a, b[0].key) && HasKey(b, a[0].key)
    ensures a[0].key == b[0].key
  {
    var i :| 0 <= i < |a| && a[i].key == b[0].key;
    var j :| 0 <= j < |b| && b[j].key == a[0].key;
    CompareFlip(a[0].key, b[0].key, cs);
    FirstLeast(a, i, cs);
    FirstLeast(b, j, cs);
  }

  lemma {:induction false} CompareMeans(a: Json, b: Json, cs: bool)
    requires Clear(a, cs) && Clear(b, cs) && Apart(Meaning(a), Meaning(b), cs)
    ensures CompareJson(a, b, cs) <==> Meaning(a) == Meaning(b)
    decreases Nesting(a), 0, 0
  {
    if a.Array? && b.Array? {
      CompareItemsMeans(a.items, b.items, cs);
    } else if a.Object? && b.Object? {
      var ms, ns := a.members, b.members;
      SortAscends(ms, cs);
      SortAscends(ns, cs);
      SortNesting(ms, cs);
      MeaningPermuted(ms, SortMembers(ms, cs));
      MeaningPermuted(ns, SortMembers(ns, cs));
      ClearSorted(ms, cs);
      ClearSorted(ns, cs);
      CompareMembersMeans(SortMembers(ms, cs), SortMembers(ns, cs), cs);
    }
  }

  predicate ClearMembers(ms: seq<Member>, cs: bool)
  {
    Told(ms, cs) && forall i :: 0 <= i < |ms| ==> Clear(ms[i].value, cs)
  }

  lemma ClearSorted(ms: seq<Member>, cs: bool)
    requires ClearMembers(ms, cs)
    ensures ClearMembers(SortMembers(ms, cs), cs)
  {
    hide SortMembers, Clear;
    SortAscends(ms, cs);
    PermutedKeys(ms, SortMembers(ms, cs));
  }

  lemma {:induction false} CompareItemsMeans(a: seq<Json>, b: seq<Json>, cs: bool)
    requires forall i :: 0 <= i < |a| ==> Clear(a[i], cs)
    requires forall i :: 0 <= i < |b| ==> Clear(b[i], cs)
    requires forall i :: 0 <= i < |a| && i < |b| ==> Apart(Meaning(a[i]), Meaning(b[i]), cs)
    ensures CompareItems(a, b, cs) <==> ItemsMeaning(a) == ItemsMeaning(b)
    decreases ItemsNesting(a), 1, |a|
  {
    hide Clear, CompareJson, Meaning, Apart;
    if a != [] && b != [] {
      CompareMeans(a[0], b[0], cs);
      CompareItemsMeans(a[1..], b[1..], cs);
      ItemsCons(a);
      ItemsCons(b);
      assert ItemsMeaning(a)[0] == Meaning(a[0]) && ItemsMeaning(b)[0] == Meaning(b[0]);
      assert ItemsMeaning(a)[1..] == ItemsMeaning(a[1..]) && ItemsMeaning(b)[1..] == ItemsMeaning(b[1..]);
    } else {
      assert |ItemsMeaning(a)| == |a| && |ItemsMeaning(b)| == |b|;
    }
  }

  lemma ItemsCons(a: seq<Json>)
    requires a != []
    ensures ItemsMeaning(a) == [Meaning(a[0])] + ItemsMeaning(a[1..])
  {
  }

  lemma {:induction false} CompareMembersMeans(a: seq<Member>, b: seq<Member>, cs: bool)
    requires ClearMembers(a, cs) && ClearMembers(b, cs) && Ascending(a, cs) && Ascending(b, cs)
    requires ApartMembers(MembersMeaning(a), MembersMeaning(b), cs)
    ensures CompareMembers(a, b, cs) <==> MembersMeaning(a) == MembersMeaning(b)
    decreases MembersNesting(a), 1, |a|
  {
    hide Clear, CompareJson, Meaning, MembersMeaning, ApartMembers, Tells;
    if a != [] && b != [] {
      FirstMeaning(a);
      FirstMeaning(b);
      ApartAt(MembersMeaning(a), MembersMeaning(b), a[0].key, b[0].key, cs);
      EqualKeys(a[0].key, b[0].key, cs);
      if a[0].key != b[0].key {
        FirstKeysDiffer(a, b, cs);
      } else {
        MeaningTail(a);
        MeaningTail(b);
        ApartFewer(MembersMeaning(a), MembersMeaning(b), {a[0].key}, {b[0].key}, cs);
        MapSplit(MembersMeaning(a), MembersMeaning(b), a[0].key);
        CompareMeans(a[0].value, b[0].value, cs);
        TailClear(a, cs);
        TailClear(b, cs);
        CompareMembersMeans(a[1..], b[1..], cs);
      }
    } else if a != [] {
      FirstMeaning(a);
      assert !HasKey(b, a[0].key);
    } else if b != [] {
      FirstMeaning(b);
      assert !HasKey(a, b[0].key);
    }
  }

  lemma FirstMeaning(a: seq<Member>)
    requires a != [] && DistinctKeys(a)
    ensures a[0].key in MembersMeaning(a) && MembersMeaning(a)[a[0].key] == Meaning(a[0].value)
  {
  }

  lemma MapSplit<K, V>(m: map<K, V>, n: map<K, V>, k: K)
    requires k in m && k in n
    ensures m == n <==> m[k] == n[k] && m - {k} == n - {k}
  {
    if m[k] == n[k] && m - {k} == n - {k} {
      assert m == (m - {k})[k := m[k]];
      assert n == (n - {k})[k := n[k]];
    }
  }

  lemma TailClear(a: seq<Member>, cs: bool)
    requires a != [] && ClearMembers(a, cs) && Ascending(a, cs)
    ensures ClearMembers(a[1..], cs) && Ascending(a[1..], cs)
  {
    hide Clear;
  }

  lemma FirstKeysDiffer(a: seq<Member>, b: seq<Member>, cs: bool)
    requires a != [] && b != [] && Told(a, cs) && Told(b, cs) && Ascending(a, cs) && Ascending(b, cs)
    requires a[0].key != b[0].key
    ensures MembersMeaning(a) != MembersMeaning(b)
  {
    hide Ascending;
    if MembersMeaning(a) == MembersMeaning(b) {
      FirstMeaning(a);
      FirstMeaning(b);
      FirstKeys(a, b, cs);
      assert false;
    }
  }
}
