/**
 For which keys generated merge patches can be relied on: exactly those whose order ignoring case
 is that of strcmp, no two of them differing in case only. Below the top the members are sorted
 ignoring case but walked along with strcmp.
 */
module JsonMergeKeys {
  import opened Json
  import opened JsonTree
  import opened JsonMeaning
  import opened JsonCompare
  import opened JsonKeys
  import opened JsonMerge

  // ---- the condition on a set of keys ----

  /** The two orders agree, and no two keys differ in case only. */
  ghost predicate OrdersAgree(ks: iset<string>)
  {
    forall k, l :: k in ks && l in ks ==> (Compare(k, l, false) < 0 <==> Compare(k, l, true) < 0)
  }

  /** Distinct sibling keys, and the keys that are sorted ignoring case are among these. */
  ghost predicate Written(v: Json, ks: iset<string>, cs: bool)
  {
    Clear(v, true) && if cs then v.Object? ==> forall i :: 0 <= i < |v.members| ==> Over(v.members[i].value, ks) else Over(v, ks)
  }

  lemma AgreeTold(ks: iset<string>)
    requires OrdersAgree(ks)
    ensures ToldSet(ks)
  {
    forall k, l | k in ks && l in ks ensures Tells(k, l, false) {
      CompareFlip(k, l, true);
      CompareFlip(k, l, false);
      CompareEqual(k, l);
    }
  }

  lemma OverOrdered(ms: seq<Member>, ks: iset<string>)
    requires Over(Object(ms), ks) && OrdersAgree(ks)
    ensures Ordered(MembersMeaning(ms).Keys, false)
  {
    hide Compare, MembersMeaning, Meaning;
    forall k | k in MembersMeaning(ms) ensures k in ks { MeantMember(ms, k); }
  }

  lemma {:induction false} OverWalkable(a: Json, b: Json, ks: iset<string>)
    requires Over(a, ks) && Over(b, ks) && Clear(a, true) && Clear(b, true) && OrdersAgree(ks)
    ensures Walkable(Meaning(a), Meaning(b), false)
    decreases a, 0
  {
    if a.Object? && b.Object? {
      OverOrdered(a.members, ks);
      OverOrdered(b.members, ks);
      ClearListParts(a);
      ClearListParts(b);
      MembersWalkable(a.members, b.members, ks, false);
    }
  }

  lemma {:induction false} MembersWalkable(fs: seq<Member>, ts: seq<Member>, ks: iset<string>, cs: bool)
    requires ClearList(fs) && ClearList(ts) && OrdersAgree(ks)
    requires forall i :: 0 <= i < |fs| ==> Over(fs[i].value, ks)
    requires forall i :: 0 <= i < |ts| ==> Over(ts[i].value, ks)
    ensures Meeting(MembersMeaning(fs), MembersMeaning(ts), cs)
    decreases fs
  {
    hide Clear, Over, Apart, Meaning, MembersMeaning, OrdersAgree, Walkable;
    var m, n := MembersMeaning(fs), MembersMeaning(ts);
    forall k | k in m && k in n ensures Comparable(m[k], n[k], cs) && Walkable(m[k], n[k], false) {
      var i := MemberBehind(fs, k);
      var j := MemberBehind(ts, k);
      OverComparable(fs[i].value, ts[j].value, ks, cs);
      OverWalkable(fs[i].value, ts[j].value, ks);
    }
  }

  lemma OverComparable(a: Json, b: Json, ks: iset<string>, cs: bool)
    requires Over(a, ks) && Over(b, ks) && Clear(a, true) && Clear(b, true) && OrdersAgree(ks)
    ensures Comparable(Meaning(a), Meaning(b), cs)
  {
    hide Clear, Over, Apart, Meaning, OrdersAgree, ToldSet;
    AgreeTold(ks);
    if cs {
      ApartExactly(Meaning(a), Meaning(a));
      ApartExactly(Meaning(b), Meaning(b));
      ApartExactly(Meaning(a), Meaning(b));
    } else {
      OverApart(a, a, ks);
      OverApart(b, b, ks);
      OverApart(a, b, ks);
    }
  }

  lemma WrittenWalkable(from: Json, to: Json, ks: iset<string>, cs: bool)
    requires Written(from, ks, cs) && Written(to, ks, cs) && OrdersAgree(ks)
    ensures Walkable(Meaning(from), Meaning(to), cs)
  {
    hide Clear, Compare, OrdersAgree, MembersMeaning;
    if cs {
      if from.Object? && to.Object? {
        ClearListParts(from);
        ClearListParts(to);
        OrderedExactly(MembersMeaning(from.members).Keys);
        OrderedExactly(MembersMeaning(to.members).Keys);
        MembersWalkable(from.members, to.members, ks, true);
      }
    } else {
      OverWalkable(from, to, ks);
    }
  }

  /** Trees over these keys can be patched by merging whenever this can be expressed at all. */
  lemma {:induction false} AgreeingKeys(doc: Json, from: Json, to: Json, ks: iset<string>, cs: bool)
    requires Written(doc, ks, cs) && Written(from, ks, cs) && Written(to, ks, cs) && OrdersAgree(ks)
    requires Meaning(doc) == Meaning(from) && Expressible(Meaning(from), Meaning(to))
    ensures Meaning(Merged(doc, GenerateMerge(from, to, cs), cs)) == Meaning(to)
  {
    hide Clear, Over, Apart, Meaning, OrdersAgree, Walkable, GenerateMerge, MergePatch, Expressible;
    WrittenWalkable(from, to, ks, cs);
    AgreeTold(ks);
    hide ToldSet;
    if !cs {
      OverClear(doc, ks);
      OverClear(from, ks);
      OverClear(to, ks);
      OverApart(from, to, ks);
    }
    GenerateThenMerge(doc, from, to, cs);
  }

  // ---- keys whose orders differ ----

  /** Objects with one member each, one inside the other. */
  function Nested(outer: string, ms: seq<Member>): Json
  {
    Object([Member(outer, Object(ms))])
  }

  /**
   For any two keys that strcmp puts into the other order: the walk adds a member that is there
   already and then removes it. Keys that differ in case only come into the wrong order as well,
   since the sort turns equal keys round.
   */
  lemma OrderLost(k: string, l: string, outer: string, x: int, y: int, cs: bool)
    requires Compare(k, l, true) > 0 && (Compare(k, l, false) < 0 || (cs && Compare(k, l, false) == 0))
    ensures var a, b := Member(k, Int(x)), Member(l, Int(y));
      var from, to := Nested(outer, [a, b]), Nested(outer, [b]);
      var patch := Nested(outer, [b, Member(k, Null), Member(l, Null)]);
      && GenerateMerge(from, to, cs) == Some(patch)
      && MergePatch(Some(from), patch, cs) == Nested(outer, [])
  {
    var a, b := Member(k, Int(x)), Member(l, Int(y));
    CompareSame(outer, true);
    CompareSame(outer, cs);
    NestedCompare(a, b, cs);
    var s := SortMembers([a, b], cs);
    NestedSort(a, b, cs);
    NestedPatch(a, b, s);
    CommonOnly(Member(outer, Object([a, b])), Member(outer, Object([b])), cs);
    NestedMerge(a, b, cs);
    MergeOnly(outer, Object([a, b]), Object([b, Member(k, Null), Member(l, Null)]), cs);
  }

  lemma SortPair(a: Member, b: Member, cs: bool)
    requires Compare(a.key, b.key, cs) < 0
    ensures SortMembers([a, b], cs) == [a, b] && SortMembers([b, a], cs) == [a, b] && SortMembers([b], cs) == [b]
  {
    hide Compare;
    CompareFlip(a.key, b.key, cs);
    var s := [b, a];
    assert Ascending([a, b], cs);
    assert !Ascending(s, cs) by { assert Compare(s[0].key, s[1].key, cs) > 0; }
    assert s[..1] == [b] && s[1..] == [a] && [a][1..] == [];
    assert Merge([b], [], cs) == [b];
    assert Merge([b], [a], cs) == [a] + Merge([b], [], cs);
  }

  lemma SortTie(a: Member, b: Member, cs: bool)
    requires Compare(a.key, b.key, cs) == 0
    ensures SortMembers([b, a], cs) == [a, b]
  {
    hide Compare;
    CompareFlip(a.key, b.key, cs);
    var s := [b, a];
    assert !Ascending(s, cs) by { assert Compare(s[0].key, s[1].key, cs) == 0; }
    assert s[..1] == [b] && s[1..] == [a] && [a][1..] == [];
    assert Merge([b], [], cs) == [b];
    assert Merge([b], [a], cs) == [a] + Merge([b], [], cs);
  }

  /** After the comparison in the caller's mode, sorting ignoring case puts a in front. */
  lemma NestedSort(a: Member, b: Member, cs: bool)
    requires Compare(a.key, b.key, true) > 0 && (Compare(a.key, b.key, false) < 0 || (cs && Compare(a.key, b.key, false) == 0))
    ensures SortMembers(SortMembers([a, b], cs), false) == [a, b]
  {
    hide Compare, SortMembers;
    CompareFlip(a.key, b.key, true);
    if cs { SortPair(b, a, true); } else { SortPair(a, b, false); }
    if Compare(a.key, b.key, false) < 0 { SortPair(a, b, false); } else { SortTie(a, b, false); }
  }

  /** The comparison finds a difference and leaves the pair in its order. */
  lemma NestedCompare(a: Member, b: Member, cs: bool)
    requires Compare(a.key, b.key, true) > 0 && (Compare(a.key, b.key, false) < 0 || cs) && a.value.Int? && b.value.Int?
    ensures var s := SortMembers([a, b], cs);
      && (s == [a, b] || s == [b, a]) && !CompareJson(Object([a, b]), Object([b]), cs)
      && AfterCompare(Object([a, b]), Object([b]), cs) == (Object(s), Object([b]))
  {
    hide Compare;
    CompareFlip(a.key, b.key, true);
    CompareSame(b.key, cs);
    if cs { SortPair(b, a, true); } else { SortPair(a, b, false); }
    var s := SortMembers([a, b], cs);
    assert SortMembers([b], cs) == [b];
    LongerAfter(s, b, cs);
    hide SortMembers;
    SortNesting([a, b], cs);
    assert Object([a, b]).members == [a, b] && Object([b]).members == [b];
  }

  lemma LongerAfter(s: seq<Member>, b: Member, cs: bool)
    requires |s| == 2 && b.value.Int? && s[0].value.Int?
    requires s[0] == b || Compare(s[0].key, b.key, cs) != 0
    ensures !CompareMembers(s, [b], cs) && AfterMembers(s, [b], cs) == (s, [b])
  {
    hide Compare;
    assert [b][1..] == [] && |s[1..]| == 1;
    assert !CompareMembers(s[1..], [], cs);
    if s[0] == b && Compare(b.key, b.key, cs) == 0 {
      assert CompareJson(b.value, b.value, cs) && AfterCompare(b.value, b.value, cs) == (b.value, b.value);
      assert AfterMembers(s[1..], [], cs) == (s[1..], []);
      assert [Member(b.key, b.value)] + s[1..] == s;
      assert [Member(b.key, b.value)] + [] == [b];
    }
  }

  lemma NestedPatch(a: Member, b: Member, s: seq<Member>)
    requires Compare(a.key, b.key, true) > 0 && SortMembers(s, false) == [a, b]
    ensures GenerateMerge(Object(s), Object([b]), false) == Some(Object([b, Member(a.key, Null), Member(b.key, Null)]))
  {
    hide CompareJson, Compare;
    assert SortMembers([b], false) == [b];
    var p, m, n := [a, b], Member(a.key, Null), Member(b.key, Null);
    hide SortMembers;
    assert p[1..] == [b] && [b][1..] == [];
    assert GenerateMembers([b], [], false) == [n] by { assert GenerateMembers([], [], false) == []; }
    assert GenerateMembers(p, [], false) == [m] + GenerateMembers([b], [], false);
    assert GenerateMembers(p, [b], false) == [b] + GenerateMembers(p, [], false);
    assert [b] + ([m] + [n]) == [b, m, n];
    SortedWalk(s, p, [b], false);
  }

  lemma SortedWalk(fs: seq<Member>, sf: seq<Member>, ts: seq<Member>, cs: bool)
    requires SortMembers(fs, cs) == sf && SortMembers(ts, cs) == ts && GenerateMembers(sf, ts, cs) != []
    ensures GenerateMerge(Object(fs), Object(ts), cs) == Some(Object(GenerateMembers(sf, ts, cs)))
  {
    hide SortMembers, GenerateMembers;
  }

  /** An object with one member, patched below it. */
  lemma CommonOnly(f: Member, t: Member, cs: bool)
    requires f.key == t.key && Compare(f.key, t.key, true) == 0 && !CompareJson(f.value, t.value, cs)
    requires var r := AfterCompare(f.value, t.value, cs); GenerateMerge(r.0, r.1, false).Some?
    ensures var r := AfterCompare(f.value, t.value, cs);
      GenerateMerge(Object([f]), Object([t]), cs) == Some(Object([Member(t.key, GenerateMerge(r.0, r.1, false).value)]))
  {
    hide CompareJson, AfterCompare, Compare;
    var r := AfterCompare(f.value, t.value, cs);
    AfterNesting(f.value, t.value, cs);
    var g := GenerateCommon(f, t, cs);
    assert g == [Member(t.key, GenerateMerge(r.0, r.1, false).value)];
    assert [f][1..] == [] && [t][1..] == [];
    assert GenerateMembers([f], [t], cs) == g + GenerateMembers([], [], cs);
    assert SortMembers([f], cs) == [f] && SortMembers([t], cs) == [t];
    assert g + [] == g;
    SortedWalk([f], [f], [t], cs);
  }

  lemma NestedMerge(a: Member, b: Member, cs: bool)
    requires Compare(a.key, b.key, cs) != 0 && !b.value.Null? && !b.value.Object?
    ensures MergePatch(Some(Object([a, b])), Object([b, Member(a.key, Null), Member(b.key, Null)]), cs) == Object([])
  {
    hide Compare;
    CompareSame(a.key, cs);
    CompareSame(b.key, cs);
    CompareFlip(a.key, b.key, cs);
    var ts, n, o := [a, b], Member(a.key, Null), Member(b.key, Null);
    assert ts[1..] == [b];
    assert IndexOf([b], b.key, cs) == 0;
    assert IndexOf(ts, b.key, cs) == 1;
    assert MergePatch(Some(b.value), b.value, cs) == b.value;
    assert MergeOne(ts, b, cs) == [a, b];
    assert MergeOne(ts, n, cs) == [b];
    assert MergeOne([b], o, cs) == [];
    assert [b, n, o][1..] == [n, o] && [n, o][1..] == [o] && [o][1..] == [];
    assert MergeMembers([], [], cs) == [];
    assert MergeMembers([b], [o], cs) == [];
    assert MergeMembers(ts, [n, o], cs) == [];
    assert MergeMembers(ts, [b, n, o], cs) == [];
  }

  lemma MergeOnly(key: string, x: Json, q: Json, cs: bool)
    requires Compare(key, key, cs) == 0 && !q.Null?
    ensures MergePatch(Some(Object([Member(key, x)])), Object([Member(key, q)]), cs) ==
            Object([Member(key, MergePatch(Some(x), q, cs))])
  {
    hide Compare;
    var ts, p := [Member(key, x)], Member(key, q);
    assert IndexOf(ts, key, cs) == 0;
    assert RemoveAt(ts, 0) == [];
    assert MergeOne(ts, p, cs) == [Member(key, MergePatch(Some(x), q, cs))];
    assert [p][1..] == [];
    assert MergeMembers(ts, [p], cs) == MergeMembers(MergeOne(ts, p, cs), [], cs);
  }

  /** Without regard to case, a key that changes its case only is not seen to change at all. */
  lemma CaseUnseen(k: string, l: string, outer: string, x: int)
    requires Compare(l, k, false) == 0
    ensures GenerateMerge(Nested(outer, [Member(l, Int(x))]), Nested(outer, [Member(k, Int(x))]), false) == None
  {
    hide Compare;
    CompareSame(outer, true);
    var f, t := Member(outer, Object([Member(l, Int(x))])), Member(outer, Object([Member(k, Int(x))]));
    SingleEqual(Member(l, Int(x)), Member(k, Int(x)));
    hide CompareJson;
    assert GenerateCommon(f, t, false) == [];
    assert [f][1..] == [] && [t][1..] == [];
    assert GenerateMembers([f], [t], false) == [] + GenerateMembers([], [], false);
    assert SortMembers([f], false) == [f] && SortMembers([t], false) == [t];
    assert Object([f]).members == [f] && Object([t]).members == [t];
  }

  lemma SingleEqual(a: Member, b: Member)
    requires Compare(a.key, b.key, false) == 0 && a.value.Int? && a.value == b.value
    ensures CompareJson(Object([a]), Object([b]), false)
  {
    hide Compare;
    SortNesting([a], false);
    assert SortMembers([a], false) == [a] && SortMembers([b], false) == [b];
    assert [a][1..] == [] && [b][1..] == [];
    assert CompareMembers([], [], false);
    assert CompareMembers([a], [b], false);
    assert Object([a]).members == [a] && Object([b]).members == [b];
  }

  // ---- exactly ----

  /** Generating and merging is right for these trees, if they are written over the keys and the target can be expressed. */
  ghost predicate Right(doc: Json, from: Json, to: Json, ks: iset<string>, cs: bool)
  {
    Written(doc, ks, cs) && Written(from, ks, cs) && Written(to, ks, cs) && Meaning(doc) == Meaning(from)
      && Expressible(Meaning(from), Meaning(to)) ==>
    Meaning(Merged(doc, GenerateMerge(from, to, cs), cs)) == Meaning(to)
  }

  /**
   Generating and merging is right for all trees over a set of keys if and only if the two orders
   agree on the set and no two of its keys differ in case only.
   */
  lemma {:induction false} KeysExact(ks: iset<string>, cs: bool)
    ensures (forall doc, from, to :: Right(doc, from, to, ks, cs)) <==> OrdersAgree(ks)
  {
    if OrdersAgree(ks) {
      hide OrdersAgree, Written, Expressible, Meaning, GenerateMerge, MergePatch;
      forall doc, from, to ensures Right(doc, from, to, ks, cs) {
        if Written(doc, ks, cs) && Written(from, ks, cs) && Written(to, ks, cs) && Meaning(doc) == Meaning(from)
          && Expressible(Meaning(from), Meaning(to))
        {
          AgreeingKeys(doc, from, to, ks, cs);
        }
      }
    } else {
      var k, l := Disagreeing(ks);
      if cs || Compare(k, l, false) < 0 {
        OrderWrong(k, l, ks, cs);
      } else {
        CaseWrong(k, l, ks);
      }
    }
  }

  /** A pair of keys on which the orders disagree, in the order of strcmp turned round. */
  lemma Disagreeing(ks: iset<string>) returns (k: string, l: string)
    requires !OrdersAgree(ks)
    ensures k in ks && l in ks && Compare(k, l, true) > 0 && Compare(k, l, false) <= 0
  {
    var a, b :| a in ks && b in ks && !(Compare(a, b, false) < 0 <==> Compare(a, b, true) < 0);
    CompareFlip(a, b, true);
    CompareFlip(a, b, false);
    CompareEqual(a, b);
    CompareSame(a, false);
    if Compare(a, b, true) > 0 { k, l := a, b; } else { k, l := b, a; }
  }

  lemma NestedWritten(outer: string, ms: seq<Member>, ks: iset<string>, cs: bool)
    requires outer in ks && DistinctKeys(ms) && forall i :: 0 <= i < |ms| ==> ms[i].key in ks && ms[i].value.Int?
    ensures Written(Nested(outer, ms), ks, cs) && Clear(Nested(outer, ms), true) && NoNullMembers(Nested(outer, ms))
  {
    hide Compare;
    CompareSame(outer, true);
    ToldExactly(ms);
    assert Clear(Object(ms), true) && Over(Object(ms), ks) && NoNullMembers(Object(ms));
  }

  lemma NestedMeaning(outer: string, ms: seq<Member>, ns: seq<Member>)
    requires Meaning(Nested(outer, ms)) == Meaning(Nested(outer, ns))
    ensures MembersMeaning(ms) == MembersMeaning(ns)
  {
    hide MembersMeaning;
    var f, t := [Member(outer, Object(ms))], [Member(outer, Object(ns))];
    MemberMeant(f, 0);
    MemberMeant(t, 0);
    ObjectMeaning(ms);
    ObjectMeaning(ns);
  }

  lemma OrderWrong(k: string, l: string, ks: iset<string>, cs: bool)
    requires k in ks && l in ks && Compare(k, l, true) > 0 && (Compare(k, l, false) < 0 || (cs && Compare(k, l, false) == 0))
    ensures exists from, to :: !Right(from, from, to, ks, cs)
  {
    CompareSame(k, true);
    var a, b := Member(k, Int(1)), Member(l, Int(2));
    var from, to := Nested(k, [a, b]), Nested(k, [b]);
    NestedWritten(k, [a, b], ks, cs);
    NestedWritten(k, [b], ks, cs);
    hide Compare, Written, Clear, NoNullMembers, Expressible, Meaning, MembersMeaning, GenerateMerge, MergePatch;
    FullExpressible(Meaning(from), to);
    OrderLost(k, l, k, 1, 2, cs);
    MemberMeant([b], 0);
    NoMembers();
    if Meaning(Nested(k, [])) == Meaning(to) { NestedMeaning(k, [], [b]); }
    assert !Right(from, from, to, ks, cs);
  }

  lemma CaseWrong(k: string, l: string, ks: iset<string>)
    requires k in ks && l in ks && Compare(k, l, true) > 0 && Compare(k, l, false) == 0
    ensures exists from, to :: !Right(from, from, to, ks, false)
  {
    CompareSame(k, true);
    CompareFlip(k, l, false);
    var a, b := Member(l, Int(1)), Member(k, Int(1));
    var from, to := Nested(k, [a]), Nested(k, [b]);
    NestedWritten(k, [a], ks, false);
    NestedWritten(k, [b], ks, false);
    hide Compare, Written, Clear, NoNullMembers, Expressible, Meaning, MembersMeaning, GenerateMerge, MergePatch;
    FullExpressible(Meaning(from), to);
    CaseUnseen(k, l, k, 1);
    MemberMeant([a], 0);
    assert l !in MembersMeaning([b]) by { OtherKey(b, l); }
    if Meaning(from) == Meaning(to) { NestedMeaning(k, [a], [b]); }
    assert !Right(from, from, to, ks, false);
  }

  lemma OtherKey(b: Member, k: string)
    requires b.key != k
    ensures k !in MembersMeaning([b])
  {
    if k in MembersMeaning([b]) { MeantMember([b], k); }
  }
}
