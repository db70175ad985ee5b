/**
 When a generated merge patch turns `from` into `to`: exactly, for every pair of trees, by what the
 walk along the two sorted lists meets.
 */
module JsonMergeExact {
  import opened Json
  import opened JsonTree
  import opened JsonMeaning
  import opened JsonCompare
  import opened JsonMerge

  // ---- the condition along the walk ----

  /**
   The patch from `from` reaches `to`. Along the walk, a member that is added must not stand among
   the members of `from` that are still to be passed, since it would be removed again, and must be
   free of null members; a common member must be equal or reached in turn.
   */
  ghost predicate Reaches(from: Json, to: Json, cs: bool)
    decreases Nesting(from), 0, 0
  {
    if !to.Object? || !from.Object? then NoNullMembers(to)
    else
      SortNesting(from.members, cs);
      ReachesMembers(SortMembers(from.members, cs), SortMembers(to.members, cs), cs)
  }

  ghost predicate ReachesMembers(fs: seq<Member>, ts: seq<Member>, cs: bool)
    decreases MembersNesting(fs), 1, |fs| + |ts|
  {
    fs != [] || ts != [] ==>
      var diff := if fs == [] then 1 else if ts == [] then -1 else Compare(fs[0].key, ts[0].key, true);
      if diff < 0 then ReachesMembers(fs[1..], ts, cs)
      else if diff > 0 then ReachesNew(fs, ts[0]) && ReachesMembers(fs, ts[1..], cs)
      else ReachesCommon(fs[0].value, ts[0].value, cs) && ReachesMembers(fs[1..], ts[1..], cs)
  }

  predicate ReachesNew(fs: seq<Member>, t: Member)
  {
    !HasKey(fs, t.key) && !t.value.Null? && NoNullMembers(t.value)
  }

  ghost predicate ReachesCommon(f: Json, t: Json, cs: bool)
    decreases Nesting(f), 0, 1
  {
    if CompareJson(f, t, cs) then Meaning(f) == Meaning(t)
    else
      AfterNesting(f, t, cs);
      var r := AfterCompare(f, t, cs);
      !t.Null? && Reaches(r.0, r.1, false)
  }

  // ---- keys the walk does not name ----

  lemma {:induction false} AppliedElsewhere(m: map<string, Value>, ps: seq<Member>, x: string)
    requires !HasKey(ps, x)
    ensures var r := AppliedMembers(m, ps); (x in r <==> x in m) && (x in m ==> r[x] == m[x])
    decreases |ps|
  {
    hide Applied;
    if ps != [] {
      NotInTail(ps, x);
      AppliedElsewhere(AppliedOne(m, ps[0]), ps[1..], x);
    }
  }

  lemma {:induction false} GeneratedKeys(fs: seq<Member>, ts: seq<Member>, x: string, cs: bool)
    requires !HasKey(fs, x) && !HasKey(ts, x)
    ensures !HasKey(GenerateMembers(fs, ts, cs), x)
    decreases |fs| + |ts|
  {
    hide CompareJson, AfterCompare, GenerateMerge, Compare;
    if fs != [] || ts != [] {
      var diff := if fs == [] then 1 else if ts == [] then -1 else Compare(fs[0].key, ts[0].key, true);
      if fs != [] { NotInTail(fs, x); }
      if ts != [] { NotInTail(ts, x); }
      if diff < 0 {
        GeneratedKeys(fs[1..], ts, x, cs);
        NotInJoin([Member(fs[0].key, Null)], GenerateMembers(fs[1..], ts, cs), x);
      } else if diff > 0 {
        GeneratedKeys(fs, ts[1..], x, cs);
        NotInJoin([ts[0]], GenerateMembers(fs, ts[1..], cs), x);
      } else {
        GeneratedKeys(fs[1..], ts[1..], x, cs);
        NotInJoin(GenerateCommon(fs[0], ts[0], cs), GenerateMembers(fs[1..], ts[1..], cs), x);
      }
    }
  }

  lemma NotInTail(ms: seq<Member>, x: string)
    requires ms != [] && !HasKey(ms, x)
    ensures ms[0].key != x && !HasKey(ms[1..], x)
  {
    KeyAt(ms, 0);
    if HasKey(ms[1..], x) { HasKeyLater(ms, x); }
  }

  lemma HasKeyLater(ms: seq<Member>, x: string)
    requires ms != [] && HasKey(ms[1..], x)
    ensures HasKey(ms, x)
  {
    var i :| 0 <= i < |ms[1..]| && ms[1..][i].key == x;
    assert ms[i + 1].key == x;
  }

  lemma NotInJoin(a: seq<Member>, b: seq<Member>, x: string)
    requires !HasKey(b, x) && forall i :: 0 <= i < |a| ==> a[i].key != x
    ensures !HasKey(a + b, x)
  {
    forall i | 0 <= i < |a + b| ensures (a + b)[i].key != x {
      if i >= |a| { KeyAt(b, i - |a|); }
    }
  }

  /** What neither list names stays as it is. */
  lemma Untouched(m: map<string, Value>, fs: seq<Member>, ts: seq<Member>, x: string, cs: bool)
    requires !HasKey(fs, x) && !HasKey(ts, x)
    ensures var r := AppliedMembers(m, GenerateMembers(fs, ts, cs)); (x in r <==> x in m) && (x in m ==> r[x] == m[x])
  {
    hide GenerateMembers, AppliedMembers, HasKey;
    GeneratedKeys(fs, ts, x, cs);
    AppliedElsewhere(m, GenerateMembers(fs, ts, cs), x);
  }

  /** The effect of the first members of a patch. */
  lemma AppliedFirst(m: map<string, Value>, p: Member, rest: seq<Member>)
    ensures AppliedMembers(m, [p] + rest) == AppliedMembers(AppliedOne(m, p), rest)
  {
    assert ([p] + rest)[1..] == rest;
  }

  /** The members after the part of the patch for a common key. */
  ghost function AppliedCommon(m: map<string, Value>, f: Member, t: Member, cs: bool): map<string, Value>
  {
    AppliedMembers(m, GenerateCommon(f, t, cs))
  }

  lemma AppliedJoin(m: map<string, Value>, f: Member, t: Member, rest: seq<Member>, cs: bool)
    ensures AppliedMembers(m, GenerateCommon(f, t, cs) + rest) == AppliedMembers(AppliedCommon(m, f, t, cs), rest)
  {
    var g := GenerateCommon(f, t, cs);
    hide GenerateCommon, AppliedOne;
    CommonShort(f, t, cs);
    if g == [] {
      assert g + rest == rest;
    } else {
      assert g == [g[0]] && [g[0]] + [] == [g[0]];
      AppliedFirst(m, g[0], rest);
      AppliedFirst(m, g[0], []);
    }
  }

  lemma CommonShort(f: Member, t: Member, cs: bool)
    ensures var g := GenerateCommon(f, t, cs); |g| <= 1 && (g != [] ==> g[0].key == t.key)
  {
    hide CompareJson, AfterCompare, GenerateMerge;
  }

  /** A member of `from` that `to` no longer holds is gone at the end, whatever was there before. */
  lemma {:induction false} LostAtLast(m: map<string, Value>, fs: seq<Member>, ts: seq<Member>, x: string, cs: bool)
    requires DistinctKeys(fs) && HasKey(fs, x) && !HasKey(ts, x)
    ensures x !in AppliedMembers(m, GenerateMembers(fs, ts, cs))
    decreases |fs| + |ts|
  {
    hide GenerateCommon, Compare, AppliedMembers, HasKey, AppliedOne;
    var diff := if fs == [] then 1 else if ts == [] then -1 else Compare(fs[0].key, ts[0].key, true);
    assert fs != [] by { KeyOf(fs, x); }
    if ts != [] { NotInTail(ts, x); }
    if diff < 0 {
      var m1 := AppliedOne(m, Member(fs[0].key, Null));
      AppliedFirst(m, Member(fs[0].key, Null), GenerateMembers(fs[1..], ts, cs));
      if fs[0].key == x {
        FirstOnly(fs);
        Untouched(m1, fs[1..], ts, x, cs);
        Removed(m, x);
      } else {
        InTail(fs, x);
        LostAtLast(m1, fs[1..], ts, x, cs);
      }
    } else if diff > 0 {
      AppliedFirst(m, ts[0], GenerateMembers(fs, ts[1..], cs));
      LostAtLast(AppliedOne(m, ts[0]), fs, ts[1..], x, cs);
    } else {
      CompareEqual(fs[0].key, ts[0].key);
      InTail(fs, x);
      AppliedJoin(m, fs[0], ts[0], GenerateMembers(fs[1..], ts[1..], cs), cs);
      LostAtLast(AppliedCommon(m, fs[0], ts[0], cs), fs[1..], ts[1..], x, cs);
    }
  }

  lemma KeyOf(fs: seq<Member>, x: string)
    requires HasKey(fs, x)
    ensures fs != []
  {
  }

  lemma Removed(m: map<string, Value>, x: string)
    ensures AppliedOne(m, Member(x, Null)) == m - {x}
  {
  }

  lemma FirstOnly(fs: seq<Member>)
    requires fs != [] && DistinctKeys(fs)
    ensures !HasKey(fs[1..], fs[0].key)
  {
  }

  lemma InTail(fs: seq<Member>, x: string)
    requires HasKey(fs, x) && DistinctKeys(fs) && (fs != [] ==> fs[0].key != x)
    ensures fs != [] && HasKey(fs[1..], x) && DistinctKeys(fs[1..])
  {
    var i :| 0 <= i < |fs| && fs[i].key == x;
    assert fs[1..][i - 1].key == x;
  }

  // ---- the walk ----

  ghost predicate Covering(m: map<string, Value>, fs: seq<Member>)
  {
    forall i :: 0 <= i < |fs| ==> fs[i].key in m && m[fs[i].key] == Meaning(fs[i].value)
  }

  ghost predicate Awaiting(m: map<string, Value>, fs: seq<Member>, ts: seq<Member>)
  {
    forall j :: 0 <= j < |ts| && ts[j].key in m ==> HasKey(fs, ts[j].key)
  }

  /** What m should become: the members still in fs give way to those in ts. */
  ghost function Goal(m: map<string, Value>, fs: seq<Member>, ts: seq<Member>): map<string, Value>
  {
    (m - MembersMeaning(fs).Keys) + MembersMeaning(ts)
  }

  /** What the value of a key becomes under a patch; without a patch it stays. */
  ghost function AppliedOption(t: Value, p: Option<Json>): Value
  {
    if p == None then t else Applied(t, p.value)
  }

  ghost predicate Standing(m: map<string, Value>, fs: seq<Member>, ts: seq<Member>)
  {
    ClearList(fs) && ClearList(ts) && Covering(m, fs) && Awaiting(m, fs, ts)
  }

  lemma StandingRemove(m: map<string, Value>, fs: seq<Member>, ts: seq<Member>)
    requires Standing(m, fs, ts) && fs != []
    ensures var n := m - {fs[0].key}; Standing(n, fs[1..], ts) && Goal(n, fs[1..], ts) == Goal(m, fs, ts)
  {
    hide Clear, Meaning, MembersMeaning, HasKey;
    TailParts(fs);
    var n := m - {fs[0].key};
    forall j | 0 <= j < |ts| && ts[j].key in n ensures HasKey(fs[1..], ts[j].key) { InTail(fs, ts[j].key); }
    assert n - MembersMeaning(fs[1..]).Keys == m - MembersMeaning(fs).Keys;
  }

  lemma StandingAdd(m: map<string, Value>, fs: seq<Member>, ts: seq<Member>)
    requires Standing(m, fs, ts) && ts != [] && !HasKey(fs, ts[0].key)
    ensures ts[0].key !in m
    ensures var n := m[ts[0].key := Meaning(ts[0].value)]; Standing(n, fs, ts[1..]) && Goal(n, fs, ts[1..]) == Goal(m, fs, ts)
  {
    hide Clear, Meaning, MembersMeaning, HasKey;
    TailParts(ts);
    var k := ts[0].key;
    var n := m[k := Meaning(ts[0].value)];
    forall i | 0 <= i < |fs| ensures fs[i].key != k { KeyAt(fs, i); }
    NotMeant(fs, k);
    assert Goal(n, fs, ts[1..]) == Goal(m, fs, ts);
  }

  lemma NotMeant(ms: seq<Member>, k: string)
    ensures k in MembersMeaning(ms) <==> HasKey(ms, k)
  {
  }

  lemma StandingCommon(m: map<string, Value>, n: map<string, Value>, fs: seq<Member>, ts: seq<Member>)
    requires Standing(m, fs, ts) && fs != [] && ts != [] && fs[0].key == ts[0].key
    requires n == m[ts[0].key := Meaning(ts[0].value)]
    ensures Standing(n, fs[1..], ts[1..]) && Goal(n, fs[1..], ts[1..]) == Goal(m, fs, ts)
  {
    hide Clear, Meaning, MembersMeaning, HasKey;
    TailParts(fs);
    TailParts(ts);
    FirstOnly(fs);
    forall i | 0 <= i < |fs[1..]| ensures fs[1..][i].key != fs[0].key { KeyAt(fs[1..], i); }
    forall j | 0 <= j < |ts[1..]| && ts[1..][j].key in n ensures HasKey(fs[1..], ts[1..][j].key) {
      assert ts[1..][j] == ts[j + 1];
      InTail(fs, ts[j + 1].key);
    }
    assert Goal(n, fs[1..], ts[1..]) == Goal(m, fs, ts);
  }

  /** The first member of ts is part of the goal. */
  lemma GoalFirst(m: map<string, Value>, fs: seq<Member>, ts: seq<Member>)
    requires ts != [] && DistinctKeys(ts)
    ensures var g := Goal(m, fs, ts); ts[0].key in g && g[ts[0].key] == Meaning(ts[0].value)
  {
    hide Meaning;
    FirstMeaning(ts);
  }

  /** A new member arrives as itself exactly when it has no nulls. */
  lemma NewMember(m: map<string, Value>, t: Member)
    requires t.key !in m && Clear(t.value, true)
    ensures var n := AppliedOne(m, t);
      !t.value.Null? && NoNullMembers(t.value) ==> n == m[t.key := Meaning(t.value)]
    ensures var n := AppliedOne(m, t);
      (t.key in n && n[t.key] == Meaning(t.value)) <==> !t.value.Null? && NoNullMembers(t.value)
  {
    hide Clear, Meaning, Applied, RfcMerge, NoNullMembers, Apart;
    if t.value.Null? {
      assert t.key !in AppliedOne(m, t);
    } else {
      ApartExactly(VNull, Meaning(t.value));
      AppliedIsRfc(VNull, t.value, true);
      MergeIntoNothing(t.value);
      assert m - {t.key} == m;
    }
  }

  /** The patch of a pair of values, applied to the first. */
  lemma {:induction false} GeneratedExact(from: Json, to: Json, cs: bool)
    requires Clear(from, true) && Clear(to, true)
    ensures AppliedOption(Meaning(from), GenerateMerge(from, to, cs)) == Meaning(to) <==> Reaches(from, to, cs)
    decreases Nesting(from), 0, 3
  {
    if !to.Object? || !from.Object? {
      ReplacedExact(from, to);
    } else {
      ObjectsExact(from.members, to.members, cs);
    }
  }

  lemma ReplacedExact(from: Json, to: Json)
    requires Clear(to, true) && (!to.Object? || !from.Object?)
    ensures Applied(Meaning(from), to) == Meaning(to) <==> NoNullMembers(to)
  {
    hide Clear, Applied, RfcMerge, NoNullMembers, Apart;
    ApartExactly(Meaning(from), Meaning(to));
    AppliedIsRfc(Meaning(from), to, true);
    if to.Object? {
      MergeIntoNothing(to);
      RfcObject(Meaning(from), Meaning(to));
      RfcObject(VNull, Meaning(to));
    } else {
      ScalarIsRfc(Meaning(from), to);
      ScalarFull(to);
    }
  }

  lemma ScalarFull(v: Json)
    requires !v.Object?
    ensures NoNullMembers(v)
  {
  }

  lemma {:induction false} ObjectsExact(fs: seq<Member>, ts: seq<Member>, cs: bool)
    requires Clear(Object(fs), true) && Clear(Object(ts), true)
    ensures AppliedOption(Meaning(Object(fs)), GenerateMerge(Object(fs), Object(ts), cs)) == Meaning(Object(ts))
       <==> Reaches(Object(fs), Object(ts), cs)
    decreases Nesting(Object(fs)), 0, 2
  {
    ClearListParts(Object(fs));
    ClearListParts(Object(ts));
    ObjectMeaning(fs);
    ObjectMeaning(ts);
    SortedList(fs, cs);
    SortedList(ts, cs);
    SortNesting(fs, cs);
    hide SortMembers, GenerateMembers, ReachesMembers, MembersMeaning, Meaning, ClearList, Standing, Goal, DistinctKeys;
    var sf, st := SortMembers(fs, cs), SortMembers(ts, cs);
    var m := MembersMeaning(fs);
    hide AppliedMembers, Clear;
    StandingStart(m, sf, st);
    WalkExact(m, sf, st, cs);
    ObjectApplied(m, GenerateMembers(sf, st, cs));
    hide Applied, AppliedOption;
    GenerateObjects(fs, ts, cs);
  }

  lemma ObjectApplied(m: map<string, Value>, gs: seq<Member>)
    ensures AppliedOption(VObject(m), OptionOf(gs)) == VObject(AppliedMembers(m, gs))
  {
    hide AppliedOne;
  }

  lemma SortedList(ms: seq<Member>, cs: bool)
    requires ClearList(ms)
    ensures ClearList(SortMembers(ms, cs)) && MembersMeaning(SortMembers(ms, cs)) == MembersMeaning(ms)
  {
    hide SortMembers, Clear, MembersMeaning;
    var ns := SortMembers(ms, cs);
    SortKeeps(ms, cs);
    PermutedKeys(ms, ns);
    MeaningPermuted(ms, ns);
  }

  lemma StandingStart(m: map<string, Value>, fs: seq<Member>, ts: seq<Member>)
    requires ClearList(fs) && ClearList(ts) && m == MembersMeaning(fs)
    ensures Standing(m, fs, ts) && Goal(m, fs, ts) == MembersMeaning(ts)
  {
    hide Clear, Meaning, MembersMeaning;
    forall i | 0 <= i < |fs| ensures fs[i].key in m && m[fs[i].key] == Meaning(fs[i].value) { MemberMeant(fs, i); }
    forall j | 0 <= j < |ts| && ts[j].key in m ensures HasKey(fs, ts[j].key) { NotMeant(fs, ts[j].key); }
    assert m - m.Keys == map[];
    assert map[] + MembersMeaning(ts) == MembersMeaning(ts);
  }

  /** The walk reaches its goal exactly when each step does its part. */
  lemma {:induction false} WalkExact(m: map<string, Value>, fs: seq<Member>, ts: seq<Member>, cs: bool)
    requires Standing(m, fs, ts)
    ensures AppliedMembers(m, GenerateMembers(fs, ts, cs)) == Goal(m, fs, ts) <==> ReachesMembers(fs, ts, cs)
    decreases MembersNesting(fs), 1, |fs| + |ts|
  {
    hide GenerateCommon, Compare, AppliedMembers, AppliedOne, Standing, Goal, ReachesNew, ReachesCommon;
    if fs == [] && ts == [] {
      GoalReached(m);
    } else {
      var diff := if fs == [] then 1 else if ts == [] then -1 else Compare(fs[0].key, ts[0].key, true);
      if diff < 0 {
        AppliedFirst(m, Member(fs[0].key, Null), GenerateMembers(fs[1..], ts, cs));
        Removed(m, fs[0].key);
        StandingRemove(m, fs, ts);
        WalkExact(m - {fs[0].key}, fs[1..], ts, cs);
      } else if diff > 0 {
        NewExact(m, fs, ts, cs);
      } else {
        CompareEqual(fs[0].key, ts[0].key);
        CommonExact(m, fs, ts, cs);
      }
    }
  }

  lemma GoalReached(m: map<string, Value>)
    ensures AppliedMembers(m, []) == Goal(m, [], [])
  {
    NoMembers();
    assert m - {} == m;
  }

  lemma {:induction false} NewExact(m: map<string, Value>, fs: seq<Member>, ts: seq<Member>, cs: bool)
    requires Standing(m, fs, ts) && ts != []
    ensures AppliedMembers(m, [ts[0]] + GenerateMembers(fs, ts[1..], cs)) == Goal(m, fs, ts)
       <==> ReachesNew(fs, ts[0]) && ReachesMembers(fs, ts[1..], cs)
    decreases MembersNesting(fs), 1, |fs| + |ts|, 0
  {
    hide GenerateMembers, ReachesMembers, AppliedMembers, AppliedOne, Standing, Goal, ClearList, Clear, HasKey, NoNullMembers, Meaning, MembersMeaning, DistinctKeys;
    var t := ts[0];
    StandingParts(m, fs, ts);
    GoalFirst(m, fs, ts);
    AppliedFirst(m, t, GenerateMembers(fs, ts[1..], cs));
    var n := AppliedOne(m, t);
    if HasKey(fs, t.key) {
      LostAtLast(n, fs, ts[1..], t.key, cs);
    } else {
      StandingAdd(m, fs, ts);
      NewMember(m, t);
      if !t.value.Null? && NoNullMembers(t.value) {
        WalkExact(n, fs, ts[1..], cs);
      } else {
        Untouched(n, fs, ts[1..], t.key, cs);
      }
    }
  }

  lemma StandingParts(m: map<string, Value>, fs: seq<Member>, ts: seq<Member>)
    requires Standing(m, fs, ts) && ts != []
    ensures ClearList(fs) && ClearList(ts) && DistinctKeys(fs) && DistinctKeys(ts)
    ensures ClearList(ts[1..]) && Clear(ts[0].value, true) && !HasKey(ts[1..], ts[0].key)
  {
    hide Clear, Meaning, MembersMeaning;
    TailParts(ts);
    FirstOnly(ts);
  }

  lemma {:induction false} CommonExact(m: map<string, Value>, fs: seq<Member>, ts: seq<Member>, cs: bool)
    requires Standing(m, fs, ts) && fs != [] && ts != [] && fs[0].key == ts[0].key
    ensures AppliedMembers(m, GenerateCommon(fs[0], ts[0], cs) + GenerateMembers(fs[1..], ts[1..], cs)) == Goal(m, fs, ts)
       <==> ReachesCommon(fs[0].value, ts[0].value, cs) && ReachesMembers(fs[1..], ts[1..], cs)
    decreases MembersNesting(fs), 1, |fs| + |ts|, 0
  {
    var f, t := fs[0], ts[0];
    assert ClearList(fs) && ClearList(ts) && DistinctKeys(fs);
    assert f.key in m && m[f.key] == Meaning(f.value) by { assert Covering(m, fs); }
    TailParts(fs);
    TailParts(ts);
    FirstOnly(fs);
    FirstOnly(ts);
    GoalFirst(m, fs, ts);
    AppliedJoin(m, f, t, GenerateMembers(fs[1..], ts[1..], cs), cs);
    var n := AppliedCommon(m, f, t, cs);
    CommonMember(m, f, t, cs);
    hide GenerateMembers, GenerateCommon, ReachesMembers, ReachesCommon, AppliedMembers, AppliedCommon, Standing, Goal, ClearList, Clear, HasKey, Meaning, MembersMeaning, DistinctKeys;
    if ReachesCommon(f.value, t.value, cs) {
      StandingCommon(m, n, fs, ts);
      WalkExact(n, fs[1..], ts[1..], cs);
    } else {
      Untouched(n, fs[1..], ts[1..], t.key, cs);
    }
  }

  /** A common member becomes that of the target exactly when its values say so. */
  lemma {:induction false} CommonMember(m: map<string, Value>, f: Member, t: Member, cs: bool)
    requires f.key == t.key && f.key in m && m[f.key] == Meaning(f.value) && Clear(f.value, true) && Clear(t.value, true)
    ensures var n := AppliedCommon(m, f, t, cs);
      && (ReachesCommon(f.value, t.value, cs) ==> n == m[t.key := Meaning(t.value)])
      && (!ReachesCommon(f.value, t.value, cs) ==> !(t.key in n && n[t.key] == Meaning(t.value)))
    decreases Nesting(f.value), 0, 4
  {
    var n := AppliedCommon(m, f, t, cs);
    if CompareJson(f.value, t.value, cs) {
      assert n == m;
      assert m[t.key := m[t.key]] == m;
    } else {
      AfterAlike(f.value, t.value, cs);
      AfterNesting(f.value, t.value, cs);
      var r := AfterCompare(f.value, t.value, cs);
      GeneratedExact(r.0, r.1, false);
      var p := GenerateMerge(r.0, r.1, false);
      GeneratedNull(r.0, r.1);
      NullMeans(t.value);
      NullMeans(r.1);
      CommonEffect(m, f, t, p, cs);
      assert m[t.key := m[t.key]] == m;
    }
  }

  lemma CommonEffect(m: map<string, Value>, f: Member, t: Member, p: Option<Json>, cs: bool)
    requires !CompareJson(f.value, t.value, cs)
    requires p == GenerateMerge(AfterCompare(f.value, t.value, cs).0, AfterCompare(f.value, t.value, cs).1, false)
    requires f.key == t.key && f.key in m && m[f.key] == Meaning(f.value)
    ensures AppliedCommon(m, f, t, cs) ==
      if p == None then m
      else if p.value.Null? then m - {t.key}
      else m[t.key := Applied(Meaning(f.value), p.value)]
  {
    hide CompareJson, AfterCompare, GenerateMerge, Applied, Meaning;
    if p.Some? {
      var g := Member(t.key, p.value);
      assert [g][1..] == [];
      assert AppliedMembers(m, [g]) == AppliedOne(m, g);
      assert (m - {t.key})[t.key := Applied(Meaning(f.value), p.value)] == m[t.key := Applied(Meaning(f.value), p.value)];
    }
  }

  /** A patch is null exactly for a null target. */
  lemma GeneratedNull(from: Json, to: Json)
    ensures var p := GenerateMerge(from, to, false); (p.Some? && p.value.Null? <==> to.Null?) && (p == None ==> from.Object? && to.Object?)
  {
  }

  // ---- the patch fits the tree ----

  /** Whatever the walk generates, its keys are told apart from those that are there. */
  lemma {:induction false} GeneratedFits(from: Json, to: Json, gen: bool, cs: bool)
    requires Clear(from, true) && Clear(to, true) && Clear(from, cs) && Clear(to, cs) && Apart(Meaning(from), Meaning(to), cs)
    ensures GenerateMerge(from, to, gen).Some? ==> Fits(Meaning(from), GenerateMerge(from, to, gen).value, cs)
    decreases Nesting(from), 0, 3
  {
    if !to.Object? || !from.Object? {
      hide Clear, Meaning, Fits, Apart;
      AppliedIsRfc(Meaning(from), to, cs);
    } else {
      ObjectsFit(from.members, to.members, gen, cs);
    }
  }

  /** The keys of the list are told apart from those of the map. */
  ghost predicate KeysTold(ms: seq<Member>, m: map<string, Value>, cs: bool)
  {
    forall i, k :: 0 <= i < |ms| && k in m ==> Tells(ms[i].key, k, cs)
  }

  /** For the keys of the list, m still is what it was. */
  ghost predicate StillThere(m: map<string, Value>, f: map<string, Value>, ms: seq<Member>)
  {
    forall j :: 0 <= j < |ms| ==> SameAt(m, f, ms[j].key)
  }

  ghost predicate SameAt(m: map<string, Value>, f: map<string, Value>, key: string)
  {
    (key in m <==> key in f) && (key in m ==> m[key] == f[key])
  }

  ghost predicate ClearLists(fs: seq<Member>, ts: seq<Member>, cs: bool)
  {
    && ClearList(fs) && ClearList(ts) && ClearMembers(fs, cs) && ClearMembers(ts, cs)
    && ApartMembers(MembersMeaning(fs), MembersMeaning(ts), cs)
  }

  /** What the walk relies on for this: keys are told apart, and values that may still meet are apart. */
  ghost predicate Fitting(m: map<string, Value>, fs: seq<Member>, ts: seq<Member>, cs: bool)
  {
    ClearLists(fs, ts, cs) && KeysTold(fs, m, cs) && KeysTold(ts, m, cs) && StillThere(m, MembersMeaning(fs), ts)
  }

  lemma {:induction false} ObjectsFit(fs: seq<Member>, ts: seq<Member>, gen: bool, cs: bool)
    requires Clear(Object(fs), true) && Clear(Object(ts), true) && ClearMembers(fs, cs) && ClearMembers(ts, cs)
    requires ApartMembers(MembersMeaning(fs), MembersMeaning(ts), cs)
    ensures var p := GenerateMerge(Object(fs), Object(ts), gen); p.Some? ==> Fits(Meaning(Object(fs)), p.value, cs)
    decreases Nesting(Object(fs)), 0, 2
  {
    ObjectMeaning(fs);
    SortNesting(fs, gen);
    hide SortMembers, GenerateMembers, MembersMeaning, Meaning, Clear, FitsMembers, Fitting;
    var sf, st := SortMembers(fs, gen), SortMembers(ts, gen);
    FittingStart(fs, ts, gen, cs);
    WalkFits(MembersMeaning(fs), sf, st, gen, cs);
    GenerateObjects(fs, ts, gen);
  }

  lemma ClearPermuted(ms: seq<Member>, ns: seq<Member>, cs: bool)
    requires ClearMembers(ms, cs) && multiset(ns) == multiset(ms)
    ensures ClearMembers(ns, cs)
  {
    hide Clear, Tells;
    PermutedKeys(ms, ns);
    forall i, j | 0 <= i < |ns| && 0 <= j < |ns| ensures Tells(ns[i].key, ns[j].key, cs) {
      assert ns[i] in ms && ns[j] in ms;
    }
    forall i | 0 <= i < |ns| ensures Clear(ns[i].value, cs) { assert ns[i] in ms; }
  }

  lemma FittingStart(fs: seq<Member>, ts: seq<Member>, gen: bool, cs: bool)
    requires Clear(Object(fs), true) && Clear(Object(ts), true) && ClearMembers(fs, cs) && ClearMembers(ts, cs)
    requires ApartMembers(MembersMeaning(fs), MembersMeaning(ts), cs)
    ensures Fitting(MembersMeaning(fs), SortMembers(fs, gen), SortMembers(ts, gen), cs)
  {
    ClearListParts(Object(fs));
    ClearListParts(Object(ts));
    hide SortMembers, MembersMeaning, ClearMembers, KeysTold, ApartMembers, ClearList, Clear, StillThere, DistinctKeys;
    var sf, st, m := SortMembers(fs, gen), SortMembers(ts, gen), MembersMeaning(fs);
    SortedList(fs, gen);
    SortedList(ts, gen);
    SortKeeps(fs, gen);
    SortKeeps(ts, gen);
    ClearPermuted(fs, sf, cs);
    ClearPermuted(ts, st, cs);
    ClearSelf(fs, cs);
    assert DistinctKeys(sf) && DistinctKeys(st) by { ListDistinct(sf); ListDistinct(st); }
    ApartTold(m, sf, cs);
    ApartSwapped(m, MembersMeaning(ts), cs);
    ApartTold(m, st, cs);
    StillSelf(m, st);
  }

  lemma StillSelf(m: map<string, Value>, ms: seq<Member>)
    ensures StillThere(m, m, ms)
  {
  }

  /** A step that touches one key keeps this for the others. */
  lemma StillStep(m: map<string, Value>, n: map<string, Value>, f: map<string, Value>, g: map<string, Value>, ms: seq<Member>, ns: seq<Member>, key: string)
    requires StillThere(m, f, ms) && (forall x :: x in ns ==> x in ms)
    requires forall x :: x != key ==> SameAt(n, m, x) && SameAt(g, f, x)
    requires SameAt(n, g, key) || forall j :: 0 <= j < |ns| ==> ns[j].key != key
    ensures StillThere(n, g, ns)
  {
    forall j | 0 <= j < |ns| ensures SameAt(n, g, ns[j].key) {
      var k := ns[j].key;
      assert ns[j] in ms;
      assert SameAt(m, f, k);
      if k != key { assert SameAt(n, m, k) && SameAt(g, f, k); }
    }
  }

  lemma ApartSwapped(m: map<string, Value>, n: map<string, Value>, cs: bool)
    requires ApartMembers(m, n, cs)
    ensures ApartMembers(n, m, cs)
  {
    ApartFlip(VObject(m), VObject(n), cs);
  }

  lemma ApartTold(m: map<string, Value>, ms: seq<Member>, cs: bool)
    requires DistinctKeys(ms) && ApartMembers(MembersMeaning(ms), m, cs)
    ensures KeysTold(ms, m, cs)
  {
    hide MembersMeaning, Tells, ApartMembers, DistinctKeys, HasKey, Meaning;
    forall i, k | 0 <= i < |ms| && k in m ensures Tells(ms[i].key, k, cs) {
      MemberMeant(ms, i);
      ApartAt(MembersMeaning(ms), m, ms[i].key, k, cs);
    }
  }

  lemma {:induction false} WalkFits(m: map<string, Value>, fs: seq<Member>, ts: seq<Member>, gen: bool, cs: bool)
    requires Fitting(m, fs, ts, cs)
    ensures FitsMembers(m, GenerateMembers(fs, ts, gen), cs)
    decreases MembersNesting(fs), 1, |fs| + |ts|
  {
    hide GenerateCommon, Compare, FitsMembers, FitsOne, AppliedOne, Fitting, AppliedMembers;
    if fs == [] && ts == [] {
      FitsNothing(m, cs);
    } else {
      var diff := if fs == [] then 1 else if ts == [] then -1 else Compare(fs[0].key, ts[0].key, true);
      if diff < 0 {
        var p := Member(fs[0].key, Null);
        FitsFirst(m, p, GenerateMembers(fs[1..], ts, gen), cs);
        Removed(m, fs[0].key);
        FittingRemove(m, fs, ts, cs);
        WalkFits(m - {fs[0].key}, fs[1..], ts, gen, cs);
      } else if diff > 0 {
        FitsFirst(m, ts[0], GenerateMembers(fs, ts[1..], gen), cs);
        FittingNew(m, AppliedOne(m, ts[0]), fs, ts, cs);
        WalkFits(AppliedOne(m, ts[0]), fs, ts[1..], gen, cs);
      } else {
        CompareEqual(fs[0].key, ts[0].key);
        var rest := GenerateMembers(fs[1..], ts[1..], gen);
        var n := AppliedCommon(m, fs[0], ts[0], gen);
        FittingCommon(m, fs, ts, gen, cs);
        WalkFits(n, fs[1..], ts[1..], gen, cs);
        FitsJoin(m, fs[0], ts[0], rest, gen, cs);
      }
    }
  }

  lemma FitsNothing(m: map<string, Value>, cs: bool)
    ensures FitsMembers(m, [], cs)
  {
  }

  lemma FitsFirst(m: map<string, Value>, p: Member, rest: seq<Member>, cs: bool)
    ensures FitsMembers(m, [p] + rest, cs) <==> FitsOne(m, p, cs) && FitsMembers(AppliedOne(m, p), rest, cs)
  {
    hide FitsOne, AppliedOne;
    assert ([p] + rest)[1..] == rest;
  }

  lemma FitsJoin(m: map<string, Value>, f: Member, t: Member, rest: seq<Member>, gen: bool, cs: bool)
    requires FitsMembers(m, GenerateCommon(f, t, gen), cs) && FitsMembers(AppliedCommon(m, f, t, gen), rest, cs)
    ensures FitsMembers(m, GenerateCommon(f, t, gen) + rest, cs)
  {
    var g := GenerateCommon(f, t, gen);
    hide GenerateCommon, AppliedOne, FitsOne, FitsMembers;
    CommonShort(f, t, gen);
    if g == [] {
      assert g + rest == rest;
      assert AppliedCommon(m, f, t, gen) == m;
    } else {
      assert g == [g[0]] && [g[0]] + [] == [g[0]];
      FitsFirst(m, g[0], rest, cs);
      FitsFirst(m, g[0], [], cs);
      AppliedFirst(m, g[0], []);
    }
  }

  /** The keys of n are those of m, or the key of the member that was just passed. */
  lemma KeysToldStep(ms: seq<Member>, m: map<string, Value>, n: map<string, Value>, key: string, cs: bool)
    requires KeysTold(ms, m, cs) && (forall j :: 0 <= j < |ms| ==> Tells(ms[j].key, key, cs)) && forall k :: k in n ==> k in m || k == key
    ensures KeysTold(ms, n, cs)
  {
    hide Tells;
  }

  lemma KeysToldFewer(ms: seq<Member>, ns: seq<Member>, m: map<string, Value>, cs: bool)
    requires KeysTold(ms, m, cs) && forall x :: x in ns ==> x in ms
    ensures KeysTold(ns, m, cs)
  {
    hide Tells;
    forall i, k | 0 <= i < |ns| && k in m ensures Tells(ns[i].key, k, cs) { assert ns[i] in ms; }
  }

  /** The lists behind their first members. */
  lemma ClearListsTail(fs: seq<Member>, ts: seq<Member>, a: nat, b: nat, cs: bool)
    requires ClearLists(fs, ts, cs) && a <= 1 && b <= 1 && a <= |fs| && b <= |ts|
    ensures ClearLists(fs[a..], ts[b..], cs)
  {
    hide Clear, Meaning, MembersMeaning, Tells, Apart, ApartMembers;
    var f, t := MembersMeaning(fs), MembersMeaning(ts);
    assert fs[0..] == fs && ts[0..] == ts && f - {} == f && t - {} == t;
    if a == 1 { TailParts(fs); TailMembersClear(fs, cs); }
    if b == 1 { TailParts(ts); TailMembersClear(ts, cs); }
    ApartFewer(f, t, if a == 1 then {fs[0].key} else {}, if b == 1 then {ts[0].key} else {}, cs);
  }

  lemma TailMembersClear(ms: seq<Member>, cs: bool)
    requires ms != [] && ClearMembers(ms, cs)
    ensures ClearMembers(ms[1..], cs) && Clear(ms[0].value, cs)
    ensures forall j :: 0 <= j < |ms[1..]| ==> Tells(ms[1..][j].key, ms[0].key, cs) && ms[1..][j].key != ms[0].key
  {
    hide Clear, Tells;
  }

  /** The values at the heads of the lists. */
  lemma Heads(ms: seq<Member>, cs: bool)
    requires ms != [] && ClearList(ms) && ClearMembers(ms, cs)
    ensures Clear(ms[0].value, true) && Clear(ms[0].value, cs) && DistinctKeys(ms)
    ensures MembersMeaning(ms[1..]) == MembersMeaning(ms) - {ms[0].key}
    ensures ms[0].key in MembersMeaning(ms) && MembersMeaning(ms)[ms[0].key] == Meaning(ms[0].value)
    ensures forall j :: 0 <= j < |ms[1..]| ==> Tells(ms[1..][j].key, ms[0].key, cs) && ms[1..][j].key != ms[0].key
  {
    hide Clear, Meaning, MembersMeaning, Tells;
    TailParts(ms);
    TailMembersClear(ms, cs);
  }

  lemma FittingRemove(m: map<string, Value>, fs: seq<Member>, ts: seq<Member>, cs: bool)
    requires Fitting(m, fs, ts, cs) && fs != []
    ensures FitsOne(m, Member(fs[0].key, Null), cs) && Fitting(m - {fs[0].key}, fs[1..], ts, cs)
  {
    hide Clear, Meaning, MembersMeaning, Tells, Apart, ApartMembers, KeysTold, ClearLists, ClearList, ClearMembers, DistinctKeys, StillThere, FitsOne;
    var n := m - {fs[0].key};
    HeadTold(m, fs, cs);
    ListsParts(fs, ts, cs);
    ClearListsTail(fs, ts, 1, 0, cs);
    assert ts[0..] == ts;
    Heads(fs, cs);
    KeysToldFewer(fs, fs[1..], m, cs);
    KeysToldSub(fs[1..], m, n, cs);
    KeysToldSub(ts, m, n, cs);
    StillStep(m, n, MembersMeaning(fs), MembersMeaning(fs[1..]), ts, ts, fs[0].key);
    NullFits(m, fs[0].key, cs);
  }

  lemma HeadTold(m: map<string, Value>, ms: seq<Member>, cs: bool)
    requires ms != [] && KeysTold(ms, m, cs)
    ensures forall k :: k in m ==> Tells(ms[0].key, k, cs)
  {
    hide Tells;
  }

  lemma NullFits(m: map<string, Value>, key: string, cs: bool)
    requires forall k :: k in m ==> Tells(key, k, cs)
    ensures FitsOne(m, Member(key, Null), cs)
  {
    hide Tells;
  }

  lemma ListsParts(fs: seq<Member>, ts: seq<Member>, cs: bool)
    requires ClearLists(fs, ts, cs)
    ensures ClearList(fs) && ClearList(ts) && ClearMembers(fs, cs) && ClearMembers(ts, cs) && DistinctKeys(fs) && DistinctKeys(ts)
    ensures ApartMembers(MembersMeaning(fs), MembersMeaning(ts), cs)
  {
    hide Clear, Tells, Apart, ApartMembers;
  }

  lemma KeysToldSub(ms: seq<Member>, m: map<string, Value>, n: map<string, Value>, cs: bool)
    requires KeysTold(ms, m, cs) && forall k :: k in n ==> k in m
    ensures KeysTold(ms, n, cs)
  {
    hide Tells;
  }

  lemma FittingNew(m: map<string, Value>, n: map<string, Value>, fs: seq<Member>, ts: seq<Member>, cs: bool)
    requires Fitting(m, fs, ts, cs) && ts != [] && n == AppliedOne(m, ts[0])
    ensures FitsOne(m, ts[0], cs) && Fitting(n, fs, ts[1..], cs)
  {
    hide Clear, Meaning, MembersMeaning, Tells, Apart, ApartMembers, KeysTold, ClearLists, ClearList, ClearMembers, AppliedOne, FitsOne, DistinctKeys, StillThere, SameAt;
    var k := ts[0].key;
    ListsParts(fs, ts, cs);
    OneElsewhere(m, ts[0]);
    OneKeeps(m, ts[0]);
    ClearListsTail(fs, ts, 0, 1, cs);
    assert fs[0..] == fs;
    Heads(ts, cs);
    AllTellHead(fs, ts, cs);
    KeysToldFewer(ts, ts[1..], m, cs);
    KeysToldStep(fs, m, n, k, cs);
    KeysToldStep(ts[1..], m, n, k, cs);
    SameSelf(MembersMeaning(fs));
    StillStep(m, n, MembersMeaning(fs), MembersMeaning(fs), ts, ts[1..], k);
    NewFits(m, fs, ts, cs);
  }

  lemma SameSelf(f: map<string, Value>)
    ensures forall x :: SameAt(f, f, x)
  {
  }

  lemma AllTellHead(fs: seq<Member>, ts: seq<Member>, cs: bool)
    requires ts != [] && ClearLists(fs, ts, cs)
    ensures forall i :: 0 <= i < |fs| ==> Tells(fs[i].key, ts[0].key, cs)
  {
    hide Clear, Meaning, MembersMeaning, Tells, Apart, ApartMembers;
    Heads(ts, cs);
    forall i | 0 <= i < |fs| ensures Tells(fs[i].key, ts[0].key, cs) {
      MemberMeant(fs, i);
      ApartAt(MembersMeaning(fs), MembersMeaning(ts), fs[i].key, ts[0].key, cs);
    }
  }

  lemma OneKeeps(m: map<string, Value>, p: Member)
    ensures var n := AppliedOne(m, p); forall x :: x != p.key ==> SameAt(n, m, x)
  {
    hide Applied;
  }

  lemma NewFits(m: map<string, Value>, fs: seq<Member>, ts: seq<Member>, cs: bool)
    requires Fitting(m, fs, ts, cs) && ts != []
    ensures FitsOne(m, ts[0], cs)
  {
    var k := ts[0].key;
    assert KeysTold(ts, m, cs) && forall x :: x in m ==> Tells(k, x, cs);
    assert SameAt(m, MembersMeaning(fs), k);
    hide Clear, Meaning, MembersMeaning, Tells, Fits, KeysTold, StillThere, ClearList, ClearMembers, ApartMembers, Apart;
    Heads(ts, cs);
    if k in m {
      ApartAt(MembersMeaning(fs), MembersMeaning(ts), k, k, cs);
    }
    if !ts[0].value.Null? {
      NothingApart(Meaning(ts[0].value), cs);
      AppliedIsRfc(Under(m, k), ts[0].value, cs);
    }
  }

  lemma NothingApart(v: Value, cs: bool)
    ensures Apart(VNull, v, cs)
  {
  }

  lemma {:induction false} FittingCommon(m: map<string, Value>, fs: seq<Member>, ts: seq<Member>, gen: bool, cs: bool)
    requires Fitting(m, fs, ts, cs) && fs != [] && ts != [] && fs[0].key == ts[0].key
    ensures FitsMembers(m, GenerateCommon(fs[0], ts[0], gen), cs) && Fitting(AppliedCommon(m, fs[0], ts[0], gen), fs[1..], ts[1..], cs)
    decreases MembersNesting(fs), 0, 5
  {
    hide Clear, Meaning, MembersMeaning, Tells, Apart, Fitting, GenerateCommon, AppliedCommon, FitsMembers;
    FittingHeads(m, fs, ts, cs);
    CommonFits(m, fs[0], ts[0], gen, cs);
    FittingNext(m, AppliedCommon(m, fs[0], ts[0], gen), fs, ts, gen, cs);
  }

  /** What the common first members bring along. */
  lemma FittingHeads(m: map<string, Value>, fs: seq<Member>, ts: seq<Member>, cs: bool)
    requires Fitting(m, fs, ts, cs) && fs != [] && ts != [] && fs[0].key == ts[0].key
    ensures var f, t := fs[0], ts[0];
      && Clear(f.value, true) && Clear(t.value, true) && Clear(f.value, cs) && Clear(t.value, cs)
      && Apart(Meaning(f.value), Meaning(t.value), cs) && (forall k :: k in m ==> Tells(t.key, k, cs))
      && t.key in m && m[t.key] == Meaning(f.value)
  {
    var k := fs[0].key;
    hide Clear, Meaning, MembersMeaning, Tells, Apart, ApartMembers, KeysTold, ClearLists, ClearList, ClearMembers, DistinctKeys, StillThere;
    HeadTold(m, ts, cs);
    StillFirst(m, MembersMeaning(fs), ts);
    ListsParts(fs, ts, cs);
    Heads(fs, cs);
    Heads(ts, cs);
    ApartAt(MembersMeaning(fs), MembersMeaning(ts), k, k, cs);
  }

  lemma FittingNext(m: map<string, Value>, n: map<string, Value>, fs: seq<Member>, ts: seq<Member>, gen: bool, cs: bool)
    requires Fitting(m, fs, ts, cs) && fs != [] && ts != [] && fs[0].key == ts[0].key
    requires n == AppliedCommon(m, fs[0], ts[0], gen)
    ensures Fitting(n, fs[1..], ts[1..], cs)
  {
    var k := fs[0].key;
    hide Clear, Meaning, MembersMeaning, Tells, Apart, ApartMembers, KeysTold, ClearLists, ClearList, ClearMembers, DistinctKeys, GenerateCommon, AppliedCommon, StillThere, SameAt;
    ListsParts(fs, ts, cs);
    CommonElsewhere(m, fs[0], ts[0], gen);
    ClearListsTail(fs, ts, 1, 1, cs);
    Heads(fs, cs);
    Heads(ts, cs);
    KeysToldFewer(fs, fs[1..], m, cs);
    KeysToldFewer(ts, ts[1..], m, cs);
    KeysToldStep(fs[1..], m, n, k, cs);
    KeysToldStep(ts[1..], m, n, k, cs);
    SameWithout(MembersMeaning(fs), k);
    StillStep(m, n, MembersMeaning(fs), MembersMeaning(fs[1..]), ts, ts[1..], k);
  }

  lemma SameWithout(f: map<string, Value>, k: string)
    ensures forall x :: x != k ==> SameAt(f - {k}, f, x)
  {
  }

  lemma StillFirst(m: map<string, Value>, f: map<string, Value>, ms: seq<Member>)
    requires ms != [] && StillThere(m, f, ms)
    ensures SameAt(m, f, ms[0].key)
  {
  }

  lemma CommonElsewhere(m: map<string, Value>, f: Member, t: Member, gen: bool)
    requires f.key == t.key
    ensures var n := AppliedCommon(m, f, t, gen);
      (forall x :: x in n ==> x in m || x == t.key) && forall x :: x != t.key ==> SameAt(n, m, x)
  {
    var g := GenerateCommon(f, t, gen);
    hide GenerateCommon, AppliedOne, AppliedMembers;
    CommonShort(f, t, gen);
    if g == [] {
      AppliedNothing(m);
    } else {
      assert g == [g[0]] && [g[0]] + [] == [g[0]];
      AppliedFirst(m, g[0], []);
      AppliedNothing(AppliedOne(m, g[0]));
      OneElsewhere(m, g[0]);
      OneKeeps(m, g[0]);
    }
  }

  lemma AppliedNothing(m: map<string, Value>)
    ensures AppliedMembers(m, []) == m
  {
  }

  lemma OneElsewhere(m: map<string, Value>, p: Member)
    ensures forall x :: x in AppliedOne(m, p) ==> x in m || x == p.key
  {
    hide Applied;
  }

  lemma {:induction false} CommonFits(m: map<string, Value>, f: Member, t: Member, gen: bool, cs: bool)
    requires f.key == t.key && Clear(f.value, true) && Clear(t.value, true) && Clear(f.value, cs) && Clear(t.value, cs)
    requires Apart(Meaning(f.value), Meaning(t.value), cs) && (forall k :: k in m ==> Tells(t.key, k, cs))
    requires t.key in m && m[t.key] == Meaning(f.value)
    ensures FitsMembers(m, GenerateCommon(f, t, gen), cs)
    decreases Nesting(f.value), 0, 4
  {
    hide Clear, Meaning, Tells, Apart, CompareJson, AfterCompare, GenerateMerge, Fits, FitsMembers, AppliedOne;
    FitsNothing(m, cs);
    if !CompareJson(f.value, t.value, gen) {
      AfterAlike(f.value, t.value, gen);
      AfterNesting(f.value, t.value, gen);
      var r := AfterCompare(f.value, t.value, gen);
      GeneratedFits(r.0, r.1, false, cs);
      var p := GenerateMerge(r.0, r.1, false);
      if p.Some? {
        var g := Member(t.key, p.value);
        assert [g] + [] == [g];
        FitsFirst(m, g, [], cs);
        FitsNothing(AppliedOne(m, g), cs);
      }
    }
  }

  /**
   Generating a merge patch from `from` to `to` and merging it into any tree that equals `from` up
   to member order gives `to` up to member order exactly when the walk reaches `to`.
   */
  lemma {:induction false} GenerateThenMergeExact(doc: Json, from: Json, to: Json, cs: bool)
    requires Clear(doc, cs) && Clear(from, cs) && Clear(to, cs) && (cs || Apart(Meaning(from), Meaning(to), false))
    requires Meaning(doc) == Meaning(from)
    ensures Meaning(Merged(doc, GenerateMerge(from, to, cs), cs)) == Meaning(to) <==> Reaches(from, to, cs)
  {
    hide GenerateMerge, MergePatch, Meaning, Clear, Apart, Reaches, Applied, Fits;
    ClearParted(from, cs);
    ClearParted(to, cs);
    if cs { ApartExactly(Meaning(from), Meaning(to)); }
    GeneratedExact(from, to, cs);
    GeneratedFits(from, to, cs, cs);
    var p := GenerateMerge(from, to, cs);
    if p.Some? { MergeApplies(Some(doc), p.value, cs); }
  }
}
