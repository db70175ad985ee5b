/**
 Trees whose object keys all come from a given set, for statements that hold exactly for certain
 sets of keys.
 */
module JsonKeys {
  import opened Json
  import opened JsonTree
  import opened JsonMeaning
  import opened JsonCompare

  /** All keys in the tree are among these. */
  ghost predicate Over(v: Json, ks: iset<string>)
    decreases v
  {
    match v
    case Array(items) => forall i :: 0 <= i < |items| ==> Over(items[i], ks)
    case Object(ms) => forall i :: 0 <= i < |ms| ==> ms[i].key in ks && Over(ms[i].value, ks)
    case _ => true
  }

  /** No two of the keys differ in case only. */
  ghost predicate ToldSet(ks: iset<string>)
  {
    forall k, l :: k in ks && l in ks ==> Tells(k, l, false)
  }

  lemma SetTells(k: string, l: string, ks: iset<string>)
    requires ToldSet(ks) && k in ks && l in ks
    ensures Tells(k, l, false)
  {
  }

  lemma {:induction false} OverClear(v: Json, ks: iset<string>)
    requires Over(v, ks) && Clear(v, true) && ToldSet(ks)
    ensures Clear(v, false)
    decreases v
  {
    hide Tells, ToldSet;
    if v.Array? {
      forall i | 0 <= i < |v.items| ensures Clear(v.items[i], false) { OverClear(v.items[i], ks); }
    } else if v.Object? {
      var ms := v.members;
      forall i, j | 0 <= i < |ms| && 0 <= j < |ms| ensures Tells(ms[i].key, ms[j].key, false) {
        SetTells(ms[i].key, ms[j].key, ks);
      }
      forall i | 0 <= i < |ms| ensures Clear(ms[i].value, false) { OverClear(ms[i].value, ks); }
    }
  }

  /** A member of the meaning is one of the list. */
  lemma MemberBehind(ms: seq<Member>, k: string) returns (i: nat)
    requires k in MembersMeaning(ms) && DistinctKeys(ms)
    ensures i < |ms| && ms[i].key == k && Meaning(ms[i].value) == MembersMeaning(ms)[k]
  {
    hide Meaning, MembersMeaning;
    MeantMember(ms, k);
    i :| 0 <= i < |ms| && ms[i].key == k;
    MemberMeant(ms, i);
  }

  lemma {:induction false} OverApart(a: Json, b: Json, ks: iset<string>)
    requires Over(a, ks) && Over(b, ks) && Clear(a, true) && Clear(b, true) && ToldSet(ks)
    ensures Apart(Meaning(a), Meaning(b), false)
    decreases a
  {
    hide Tells, ToldSet, MembersMeaning;
    if a.Array? && b.Array? {
      forall i | 0 <= i < |a.items| && i < |b.items| ensures Apart(Meaning(a.items[i]), Meaning(b.items[i]), false) {
        OverApart(a.items[i], b.items[i], ks);
      }
    } else if a.Object? && b.Object? {
      var m, n := MembersMeaning(a.members), MembersMeaning(b.members);
      forall k, l | k in m && l in n ensures Tells(k, l, false) && (k == l ==> Apart(m[k], n[l], false)) {
        var i := MemberBehind(a.members, k);
        var j := MemberBehind(b.members, l);
        SetTells(k, l, ks);
        OverApart(a.members[i].value, b.members[j].value, ks);
      }
    }
  }
}
