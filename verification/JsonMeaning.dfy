/**
 What a tree means when the order of an object's members does not count: objects are maps.
 Two trees with distinct sibling keys are equal up to member order when they mean the same.
 */
module JsonMeaning {
  import opened Json
  import opened JsonTree

  datatype Value =
    | VNull
    | VBool(b: bool)
    | VInt(n: int)
    | VString(s: string)
    | VArray(items: seq<Value>)
    | VObject(members: map<string, Value>)

  ghost function Meaning(v: Json): Value
    decreases v
  {
    match v
    case Null => VNull
    case Bool(b) => VBool(b)
    case Int(n) => VInt(n)
    case String(s) => VString(s)
    case Array(items) => VArray(ItemsMeaning(items))
    case Object(ms) => VObject(MembersMeaning(ms))
  }

  ghost function ItemsMeaning(items: seq<Json>): (r: seq<Value>)
    ensures |r| == |items| && forall i :: 0 <= i < |items| ==> r[i] == Meaning(items[i])
    decreases items
  {
    if items == [] then [] else [Meaning(items[0])] + ItemsMeaning(items[1..])
  }

  predicate HasKey(ms: seq<Member>, key: string)
  {
    exists i :: 0 <= i < |ms| && ms[i].key == key
  }

  ghost function MembersMeaning(ms: seq<Member>): (r: map<string, Value>)
    ensures forall k :: k in r <==> HasKey(ms, k)
    ensures DistinctKeys(ms) ==> forall i :: 0 <= i < |ms| ==> ms[i].key in r && r[ms[i].key] == Meaning(ms[i].value)
    decreases ms
  {
    if ms == [] then map[]
    else
      var front, last := ms[..|ms| - 1], ms[|ms| - 1];
      var m := MembersMeaning(front);
      assert forall k :: HasKey(ms, k) <==> HasKey(front, k) || k == last.key by {
        forall k ensures HasKey(ms, k) <==> HasKey(front, k) || k == last.key { HasKeySplit(ms, k); }
      }
      m[last.key := Meaning(last.value)]
  }

  lemma HasKeySplit(ms: seq<Member>, k: string)
    requires ms != []
    ensures HasKey(ms, k) <==> HasKey(ms[..|ms| - 1], k) || k == ms[|ms| - 1].key
  {
    var front := ms[..|ms| - 1];
    if HasKey(front, k) {
      var i :| 0 <= i < |front| && front[i].key == k;
      assert ms[i].key == k;
    }
    if HasKey(ms, k) {
      var i :| 0 <= i < |ms| && ms[i].key == k;
      assert i < |front| ==> front[i].key == k;
    }
  }

  /** A map with the right keys and values is the meaning. */
  lemma MeaningIs(ms: seq<Member>, m: map<string, Value>)
    requires DistinctKeys(ms)
    requires forall i :: 0 <= i < |ms| ==> ms[i].key in m && m[ms[i].key] == Meaning(ms[i].value)
    requires forall k :: k in m ==> HasKey(ms, k)
    ensures MembersMeaning(ms) == m
  {
    var r := MembersMeaning(ms);
    forall k | k in r || k in m ensures k in r && k in m && r[k] == m[k] {
      assert HasKey(ms, k);
      var i :| 0 <= i < |ms| && ms[i].key == k;
    }
  }

  lemma MeaningPermuted(ms: seq<Member>, ns: seq<Member>)
    requires DistinctKeys(ms) && multiset(ms) == multiset(ns)
    ensures MembersMeaning(ns) == MembersMeaning(ms)
  {
    PermutedKeys(ms, ns);
    forall i | 0 <= i < |ns| ensures ns[i].key in MembersMeaning(ms) && MembersMeaning(ms)[ns[i].key] == Meaning(ns[i].value) {
      var j :| 0 <= j < |ms| && ms[j] == ns[i];
    }
    forall k | k in MembersMeaning(ms) ensures HasKey(ns, k) {
      var j :| 0 <= j < |ms| && ms[j].key == k;
      var i :| 0 <= i < |ns| && ns[i] == ms[j];
      assert ns[i].key == k;
    }
    MeaningIs(ns, MembersMeaning(ms));
  }

  lemma RemoveDistinct(ms: seq<Member>, i: nat)
    requires DistinctKeys(ms) && i < |ms|
    ensures DistinctKeys(RemoveAt(ms, i))
  {
    var ns := RemoveAt(ms, i);
    forall a, b | 0 <= a < b < |ns| ensures ns[a].key != ns[b].key {
      var c, d := if a < i then a else a + 1, if b < i then b else b + 1;
      assert ns[a] == ms[c] && ns[b] == ms[d];
    }
  }

  lemma DistinctAt(ms: seq<Member>, i: nat, j: nat)
    requires DistinctKeys(ms) && i < |ms| && j < |ms| && i != j
    ensures ms[i].key != ms[j].key
  {
  }

  lemma KeptKey(ms: seq<Member>, i: nat, k: string)
    requires i < |ms| && HasKey(ms, k) && k != ms[i].key
    ensures HasKey(RemoveAt(ms, i), k)
  {
    var j :| 0 <= j < |ms| && ms[j].key == k;
    var ns := RemoveAt(ms, i);
    var l := if j < i then j else j - 1;
    assert ns[l] == ms[j];
  }

  lemma KeptMember(ms: seq<Member>, i: nat, k: nat)
    requires DistinctKeys(ms) && i < |ms| && k < |ms| - 1
    ensures var x := RemoveAt(ms, i)[k];
      x.key != ms[i].key && x.key in MembersMeaning(ms) && MembersMeaning(ms)[x.key] == Meaning(x.value)
  {
    var j := if k < i then k else k + 1;
    assert RemoveAt(ms, i)[k] == ms[j];
    DistinctAt(ms, i, j);
  }

  lemma MeaningRemove(ms: seq<Member>, i: nat)
    requires DistinctKeys(ms) && i < |ms|
    ensures DistinctKeys(RemoveAt(ms, i))
    ensures MembersMeaning(RemoveAt(ms, i)) == MembersMeaning(ms) - {ms[i].key}
  {
    hide RemoveAt, DistinctKeys, MembersMeaning, HasKey, Meaning;
    var ns := RemoveAt(ms, i);
    RemoveDistinct(ms, i);
    var m := MembersMeaning(ms) - {ms[i].key};
    forall k | 0 <= k < |ns| ensures ns[k].key in m && m[ns[k].key] == Meaning(ns[k].value) { KeptMember(ms, i, k); }
    forall k | k in m ensures HasKey(ns, k) { KeptKey(ms, i, k); }
    MeaningIs(ns, m);
  }

  lemma MeaningAppend(ms: seq<Member>, key: string, v: Json)
    requires DistinctKeys(ms) && !HasKey(ms, key)
    ensures DistinctKeys(ms + [Member(key, v)])
    ensures MembersMeaning(ms + [Member(key, v)]) == MembersMeaning(ms)[key := Meaning(v)]
  {
    var ns := ms + [Member(key, v)];
    assert ns[..|ns| - 1] == ms;
    forall i | 0 <= i < |ms| ensures ms[i].key != key { assert ms[i].key == key ==> HasKey(ms, key); }
  }

  lemma MeaningUpdate(ms: seq<Member>, i: nat, v: Json)
    requires DistinctKeys(ms) && i < |ms|
    ensures DistinctKeys(ms[i := Member(ms[i].key, v)])
    ensures MembersMeaning(ms[i := Member(ms[i].key, v)]) == MembersMeaning(ms)[ms[i].key := Meaning(v)]
  {
    var ns := ms[i := Member(ms[i].key, v)];
    var m := MembersMeaning(ms)[ms[i].key := Meaning(v)];
    forall k | k in m ensures HasKey(ns, k) {
      if k == ms[i].key {
        assert ns[i].key == k;
      } else {
        assert HasKey(ms, k);
        var j :| 0 <= j < |ms| && ms[j].key == k;
        assert ns[j].key == k;
      }
    }
    MeaningIs(ns, m);
  }
}
