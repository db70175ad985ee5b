/**
 Keys, lookups and the order of members, and what a tree means when the order of an object's
 members does not count.
 */
module JsonTree {
  import opened Json

  datatype Option<+T> = None | Some(value: T)

  // ---- keys ----

  function ToLower(c: char): char
  {
    if 'A' <= c <= 'Z' then (c as int + 32) as char else c
  }

  function Fold(c: char, caseSensitive: bool): char
  {
    if caseSensitive then c else ToLower(c)
  }

  /** The sign of compare_strings: byte-wise, with or without regard to case. */
  function Compare(a: string, b: string, cs: bool): int
  {
    if a == "" then (if b == "" then 0 else -1)
    else if b == "" then 1
    else if Fold(a[0], cs) == Fold(b[0], cs) then Compare(a[1..], b[1..], cs)
    else if Fold(a[0], cs) < Fold(b[0], cs) then -1
    else 1
  }

  /** The comparison tells the two keys apart, if they differ. */
  predicate Tells(a: string, b: string, cs: bool)
  {
    Compare(a, b, cs) == 0 ==> a == b
  }

  lemma {:induction false} CompareEqual(a: string, b: string)
    ensures Compare(a, b, true) == 0 <==> a == b
  {
    if a != "" && b != "" {
      CompareEqual(a[1..], b[1..]);
      assert a == [a[0]] + a[1..] && b == [b[0]] + b[1..];
    }
  }

  lemma {:induction false} CompareSame(a: string, cs: bool)
    ensures Compare(a, a, cs) == 0
  {
    if a != "" { CompareSame(a[1..], cs); }
  }

  lemma EqualKeys(a: string, b: string, cs: bool)
    requires Tells(a, b, cs)
    ensures Compare(a, b, cs) == 0 <==> a == b
  {
    CompareSame(a, cs);
  }

  /** Keys compare equal when they have the same length and the same characters up to case. */
  lemma {:induction false} CompareChars(a: string, b: string, cs: bool)
    ensures Compare(a, b, cs) == 0 <==> |a| == |b| && forall i :: 0 <= i < |a| ==> Fold(a[i], cs) == Fold(b[i], cs)
  {
    if a != "" && b != "" {
      CompareChars(a[1..], b[1..], cs);
      assert forall i :: 1 <= i < |a| ==> a[i] == a[1..][i - 1];
      assert forall i :: 1 <= i < |b| ==> b[i] == b[1..][i - 1];
    }
  }

  /** The same letter in the other case. */
  predicate OtherCase(c: char, d: char)
  {
    ('A' <= c <= 'Z' && d as int == c as int + 32) || ('A' <= d <= 'Z' && c as int == d as int + 32)
  }

  /** Folding makes two characters equal exactly when they are the same or the same ASCII letter. */
  lemma FoldExact(c: char, d: char, cs: bool)
    ensures Fold(c, cs) == Fold(d, cs) <==> c == d || (!cs && OtherCase(c, d))
  {
  }

  /** The first n characters agree, and then a ends before b does or has the smaller character. */
  predicate Before(a: string, b: string, n: nat, cs: bool)
  {
    && n <= |a| && n < |b| && (forall i :: 0 <= i < n ==> Fold(a[i], cs) == Fold(b[i], cs))
    && (n == |a| || Fold(a[n], cs) < Fold(b[n], cs))
  }

  /** One key is less than another where the first difference says so, or where it is a proper prefix. */
  lemma {:induction false} CompareFirst(a: string, b: string, cs: bool)
    ensures Compare(a, b, cs) < 0 <==> exists n: nat :: Before(a, b, n, cs)
  {
    if a == "" || b == "" || Fold(a[0], cs) != Fold(b[0], cs) {
      if Compare(a, b, cs) < 0 { assert Before(a, b, 0, cs); }
    } else {
      CompareFirst(a[1..], b[1..], cs);
      if n: nat :| Before(a[1..], b[1..], n, cs) {
        forall i | 0 <= i < n + 1 ensures Fold(a[i], cs) == Fold(b[i], cs) {
          if i > 0 { assert a[i] == a[1..][i - 1] && b[i] == b[1..][i - 1]; }
        }
        assert n < |a[1..]| ==> a[n + 1] == a[1..][n];
        assert b[n + 1] == b[1..][n];
        assert Before(a, b, n + 1, cs);
      }
      if n: nat :| Before(a, b, n, cs) {
        assert n > 0;
        assert forall i :: 0 <= i < |a| - 1 ==> a[1..][i] == a[i + 1];
        assert Before(a[1..], b[1..], n - 1, cs);
      }
    }
  }

  /** Keys that differ even ignoring case are told apart in both modes. */
  lemma TellsEither(a: string, b: string, cs: bool)
    requires cs || Tells(a, b, false)
    ensures Tells(a, b, cs)
  {
    CompareEqual(a, b);
  }

  lemma {:induction false} CompareFlip(a: string, b: string, cs: bool)
    ensures Compare(a, b, cs) == -Compare(b, a, cs)
  {
    if a != "" && b != "" { CompareFlip(a[1..], b[1..], cs); }
  }

  lemma TellsFlip(a: string, b: string, cs: bool)
    requires Tells(a, b, cs) || a == b
    ensures Tells(b, a, cs)
  {
    CompareFlip(a, b, cs);
  }

  lemma {:induction false} CompareTrans(a: string, b: string, c: string, cs: bool)
    requires Compare(a, b, cs) <= 0 && Compare(b, c, cs) <= 0
    ensures Compare(a, c, cs) <= 0
    ensures Compare(a, b, cs) < 0 || Compare(b, c, cs) < 0 ==> Compare(a, c, cs) < 0
  {
    if a != "" && b != "" && c != "" {
      if Fold(a[0], cs) == Fold(b[0], cs) && Fold(b[0], cs) == Fold(c[0], cs) {
        CompareTrans(a[1..], b[1..], c[1..], cs);
      }
    }
  }

  // ---- lookups ----

  predicate DistinctKeys(ms: seq<Member>)
  {
    forall i, j :: 0 <= i < j < |ms| ==> ms[i].key != ms[j].key
  }

  /** get_object_item: index of the first member with this name, or the number of members. */
  function IndexOf(ms: seq<Member>, key: string, cs: bool): (i: nat)
    ensures i <= |ms| && (i < |ms| ==> Compare(key, ms[i].key, cs) == 0)
    ensures forall j :: 0 <= j < i ==> Compare(key, ms[j].key, cs) != 0
  {
    if ms == [] then 0
    else if Compare(key, ms[0].key, cs) == 0 then 0
    else
      var k := IndexOf(ms[1..], key, cs);
      assert forall j :: 1 <= j < k + 1 ==> ms[j] == ms[1..][j - 1];
      k + 1
  }

  function RemoveAt<T>(s: seq<T>, i: nat): (r: seq<T>)
    requires i < |s|
    ensures |r| == |s| - 1
    ensures forall k :: 0 <= k < |r| ==> r[k] == if k < i then s[k] else s[k + 1]
  {
    s[..i] + s[i + 1..]
  }

  function InsertAt<T>(s: seq<T>, i: nat, x: T): (r: seq<T>)
    requires i <= |s|
    ensures |r| == |s| + 1
  {
    s[..i] + [x] + s[i..]
  }

  /** A key that is told apart from the others is found where an equal key is. */
  lemma IndexOfKey(ms: seq<Member>, key: string, cs: bool)
    requires forall i :: 0 <= i < |ms| ==> Tells(key, ms[i].key, cs)
    ensures IndexOf(ms, key, cs) < |ms| <==> exists i :: 0 <= i < |ms| && ms[i].key == key
    ensures IndexOf(ms, key, cs) < |ms| ==> ms[IndexOf(ms, key, cs)].key == key
  {
    forall i | 0 <= i < |ms| ensures Compare(key, ms[i].key, cs) == 0 <==> key == ms[i].key {
      EqualKeys(key, ms[i].key, cs);
    }
  }

  // ---- sorting ----

  predicate Ascending(ms: seq<Member>, cs: bool)
  {
    forall i, j :: 0 <= i < j < |ms| ==> Compare(ms[i].key, ms[j].key, cs) < 0
  }

  function Merge(a: seq<Member>, b: seq<Member>, cs: bool): seq<Member>
  {
    if a == [] then b
    else if b == [] then a
    else if Compare(a[0].key, b[0].key, cs) < 0 then [a[0]] + Merge(a[1..], b, cs)
    else [b[0]] + Merge(a, b[1..], cs)
  }

  /** The order sort_object leaves the members in. */
  function SortMembers(ms: seq<Member>, cs: bool): seq<Member>
    decreases |ms|
  {
    if |ms| <= 1 || Ascending(ms, cs) then ms
    else
      var mid := (|ms| + 1) / 2;
      Merge(SortMembers(ms[..mid], cs), SortMembers(ms[mid..], cs), cs)
  }

  lemma {:induction false} MergeKeeps(a: seq<Member>, b: seq<Member>, cs: bool)
    ensures multiset(Merge(a, b, cs)) == multiset(a) + multiset(b)
  {
    hide Compare;
    if a != [] && b != [] {
      if Compare(a[0].key, b[0].key, cs) < 0 {
        MergeKeeps(a[1..], b, cs);
        Counted(a[0], a[1..]);
        Counted(a[0], Merge(a[1..], b, cs));
        assert a == [a[0]] + a[1..];
      } else {
        MergeKeeps(a, b[1..], cs);
        Counted(b[0], b[1..]);
        Counted(b[0], Merge(a, b[1..], cs));
        assert b == [b[0]] + b[1..];
      }
    }
  }

  lemma Counted(x: Member, s: seq<Member>)
    ensures multiset([x] + s) == multiset{x} + multiset(s)
  {
  }

  lemma SameLength(s: seq<Member>, t: seq<Member>)
    requires multiset(s) == multiset(t)
    ensures |s| == |t|
  {
    assert |multiset(s)| == |s| && |multiset(t)| == |t|;
  }

  lemma {:induction false} SortKeeps(ms: seq<Member>, cs: bool)
    ensures multiset(SortMembers(ms, cs)) == multiset(ms) && |SortMembers(ms, cs)| == |ms|
    decreases |ms|
  {
    if !(|ms| <= 1 || Ascending(ms, cs)) {
      hide Merge, Ascending;
      var mid := (|ms| + 1) / 2;
      var a, b := ms[..mid], ms[mid..];
      SortKeeps(a, cs);
      SortKeeps(b, cs);
      MergeKeeps(SortMembers(a, cs), SortMembers(b, cs), cs);
      Joined(ms, mid);
    }
    SameLength(SortMembers(ms, cs), ms);
  }

  lemma Joined(ms: seq<Member>, mid: nat)
    requires mid <= |ms|
    ensures multiset(ms) == multiset(ms[..mid]) + multiset(ms[mid..])
  {
    assert ms == ms[..mid] + ms[mid..];
  }

  predicate NonDescending(ms: seq<Member>, cs: bool)
  {
    forall i, j :: 0 <= i < j < |ms| ==> Compare(ms[i].key, ms[j].key, cs) <= 0
  }

  predicate Below(key: string, ms: seq<Member>, cs: bool)
  {
    forall i :: 0 <= i < |ms| ==> Compare(key, ms[i].key, cs) <= 0
  }

  lemma {:induction false} MergeBelow(key: string, a: seq<Member>, b: seq<Member>, cs: bool)
    requires Below(key, a, cs) && Below(key, b, cs)
    ensures Below(key, Merge(a, b, cs), cs)
  {
    if a != [] && b != [] {
      if Compare(a[0].key, b[0].key, cs) < 0 {
        MergeBelow(key, a[1..], b, cs);
      } else {
        MergeBelow(key, a, b[1..], cs);
      }
    }
  }

  lemma {:induction false} MergeSorted(a: seq<Member>, b: seq<Member>, cs: bool)
    requires NonDescending(a, cs) && NonDescending(b, cs)
    ensures NonDescending(Merge(a, b, cs), cs)
  {
    if a != [] && b != [] {
      CompareFlip(a[0].key, b[0].key, cs);
      if Compare(a[0].key, b[0].key, cs) < 0 {
        MergeSorted(a[1..], b, cs);
        forall i | 0 <= i < |b| ensures Compare(a[0].key, b[i].key, cs) <= 0 {
          if i > 0 { CompareTrans(a[0].key, b[0].key, b[i].key, cs); }
        }
        MergeBelow(a[0].key, a[1..], b, cs);
      } else {
        MergeSorted(a, b[1..], cs);
        forall i | 0 <= i < |a| ensures Compare(b[0].key, a[i].key, cs) <= 0 {
          if i > 0 { CompareTrans(b[0].key, a[0].key, a[i].key, cs); }
        }
        MergeBelow(b[0].key, a, b[1..], cs);
      }
    }
  }

  lemma {:induction false} SortSorts(ms: seq<Member>, cs: bool)
    ensures NonDescending(SortMembers(ms, cs), cs)
    decreases |ms|
  {
    if !(|ms| <= 1 || Ascending(ms, cs)) {
      var mid := (|ms| + 1) / 2;
      SortSorts(ms[..mid], cs);
      SortSorts(ms[mid..], cs);
      MergeSorted(SortMembers(ms[..mid], cs), SortMembers(ms[mid..], cs), cs);
    }
  }

  /** Keys are pairwise different, also for the comparison. */
  predicate Told(ms: seq<Member>, cs: bool)
  {
    DistinctKeys(ms) && forall i, j :: 0 <= i < |ms| && 0 <= j < |ms| ==> Tells(ms[i].key, ms[j].key, cs)
  }

  /** With regard to case, keys are told apart exactly when they are distinct. */
  lemma ToldExactly(ms: seq<Member>)
    ensures Told(ms, true) <==> DistinctKeys(ms)
  {
    forall i, j | 0 <= i < |ms| && 0 <= j < |ms| ensures Tells(ms[i].key, ms[j].key, true) {
      CompareEqual(ms[i].key, ms[j].key);
    }
  }

  lemma {:induction false} PermutedKeys(ms: seq<Member>, ns: seq<Member>)
    requires multiset(ms) == multiset(ns) && DistinctKeys(ms)
    ensures DistinctKeys(ns)
    ensures forall i :: 0 <= i < |ns| ==> ns[i] in ms
    ensures forall i :: 0 <= i < |ms| ==> ms[i] in ns
  {
    forall i | 0 <= i < |ns| ensures ns[i] in ms { assert ns[i] in multiset(ns); }
    forall i | 0 <= i < |ms| ensures ms[i] in ns { assert ms[i] in multiset(ms); }
    forall i, j | 0 <= i < j < |ns| ensures ns[i].key != ns[j].key {
      if ns[i].key == ns[j].key {
        SameMember(ms, ns[i], ns[j]);
        TwiceCounts(ns, i, j);
        OnceCounts(ms, ns[i]);
        assert false;
      }
    }
  }

  lemma SameMember(ms: seq<Member>, x: Member, y: Member)
    requires DistinctKeys(ms) && x in ms && y in ms && x.key == y.key
    ensures x == y
  {
  }

  lemma TwiceCounts(s: seq<Member>, i: nat, j: nat)
    requires i < j < |s| && s[i] == s[j]
    ensures multiset(s)[s[i]] >= 2
  {
    var a, b := s[..j], s[j..];
    assert s == a + b && a[i] == s[i] && b[0] == s[i];
    assert s[i] in multiset(a) && s[i] in multiset(b);
  }

  lemma {:induction false} OnceCounts(s: seq<Member>, x: Member)
    requires DistinctKeys(s)
    ensures multiset(s)[x] <= 1
  {
    if s != [] {
      OnceCounts(s[1..], x);
      assert s == [s[0]] + s[1..];
      if x == s[0] {
        assert x !in s[1..];
        assert multiset(s[1..])[x] == 0;
      }
    }
  }

  /** Sorting distinct keys puts them into strictly ascending order. */
  lemma {:induction false} SortAscends(ms: seq<Member>, cs: bool)
    requires Told(ms, cs)
    ensures var ns := SortMembers(ms, cs); Told(ns, cs) && Ascending(ns, cs) && multiset(ns) == multiset(ms)
  {
    hide SortMembers;
    var ns := SortMembers(ms, cs);
    SortKeeps(ms, cs);
    SortSorts(ms, cs);
    PermutedKeys(ms, ns);
    forall i, j | 0 <= i < |ns| && 0 <= j < |ns| ensures Tells(ns[i].key, ns[j].key, cs) {
      var a: nat :| a < |ms| && ms[a] == ns[i];
      var b: nat :| b < |ms| && ms[b] == ns[j];
    }
    forall i, j | 0 <= i < j < |ns| ensures Compare(ns[i].key, ns[j].key, cs) < 0 {
      EqualKeys(ns[i].key, ns[j].key, cs);
    }
  }

  /** Strictly ascending lists with the same members are the same. */
  lemma {:induction false} AscendingUnique(a: seq<Member>, b: seq<Member>, cs: bool)
    requires Ascending(a, cs) && Ascending(b, cs) && forall x :: x in a <==> x in b
    ensures a == b
    decreases |a|
  {
    assert (a != [] ==> a[0] in a) && (b != [] ==> b[0] in b);
    if a != [] {
      FirstSame(a, b, cs);
      TailMembers(a, cs);
      TailMembers(b, cs);
      AscendingUnique(a[1..], b[1..], cs);
      assert a == [a[0]] + a[1..] && b == [b[0]] + b[1..];
    }
  }

  lemma FirstSame(a: seq<Member>, b: seq<Member>, cs: bool)
    requires a != [] && b != [] && Ascending(a, cs) && Ascending(b, cs) && forall x :: x in a <==> x in b
    ensures a[0] == b[0]
  {
    assert a[0] in b && b[0] in a;
    var i: nat :| i < |a| && a[i] == b[0];
    var j: nat :| j < |b| && b[j] == a[0];
    CompareFlip(a[0].key, b[0].key, cs);
  }

  lemma TailMembers(a: seq<Member>, cs: bool)
    requires a != [] && Ascending(a, cs)
    ensures Ascending(a[1..], cs) && forall x :: x in a[1..] <==> x in a && x != a[0]
  {
    CompareSame(a[0].key, cs);
    forall x ensures x in a[1..] <==> x in a && x != a[0] {
      if x in a[1..] {
        var i: nat :| i < |a[1..]| && a[1..][i] == x;
        assert a[i + 1] == x;
      }
      if x in a && x != a[0] {
        var i: nat :| i < |a| && a[i] == x;
        assert a[1..][i - 1] == x;
      }
    }
  }
}
