/**
 sort_object: sorting the children of an item on the heap leaves the same trees, and the members
 they hold in the order of SortMembers, which the comparison, the patches and the merge patches
 rest on.
 */
module JsonSort {
  import opened Json
  import opened JsonTree
  import opened JsonList
  import opened JsonHeap

  predicate SameTrees(ts: seq<Tree>, us: seq<Tree>)
  {
    |ts| == |us| && (forall i :: 0 <= i < |ts| ==> ts[i] in us) && (forall i :: 0 <= i < |us| ==> us[i] in ts)
  }

  // ---- trees in another order ----

  lemma {:induction false} NodeOf(ts: seq<Tree>, x: Item)
    ensures x in KidsNodes(ts) <==> exists i :: 0 <= i < |ts| && x in Nodes(ts[i])
  {
    hide Nodes;
    if ts != [] {
      NodeOf(ts[1..], x);
      assert forall i :: 1 <= i < |ts| ==> ts[i] == ts[1..][i - 1];
      if x in KidsNodes(ts[1..]) {
        var i :| 0 <= i < |ts[1..]| && x in Nodes(ts[1..][i]);
        assert x in Nodes(ts[i + 1]);
      }
    }
  }

  /** Disjoint trees: each is a tree and no two share an item. */
  lemma {:induction false} TreesApart(ts: seq<Tree>, rings: bool)
    requires AreTrees(ts, rings)
    ensures forall i :: 0 <= i < |ts| ==> IsTree(ts[i], rings)
    ensures forall i, j :: 0 <= i < j < |ts| ==> Nodes(ts[i]) !! Nodes(ts[j])
  {
    hide IsTree, Nodes;
    if ts != [] {
      TreesApart(ts[1..], rings);
      assert forall i :: 1 <= i < |ts| ==> ts[i] == ts[1..][i - 1];
      forall j | 1 <= j < |ts| ensures Nodes(ts[0]) !! Nodes(ts[j]) {
        forall x | x in Nodes(ts[j]) ensures x !in Nodes(ts[0]) {
          assert x in Nodes(ts[1..][j - 1]);
          NodeOf(ts[1..], x);
        }
      }
    }
  }

  lemma {:induction false} ApartTrees(ts: seq<Tree>, rings: bool)
    requires forall i :: 0 <= i < |ts| ==> IsTree(ts[i], rings)
    requires forall i, j :: 0 <= i < j < |ts| ==> Nodes(ts[i]) !! Nodes(ts[j])
    ensures AreTrees(ts, rings)
  {
    hide IsTree, Nodes;
    if ts != [] {
      assert forall i :: 1 <= i < |ts| ==> ts[i] == ts[1..][i - 1];
      ApartTrees(ts[1..], rings);
      forall x | x in KidsNodes(ts[1..]) ensures x !in Nodes(ts[0]) {
        NodeOf(ts[1..], x);
        var i :| 0 <= i < |ts[1..]| && x in Nodes(ts[1..][i]);
        assert ts[i + 1] == ts[1..][i];
      }
    }
  }

  /** The tree with this root. */
  ghost function TreeAt(ts: seq<Tree>, item: Item): (t: Tree)
    requires item in Roots(ts)
    ensures t in ts && t.item == item
  {
    var i :| 0 <= i < |ts| && ts[i].item == item;
    ts[i]
  }

  ghost function Rearranged(ts: seq<Tree>, r: seq<Item>): (us: seq<Tree>)
    requires forall x :: x in r ==> x in Roots(ts)
    ensures |us| == |r| && forall i :: 0 <= i < |r| ==> us[i] in ts && us[i].item == r[i]
  {
    seq(|r|, i requires 0 <= i < |r| => assert r[i] in r; TreeAt(ts, r[i]))
  }

  /** Putting the roots of disjoint trees into another order keeps the trees. */
  lemma RearrangedKeeps(ts: seq<Tree>, r: seq<Item>)
    requires AreTrees(ts, false) && multiset(r) == multiset(Roots(ts)) && Distinct(r)
    ensures forall x :: x in r ==> x in Roots(ts)
    ensures var us := Rearranged(ts, r); SameTrees(ts, us) && AreTrees(us, false) && Roots(us) == r
    ensures KidsNodes(Rearranged(ts, r)) == KidsNodes(ts)
  {
    hide IsTree, Nodes, AreTrees, KidsNodes;
    SameItems(r, Roots(ts));
    RootsApart(ts, false);
    var us := Rearranged(ts, r);
    hide Rearranged;
    forall i | 0 <= i < |ts| ensures ts[i] in us {
      var t := ts[i];
      assert Roots(ts)[i] == t.item && t.item in r;
      var j :| 0 <= j < |r| && r[j] == t.item;
      SameRoot(ts, t, us[j]);
    }
    TreesApart(ts, false);
    forall i | 0 <= i < |us| ensures IsTree(us[i], false) { assert us[i] in ts; }
    forall i, j | 0 <= i < j < |us| ensures Nodes(us[i]) !! Nodes(us[j]) {
      assert us[i] in ts && us[j] in ts && r[i] != r[j];
    }
    ApartTrees(us, false);
    SameNodes(ts, us);
    assert Roots(us) == r;
  }

  lemma SameRoot(ts: seq<Tree>, t: Tree, u: Tree)
    requires Distinct(Roots(ts)) && t in ts && u in ts && t.item == u.item
    ensures t == u
  {
    var i :| 0 <= i < |ts| && ts[i] == t;
    var j :| 0 <= j < |ts| && ts[j] == u;
    assert Roots(ts)[i] == Roots(ts)[j];
  }

  lemma SameNodes(ts: seq<Tree>, us: seq<Tree>)
    requires SameTrees(ts, us)
    ensures KidsNodes(ts) == KidsNodes(us)
  {
    hide KidsNodes;
    NodesWithin(ts, us);
    NodesWithin(us, ts);
  }

  lemma NodesWithin(ts: seq<Tree>, us: seq<Tree>)
    requires forall i :: 0 <= i < |ts| ==> ts[i] in us
    ensures KidsNodes(ts) <= KidsNodes(us)
  {
    hide KidsNodes, Nodes;
    forall x | x in KidsNodes(ts) ensures x in KidsNodes(us) {
      NodeOf(ts, x);
      NodeOf(us, x);
      var i :| 0 <= i < |ts| && x in Nodes(ts[i]);
      var j :| 0 <= j < |us| && us[j] == ts[i];
    }
  }

  // ---- the members in order ----

  lemma TreesAscend(ts: seq<Tree>, us: seq<Tree>, cs: bool)
    requires SameTrees(ts, us) && Distinct(Roots(us)) && Sorted(Roots(us), cs) && Told(MembersOf(ts), cs)
    ensures Ascending(MembersOf(us), cs)
  {
    hide MembersOf, ValueOf, Compare, Tells;
    MembersAt(ts);
    MembersAt(us);
    var ms, ns := MembersOf(ts), MembersOf(us);
    forall i, j | 0 <= i < j < |us| ensures Compare(ns[i].key, ns[j].key, cs) < 0 {
      var a: nat :| a < |ts| && ts[a] == us[i];
      var b: nat :| b < |ts| && ts[b] == us[j];
      assert Roots(us)[i] != Roots(us)[j] && Compare(Roots(us)[i].key, Roots(us)[j].key, cs) <= 0;
      assert a != b && ms[a].key != ms[b].key && Tells(ms[a].key, ms[b].key, cs);
      EqualKeys(ms[a].key, ms[b].key, cs);
    }
  }

  lemma SameMembers(ts: seq<Tree>, us: seq<Tree>)
    requires forall i :: 0 <= i < |ts| ==> ts[i] in us
    ensures forall x :: x in MembersOf(ts) ==> x in MembersOf(us)
  {
    hide MembersOf, ValueOf;
    MembersAt(ts);
    MembersAt(us);
    var ms, ns := MembersOf(ts), MembersOf(us);
    forall x | x in ms ensures x in ns {
      var i: nat :| i < |ts| && ms[i] == x;
      var a: nat :| a < |us| && us[a] == ts[i];
      assert ns[a] == x;
    }
  }

  /** Trees in the order of their roots' keys hold the members in the order of SortMembers. */
  lemma SortedTrees(ts: seq<Tree>, us: seq<Tree>, cs: bool)
    requires SameTrees(ts, us) && Distinct(Roots(us)) && Sorted(Roots(us), cs) && Told(MembersOf(ts), cs)
    ensures MembersOf(us) == SortMembers(MembersOf(ts), cs)
  {
    var ms := MembersOf(ts);
    var sorted := SortMembers(ms, cs);
    TreesAscend(ts, us, cs);
    SameMembers(ts, us);
    SameMembers(us, ts);
    SortAscends(ms, cs);
    hide SortMembers, MembersOf, Sorted, Distinct, Ascending;
    PermutedKeys(ms, sorted);
    hide SameTrees, Told;
    AscendingUnique(MembersOf(us), sorted, cs);
  }

  /** sort_object */
  method SortObject(parent: Item, cs: bool, ghost t: Tree) returns (ghost u: Tree)
    requires IsTree(t, false) && t.item == parent
    modifies parent`child, Roots(t.kids)`next, Roots(t.kids)`prev
    ensures u.item == parent && IsTree(u, false) && SameTrees(t.kids, u.kids)
    ensures multiset(Roots(u.kids)) == multiset(Roots(t.kids)) && Sorted(Roots(u.kids), cs)
    ensures Told(MembersOf(t.kids), cs) ==> MembersOf(u.kids) == SortMembers(MembersOf(t.kids), cs)
    ensures HeadPrev(parent.child, old(parent.child), old(PrevOf(parent.child)))
  {
    assert allocated(t) && allocated(KidsNodes(t.kids)) && allocated(Inner(t.kids));
    RootsIn(t.kids);
    RootsApart(t.kids, false);
    ghost var s := Roots(t.kids);
    hide KidsNodes, Inner, Nodes, SortMembers, MembersOf, Told, Sorted, HeadPrev, PrevOf, SameTrees;
    ghost var r := SortChildren(parent, cs, s);
    RearrangedKeeps(t.kids, r);
    u := Tree(parent, Rearranged(t.kids, r));
    if Told(MembersOf(t.kids), cs) {
      SortedTrees(t.kids, u.kids, cs);
    }
  }

  method SortChildren(parent: Item, cs: bool, ghost s: seq<Item>) returns (ghost r: seq<Item>)
    requires IsList(parent.child, s) && parent !in s
    modifies parent`child, s`next, s`prev
    ensures IsList(parent.child, r) && multiset(r) == multiset(s) && Sorted(r, cs)
    ensures HeadPrev(parent.child, old(parent.child), old(PrevOf(parent.child)))
  {
    hide Sorted, Chained, Distinct;
    var result;
    result, r := SortList(parent.child, cs, s);
    HeadOf(result, r);
    SameItems(r, s);
    parent.child := result;
  }

  /** A head leads along one list only. */
  lemma {:induction false} ListUnique(head: Item?, a: seq<Item>, b: seq<Item>)
    requires IsList(head, a) && IsList(head, b)
    ensures a == b
    decreases |a|
  {
    if head != null {
      TailList(head, a);
      TailList(head, b);
      ListUnique(head.next, a[1..], b[1..]);
      assert a == [a[0]] + a[1..] && b == [b[0]] + b[1..];
    }
  }

  /**
   What happens to an append after a sort, as in a patch document that tests an object and then
   adds to it: the new item comes behind the sorted ones if and only if the sort has left the
   first and the last item in their places. Success is reported in any case.
   */
  method AddAfterSort(parent: Item, item: Item, cs: bool, ghost t: Tree) returns (ok: bool, ghost r: seq<Item>)
    requires IsTree(t, true) && t.item == parent && item !in Nodes(t) && item.next == null
    modifies parent`child, item, Roots(t.kids)
    ensures ok && multiset(r) == multiset(Roots(t.kids)) && Sorted(r, cs)
    ensures var s := Roots(t.kids);
      IsList(parent.child, r + [item]) <==> s == [] || (r[0] == s[0] && r[|r| - 1] == s[|s| - 1])
    ensures r != [] && r[0] != Roots(t.kids)[0] ==> IsList(parent.child, r)
  {
    RingsFade(t);
    RootsIn(t.kids);
    assert IsRing(parent.child, Roots(t.kids));
    hide KidsNodes, Inner, Nodes, IsTree, AreTrees, MembersOf, Told, SortMembers;
    ghost var s := Roots(t.kids);
    ghost var u := SortObject(parent, cs, t);
    r := Roots(u.kids);
    SortedRoots(u, parent);
    SameItems(r, s);
    ok := AddSorted(parent, item, s, r);
  }

  lemma SortedRoots(u: Tree, parent: Item)
    requires IsTree(u, false) && u.item == parent
    ensures IsList(parent.child, Roots(u.kids))
  {
  }

  method AddSorted(parent: Item, item: Item, ghost s: seq<Item>, ghost r: seq<Item>) returns (ok: bool)
    requires IsList(parent.child, r) && parent !in r && item !in r && parent != item && item.next == null
    requires |r| == |s| && (forall x :: x in r <==> x in s) && Distinct(s)
    requires r != [] ==> r[0].prev == if r[0] == s[0] then s[|s| - 1] else null
    modifies parent`child, item, r
    ensures ok && (IsList(parent.child, r + [item]) <==> s == [] || (r[0] == s[0] && r[|r| - 1] == s[|s| - 1]))
    ensures r != [] && r[0] != s[0] ==> IsList(parent.child, r)
  {
    ghost var m: nat := 0;
    if r != [] {
      assert s[|s| - 1] in r;
      ghost var i :| 0 <= i < |r| && r[i] == s[|s| - 1];
      m := i;
    }
    ok := AddItemToArray(parent, item, r, m);
    if r != [] {
      if r[0] == s[0] {
        AppendedAt(parent.child, r, item, m);
      } else if IsList(parent.child, r + [item]) {
        ListUnique(parent.child, r, r + [item]);
      }
    } else {
      assert r + [item] == [item];
    }
  }

  lemma AppendedAt(head: Item?, r: seq<Item>, item: Item, m: nat)
    requires m < |r| && Distinct(r) && IsList(head, r[..m + 1] + [item])
    ensures IsList(head, r + [item]) <==> m == |r| - 1
  {
    if IsList(head, r + [item]) { ListUnique(head, r[..m + 1] + [item], r + [item]); }
    if m == |r| - 1 { assert r[..m + 1] == r; }
  }
}
