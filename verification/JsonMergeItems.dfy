/**
 merge_patch on items: looking up, detaching, merging and appending children of a tree on the heap
 leaves a tree with full child lists that holds the merged value. This is the case-sensitive twin,
 in which a member keeps its name.
 */
module JsonMergeItems {
  import opened Json
  import opened JsonTree
  import opened JsonMerge
  import opened JsonList
  import opened JsonHeap
  import opened JsonDuplicate

  // ---- members of trees ----

  lemma MembersWithout(ts: seq<Tree>, i: nat)
    requires i < |ts|
    ensures i < |MembersOf(ts)| && MembersOf(RemoveAt(ts, i)) == RemoveAt(MembersOf(ts), i)
  {
    hide MembersOf, ValueOf;
    MembersAt(ts);
    MembersAt(RemoveAt(ts, i));
  }

  lemma {:induction false} TreesWithout(ts: seq<Tree>, i: nat, rings: bool)
    requires i < |ts| && AreTrees(ts, rings)
    ensures AreTrees(RemoveAt(ts, i), rings) && IsTree(ts[i], rings)
    ensures KidsNodes(ts) == KidsNodes(RemoveAt(ts, i)) + Nodes(ts[i]) && Nodes(ts[i]) !! KidsNodes(RemoveAt(ts, i))
    ensures Inner(ts) == Inner(RemoveAt(ts, i)) + KidsNodes(ts[i].kids)
  {
    hide IsTree, Nodes;
    if i == 0 {
      assert RemoveAt(ts, 0) == ts[1..];
    } else {
      TreesWithout(ts[1..], i - 1, rings);
      var r := RemoveAt(ts, i);
      assert r[0] == ts[0] && r[1..] == RemoveAt(ts[1..], i - 1) && ts[1..][i - 1] == ts[i];
    }
  }

  lemma RootsWithout(ts: seq<Tree>, i: nat)
    requires i < |ts|
    ensures Roots(RemoveAt(ts, i)) == RemoveAt(Roots(ts), i)
  {
  }

  /** What it means that an item has these trees below it. */
  lemma TreeParts(target: Item, ts: seq<Tree>)
    ensures IsTree(Tree(target, ts), true) <==>
      target !in KidsNodes(ts) && AreTrees(ts, true) && IsRing(target.child, Roots(ts))
  {
  }

  /** Roots are below the item, but not below each other. */
  lemma RootFacts(target: Item, ts: seq<Tree>)
    requires IsTree(Tree(target, ts), true)
    ensures target !in Roots(ts) && target !in Inner(ts) && Distinct(Roots(ts))
    ensures forall x :: x in Roots(ts) ==> x in KidsNodes(ts) && x !in Inner(ts)
    ensures Inner(ts) <= KidsNodes(ts)
  {
    RootsIn(ts);
    RootsApart(ts, true);
    forall x | x in Roots(ts) ensures x in KidsNodes(ts) && x !in Inner(ts) {
      var i :| 0 <= i < |ts| && Roots(ts)[i] == x;
      assert ts[i].item == x;
    }
  }

  // ---- the steps ----

  /** get_object_item */
  method GetObjectItem(parent: Item, name: string, cs: bool, ghost ts: seq<Tree>) returns (item: Item?, ghost i: nat)
    requires IsList(parent.child, Roots(ts))
    ensures i == IndexOf(MembersOf(ts), name, cs) <= |ts| == |MembersOf(ts)|
    ensures var k := IndexOf(MembersOf(ts), name, cs); item == if k < |ts| then ts[k].item else null
  {
    hide Compare, MembersOf, ValueOf;
    MembersAt(ts);
    item := parent.child;
    i := 0;
    while item != null && Compare(name, item.key, cs) != 0
      invariant i <= |ts| && item == if i < |ts| then ts[i].item else null
      invariant forall j :: 0 <= j < i ==> Compare(name, MembersOf(ts)[j].key, cs) != 0
      decreases |ts| - i
    {
      NextOf(Roots(ts), i);
      item := item.next;
      i := i + 1;
    }
  }

  /** cJSON_DetachItemFromObjectCaseSensitive; null when there is no such member */
  method DetachMember(target: Item, name: string, ghost ts: seq<Tree>) returns (item: Item?, ghost i: nat, ghost rest: seq<Tree>)
    requires IsTree(Tree(target, ts), true)
    modifies target`child, Roots(ts)`next, Roots(ts)`prev
    ensures i == IndexOf(MembersOf(ts), name, true) <= |ts| == |MembersOf(ts)|
    ensures item == if i < |ts| then ts[i].item else null
    ensures rest == if i < |ts| then RemoveAt(ts, i) else ts
    ensures IsTree(Tree(target, rest), true)
    ensures i < |ts| ==> IsTree(ts[i], true) && item.next == null && Nodes(ts[i]) !! KidsNodes(rest)
    ensures i < |ts| ==> KidsNodes(ts) == KidsNodes(rest) + Nodes(ts[i])
  {
    TreeParts(target, ts);
    assert allocated(Tree(target, ts)) && allocated(KidsNodes(ts)) && allocated(Inner(ts)) && allocated(Roots(ts));
    hide IsTree, AreTrees, KidsNodes, Inner, Nodes, RemoveAt, MembersOf, IndexOf, Roots, IsRing;
    item, i := GetObjectItem(target, name, true, ts);
    rest := ts;
    TreeParts(target, ts);
    if item != null {
      rest := DetachAt(target, item, ts, i);
    }
  }

  method DetachAt(target: Item, item: Item, ghost ts: seq<Tree>, ghost i: nat) returns (ghost rest: seq<Tree>)
    requires IsTree(Tree(target, ts), true) && i < |ts| && item == ts[i].item
    modifies target`child, Roots(ts)`next, Roots(ts)`prev
    ensures rest == RemoveAt(ts, i) && IsTree(Tree(target, rest), true)
    ensures IsTree(ts[i], true) && item.next == null && Nodes(ts[i]) !! KidsNodes(rest)
    ensures KidsNodes(ts) == KidsNodes(rest) + Nodes(ts[i])
  {
    rest := RemoveAt(ts, i);
    TreeParts(target, ts);
    RootFacts(target, ts);
    RootsWithout(ts, i);
    TreesWithout(ts, i, true);
    hide IsTree, AreTrees, KidsNodes, Inner, Nodes, RemoveAt;
    assert allocated(rest) && allocated(KidsNodes(rest)) && allocated(Inner(rest));
    assert allocated(ts[i]) && allocated(Nodes(ts[i])) && allocated(KidsNodes(ts[i].kids));
    DetachItemViaPointer(target, item, Roots(ts), i);
    TreeParts(target, rest);
  }

  /** cJSON_AddItemToObject under the name the item has */
  method AddMember(target: Item, item: Item, ghost ts: seq<Tree>, ghost w: Tree) returns (ghost us: seq<Tree>)
    requires IsTree(Tree(target, ts), true) && IsTree(w, true) && w.item == item && item.next == null
    requires Nodes(w) !! KidsNodes(ts) && target !in Nodes(w)
    modifies target`child, item`next, item`prev, Roots(ts)`next, Roots(ts)`prev
    ensures us == ts + [w] && IsTree(Tree(target, us), true)
  {
    us := ts + [w];
    TreeParts(target, ts);
    AddedFacts(target, ts, w);
    hide IsTree, AreTrees, KidsNodes, Inner, Nodes, Roots;
    ghost var s := Roots(ts);
    assert allocated(us) && allocated(KidsNodes(us)) && allocated(Inner(us));
    var ok := AddItemToArray(target, item, s, if s == [] then 0 else |s| - 1);
    TreeParts(target, us);
  }

  lemma AddedFacts(target: Item, ts: seq<Tree>, w: Tree)
    requires target !in KidsNodes(ts) && AreTrees(ts, true) && IsTree(w, true)
    requires Nodes(w) !! KidsNodes(ts) && target !in Nodes(w)
    ensures var us := ts + [w];
      && AreTrees(us, true) && Roots(us) == Roots(ts) + [w.item] && target !in KidsNodes(us) && target !in Inner(us)
      && w.item !in Roots(ts) && target != w.item && target !in Roots(ts) && w.item !in Inner(us)
      && forall x :: x in Roots(ts) ==> x !in Inner(us)
  {
    var us := ts + [w];
    AppendTree(ts, w, true);
    AppendNodes(ts, w);
    RootsIn(ts);
    RootsIn(us);
    RootsApart(us, true);
    assert Roots(us) == Roots(ts) + [w.item];
    assert us[|ts|].item == w.item;
    forall x | x in Roots(ts) ensures x !in Inner(us) && x != w.item && x != target {
      var i :| 0 <= i < |ts| && Roots(ts)[i] == x;
      assert us[i].item == x && Roots(us)[i] == x && Roots(us)[|ts|] == w.item;
    }
  }

  // ---- merging ----

  ghost function HeldBy(t: Option<Tree>): Option<Json>
  {
    if t == None then None else Some(ValueOf(t.value))
  }

  ghost function NodesOf(t: Option<Tree>): set<Item>
  {
    if t == None then {} else Nodes(t.value)
  }

  lemma ValueKind(t: Tree)
    ensures ValueOf(t).Null? <==> t.item.content.Null?
    ensures ValueOf(t).Object? <==> t.item.content.Object?
    ensures t.item.content.Object? ==> ValueOf(t) == Object(MembersOf(t.kids))
    ensures !t.item.content.Object? && !t.item.content.Array? ==> ValueOf(t) == t.item.content
  {
  }

  /** One member of the patch: detach the old value, append the merged one unless it is null. */
  method MergeMember(holder: Item, patchChild: Item, ghost ts: seq<Tree>, ghost q: Tree) returns (ghost us: seq<Tree>)
    requires IsTree(Tree(holder, ts), true) && IsTree(q, false) && q.item == patchChild && Nodes(q) !! KidsNodes(ts) && holder !in Nodes(q)
    modifies holder`child, KidsNodes(ts)
    ensures IsTree(Tree(holder, us), true) && forall x :: x in KidsNodes(us) ==> x in KidsNodes(ts) || fresh(x)
    ensures MembersOf(us) == MergeOne(MembersOf(ts), Member(patchChild.key, ValueOf(q)), true)
    decreases q, 4
  {
    RootFacts(holder, ts);
    TreeParts(holder, ts);
    ValueKind(q);
    assert allocated(q) && allocated(Nodes(q)) && allocated(KidsNodes(q.kids));
    hide IsTree, AreTrees, Nodes, KidsNodes, Inner, ValueOf, MembersOf, Roots, RemoveAt, IndexOf, MergeOne, IsRing, HeldBy, MergePatch;
    var item;
    ghost var i, rest;
    item, i, rest := DetachMember(holder, patchChild.key, ts);
    MergeOneOf(ts, i, rest, q);
    ghost var t := if i < |ts| then Some(ts[i]) else None;
    assert NodesOf(t) <= KidsNodes(ts) && NodesOf(t) !! KidsNodes(rest) && KidsNodes(rest) <= KidsNodes(ts);
    hide NodesOf;
    if patchChild.content.Null? {
      us := rest;
      return;
    }
    us := MergeDetached(holder, item, patchChild, rest, t, q);
  }

  /** Merging one member into the members that the trees hold. */
  lemma MergeOneOf(ts: seq<Tree>, i: nat, rest: seq<Tree>, q: Tree)
    requires i == IndexOf(MembersOf(ts), q.item.key, true) <= |ts| && rest == if i < |ts| then RemoveAt(ts, i) else ts
    ensures i < |ts| ==> ts[i].item.key == q.item.key
    ensures MergeOne(MembersOf(ts), Member(q.item.key, ValueOf(q)), true) ==
      if ValueOf(q).Null? then MembersOf(rest)
      else MembersOf(rest) + [Member(q.item.key, MergePatch(HeldBy(if i < |ts| then Some(ts[i]) else None), ValueOf(q), true))]
  {
    hide ValueOf, MembersOf, IndexOf, RemoveAt, MergePatch;
    MembersAt(ts);
    FoundKey(MembersOf(ts), q.item.key);
    if i < |ts| { MembersWithout(ts, i); }
  }

  lemma FoundKey(ms: seq<Member>, key: string)
    ensures var i := IndexOf(ms, key, true); i < |ms| ==> ms[i].key == key
  {
    var i := IndexOf(ms, key, true);
    if i < |ms| { CompareEqual(key, ms[i].key); }
  }

  method MergeDetached(holder: Item, item: Item?, patchChild: Item, ghost rest: seq<Tree>, ghost t: Option<Tree>, ghost q: Tree)
    returns (ghost us: seq<Tree>)
    requires IsTree(Tree(holder, rest), true) && IsTree(q, false) && q.item == patchChild
    requires item == (if t == None then null else t.value.item)
    requires t.Some? ==> IsTree(t.value, true) && item.next == null && item.key == patchChild.key
    requires NodesOf(t) !! Nodes(q) && NodesOf(t) !! KidsNodes(rest) && holder !in NodesOf(t)
    requires Nodes(q) !! KidsNodes(rest) && holder !in Nodes(q)
    modifies holder`child, KidsNodes(rest), NodesOf(t)
    ensures IsTree(Tree(holder, us), true) && forall x :: x in KidsNodes(us) ==> x in KidsNodes(rest) || x in NodesOf(t) || fresh(x)
    ensures MembersOf(us) == MembersOf(rest) + [Member(patchChild.key, MergePatch(HeldBy(t), ValueOf(q), true))]
    decreases q, 3
  {
    TreeParts(holder, rest);
    RootFacts(holder, rest);
    assert allocated(Tree(holder, rest)) && allocated(KidsNodes(rest)) && allocated(Inner(rest)) && allocated(Roots(rest)) && allocated(NodesOf(t));
    hide IsTree, AreTrees, Nodes, KidsNodes, Inner, ValueOf, MembersOf, Roots, NodesOf, HeldBy;
    var replacement;
    ghost var w;
    replacement, w := MergeItems(item, patchChild, t, q);
    us := AddMember(holder, replacement, rest, w);
    AppendNodes(rest, w);
    AppendValue(rest, w);
  }

  /** merge_patch with regard to case */
  method MergeItems(target: Item?, patch: Item, ghost t: Option<Tree>, ghost p: Tree) returns (result: Item, ghost u: Tree)
    requires IsTree(p, false) && p.item == patch
    requires target == (if t == None then null else t.value.item)
    requires t.Some? ==> IsTree(t.value, true) && target.next == null && target.key == patch.key
    requires NodesOf(t) !! Nodes(p)
    modifies NodesOf(t)
    ensures u.item == result && IsTree(u, true) && result.key == patch.key && result.next == null
    ensures ValueOf(u) == MergePatch(HeldBy(t), ValueOf(p), true)
    ensures forall x :: x in Nodes(u) ==> x in NodesOf(t) || fresh(x)
    decreases p, 2
  {
    ValueKind(p);
    if t.Some? { ValueKind(t.value); }
    assert allocated(p) && allocated(Nodes(p)) && allocated(KidsNodes(p.kids)) && allocated(NodesOf(t));
    if !patch.content.Object? {
      hide IsTree, ValueOf, Nodes;
      result, u := Duplicate(patch, p);
      return;
    }
    ghost var ts;
    if target == null || !target.content.Object? {
      result := new Item(patch.key, Object([]));
      ts := [];
    } else {
      result := target;
      ts := t.value.kids;
    }
    ghost var us := MergeChildren(result, patch, ts, p);
    u := Tree(result, us);
    ValueKind(u);
  }

  /** The loop over the members of the patch */
  method MergeChildren(holder: Item, patch: Item, ghost ts: seq<Tree>, ghost p: Tree) returns (ghost us: seq<Tree>)
    requires IsTree(Tree(holder, ts), true) && IsTree(p, false) && p.item == patch
    requires Nodes(p) !! KidsNodes(ts) && holder !in Nodes(p)
    modifies holder`child, KidsNodes(ts)
    ensures IsTree(Tree(holder, us), true) && forall x :: x in KidsNodes(us) ==> x in KidsNodes(ts) || fresh(x)
    ensures MembersOf(us) == MergeMembers(MembersOf(ts), MembersOf(p.kids), true)
    decreases p, 1
  {
    NoKidsYet(p);
    assert allocated(p) && allocated(Nodes(p)) && allocated(KidsNodes(ts));
    hide IsTree, AreTrees, Nodes, KidsNodes, Inner, MembersOf, ValueOf, MergeOne;
    us := ts;
    var patchChild := patch.child;
    ghost var k: nat := 0;
    ghost var ps := MembersOf(p.kids);
    assert ps[0..] == ps;
    MembersAt(p.kids);
    while patchChild != null
      invariant k <= |p.kids| && patchChild == if k < |p.kids| then p.kids[k].item else null
      invariant IsTree(p, false) && IsTree(Tree(holder, us), true)
      invariant forall x :: x in KidsNodes(us) ==> x in KidsNodes(ts) || fresh(x)
      invariant MergeMembers(MembersOf(us), ps[k..], true) == MergeMembers(MembersOf(ts), ps, true)
      decreases |p.kids| - k
    {
      assert ps[k..][0] == ps[k] && ps[k..][1..] == ps[k + 1..];
      patchChild, us := MergeTurn(holder, patchChild, us, p, k);
      k := k + 1;
    }
  }

  lemma NoKidsYet(p: Tree)
    requires IsTree(p, false)
    ensures p.item.child == if p.kids == [] then null else p.kids[0].item
  {
  }

  lemma {:induction false} KidWithin(ts: seq<Tree>, k: nat)
    requires k < |ts|
    ensures Nodes(ts[k]) <= KidsNodes(ts)
  {
    if k > 0 { KidWithin(ts[1..], k - 1); }
  }

  lemma KidOf(p: Tree, k: nat)
    requires IsTree(p, false) && k < |p.kids|
    ensures IsTree(p.kids[k], false) && Nodes(p.kids[k]) <= Nodes(p)
    ensures p.kids[k].item.next == if k + 1 < |p.kids| then p.kids[k + 1].item else null
  {
    TreeLists(p);
    hide IsTree, AreTrees, Nodes, KidsNodes, Inner, Distinct;
    KidTree(p.kids, k, false);
    KidWithin(p.kids, k);
    NextOf(Roots(p.kids), k);
  }

  lemma TreeLists(p: Tree)
    requires IsTree(p, false)
    ensures AreTrees(p.kids, false) && IsList(p.item.child, Roots(p.kids)) && KidsNodes(p.kids) <= Nodes(p)
  {
  }

  /** One turn of the loop, which leaves the patch as it is. */
  method MergeTurn(holder: Item, patchChild: Item, ghost us: seq<Tree>, ghost p: Tree, ghost k: nat)
    returns (next: Item?, ghost us': seq<Tree>)
    requires IsTree(Tree(holder, us), true) && IsTree(p, false) && k < |p.kids| && patchChild == p.kids[k].item
    requires Nodes(p) !! KidsNodes(us) && holder !in Nodes(p)
    modifies holder`child, KidsNodes(us)
    ensures IsTree(Tree(holder, us'), true) && IsTree(p, false)
    ensures forall x :: x in KidsNodes(us') ==> x in KidsNodes(us) || fresh(x)
    ensures MembersOf(us') == MergeOne(MembersOf(us), Member(p.kids[k].item.key, ValueOf(p.kids[k])), true)
    ensures next == if k + 1 < |p.kids| then p.kids[k + 1].item else null
    decreases p, 0
  {
    KidOf(p, k);
    assert allocated(p) && allocated(Nodes(p)) && allocated(KidsNodes(p.kids));
    assert KidsNodes(p.kids) <= Nodes(p);
    hide IsTree, AreTrees, Nodes, KidsNodes, Inner, MembersOf, ValueOf, MergeOne;
    us' := MergeMember(holder, patchChild, us, p.kids[k]);
    KidOf(p, k);
    next := patchChild.next;
  }
}
