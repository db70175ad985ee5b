/**
 Trees of items on the heap. The shape of a tree is given by a ghost tree of its items; rings
 says whether each child list has its tail behind the head's prev, which sorting a list loses.
 */
module JsonHeap {
  import opened Json
  import opened JsonList

  /** The items of a tree, root first. */
  datatype Tree = Tree(item: Item, kids: seq<Tree>)

  ghost function Nodes(t: Tree): set<Item>
    decreases t
  {
    {t.item} + KidsNodes(t.kids)
  }

  ghost function KidsNodes(ts: seq<Tree>): set<Item>
    decreases ts
  {
    if ts == [] then {} else Nodes(ts[0]) + KidsNodes(ts[1..])
  }

  /** All items below the given roots. */
  ghost function Inner(ts: seq<Tree>): set<Item>
    decreases ts
  {
    if ts == [] then {} else KidsNodes(ts[0].kids) + Inner(ts[1..])
  }

  ghost function Roots(ts: seq<Tree>): (s: seq<Item>)
    ensures |s| == |ts| && forall i :: 0 <= i < |ts| ==> s[i] == ts[i].item
  {
    seq(|ts|, i requires 0 <= i < |ts| => ts[i].item)
  }

  /** A child list, with or without the head's prev. */
  ghost predicate Linked(head: Item?, s: seq<Item>, rings: bool)
    reads s`next, s`prev
  {
    IsList(head, s) && (rings ==> IsRing(head, s))
  }

  /** Every item's children form a child list; nothing is said about the root's own links. */
  ghost predicate IsTree(t: Tree, rings: bool)
    reads Nodes(t)`child, KidsNodes(t.kids)`next, KidsNodes(t.kids)`prev
    decreases t
  {
    RootsIn(t.kids);
    t.item !in KidsNodes(t.kids) && AreTrees(t.kids, rings) && Linked(t.item.child, Roots(t.kids), rings)
  }

  /** Disjoint trees. */
  ghost predicate AreTrees(ts: seq<Tree>, rings: bool)
    reads KidsNodes(ts)`child, Inner(ts)`next, Inner(ts)`prev
    decreases ts
  {
    ts != [] ==> IsTree(ts[0], rings) && Nodes(ts[0]) !! KidsNodes(ts[1..]) && AreTrees(ts[1..], rings)
  }

  lemma {:induction false} RootsIn(ts: seq<Tree>)
    ensures forall i :: 0 <= i < |ts| ==> ts[i].item in KidsNodes(ts)
    ensures Inner(ts) <= KidsNodes(ts)
  {
    if ts != [] {
      RootsIn(ts[1..]);
      forall i | 0 <= i < |ts| ensures ts[i].item in KidsNodes(ts) {
        if i > 0 { assert ts[i] == ts[1..][i - 1]; }
      }
    }
  }

  /** The value that a tree of items holds. */
  ghost function ValueOf(t: Tree): Json
    decreases t
  {
    match t.item.content
    case Array(_) => Array(ItemsOf(t.kids))
    case Object(_) => Object(MembersOf(t.kids))
    case scalar => scalar
  }

  ghost function ItemsOf(ts: seq<Tree>): seq<Json>
    decreases ts
  {
    if ts == [] then [] else [ValueOf(ts[0])] + ItemsOf(ts[1..])
  }

  ghost function MembersOf(ts: seq<Tree>): seq<Member>
    decreases ts
  {
    if ts == [] then [] else [Member(ts[0].item.key, ValueOf(ts[0]))] + MembersOf(ts[1..])
  }

  /** The value of an item with this type and these children. */
  ghost function Holding(kind: Json, kids: seq<Tree>): Json
  {
    match kind
    case Array(_) => Array(ItemsOf(kids))
    case Object(_) => Object(MembersOf(kids))
    case scalar => scalar
  }

  lemma {:induction false} MembersAt(ts: seq<Tree>)
    ensures |MembersOf(ts)| == |ts|
    ensures forall i :: 0 <= i < |ts| ==> MembersOf(ts)[i] == Member(ts[i].item.key, ValueOf(ts[i]))
  {
    if ts != [] {
      MembersAt(ts[1..]);
      assert forall i :: 1 <= i < |ts| ==> ts[i] == ts[1..][i - 1];
    }
  }

  lemma {:induction false} AppendValue(ts: seq<Tree>, u: Tree)
    ensures ItemsOf(ts + [u]) == ItemsOf(ts) + [ValueOf(u)]
    ensures MembersOf(ts + [u]) == MembersOf(ts) + [Member(u.item.key, ValueOf(u))]
  {
    var s := ts + [u];
    if ts == [] {
      assert s == [u] && s[1..] == [];
    } else {
      assert s[1..] == ts[1..] + [u] && s[0] == ts[0];
      AppendValue(ts[1..], u);
    }
  }

  ghost predicate SameValue(t: Tree, u: Tree)
  {
    ValueOf(t) == ValueOf(u) && t.item.key == u.item.key
  }

  lemma {:induction false} SameKids(ts: seq<Tree>, us: seq<Tree>)
    requires |ts| == |us| && forall i :: 0 <= i < |ts| ==> SameValue(ts[i], us[i])
    ensures ItemsOf(ts) == ItemsOf(us) && MembersOf(ts) == MembersOf(us)
  {
    if ts != [] {
      assert forall i :: 0 <= i < |ts[1..]| ==> ts[1..][i] == ts[i + 1] && us[1..][i] == us[i + 1];
      SameKids(ts[1..], us[1..]);
    }
  }

  lemma {:induction false} KidTree(ts: seq<Tree>, k: nat, rings: bool)
    requires k < |ts| && AreTrees(ts, rings)
    ensures IsTree(ts[k], rings)
  {
    if k > 0 { KidTree(ts[1..], k - 1, rings); }
  }

  lemma {:induction false} AppendNodes(ts: seq<Tree>, u: Tree)
    ensures KidsNodes(ts + [u]) == KidsNodes(ts) + Nodes(u)
    ensures Inner(ts + [u]) == Inner(ts) + KidsNodes(u.kids)
  {
    var s := ts + [u];
    if ts == [] {
      assert s == [u] && s[1..] == [];
    } else {
      assert s[1..] == ts[1..] + [u];
      AppendNodes(ts[1..], u);
    }
  }

  lemma {:induction false} AppendTree(ts: seq<Tree>, u: Tree, rings: bool)
    requires AreTrees(ts, rings) && IsTree(u, rings) && Nodes(u) !! KidsNodes(ts)
    ensures AreTrees(ts + [u], rings)
  {
    var s := ts + [u];
    if ts == [] {
      assert s == [u] && s[1..] == [];
    } else {
      assert s[1..] == ts[1..] + [u] && s[0] == ts[0];
      AppendTree(ts[1..], u, rings);
      AppendNodes(ts[1..], u);
    }
  }

  /** Roots of disjoint trees are distinct and not below one another. */
  lemma {:induction false} RootsApart(ts: seq<Tree>, rings: bool)
    requires AreTrees(ts, rings)
    ensures Distinct(Roots(ts)) && forall i :: 0 <= i < |ts| ==> ts[i].item !in Inner(ts)
  {
    if ts != [] {
      RootsApart(ts[1..], rings);
      RootsIn(ts[1..]);
      RootsIn(ts[0].kids);
      forall i | 0 <= i < |ts| ensures ts[i].item !in Inner(ts) && (i > 0 ==> ts[i].item != ts[0].item) {
        if i > 0 { assert ts[i] == ts[1..][i - 1]; }
      }
      forall i, j | 0 <= i < j < |ts| ensures ts[i].item != ts[j].item {
        if i > 0 { assert ts[i].item == Roots(ts[1..])[i - 1] && ts[j].item == Roots(ts[1..])[j - 1]; }
      }
    }
  }

  /** A tree with rings is one without that demand. */
  lemma {:induction false} RingsFade(t: Tree)
    requires IsTree(t, true)
    ensures IsTree(t, false)
    decreases t, 1
  {
    AllRingsFade(t.kids);
  }

  lemma {:induction false} AllRingsFade(ts: seq<Tree>)
    requires AreTrees(ts, true)
    ensures AreTrees(ts, false)
    decreases ts, 0
  {
    if ts != [] {
      RingsFade(ts[0]);
      AllRingsFade(ts[1..]);
    }
  }

  /** A chain of trees under construction: its last item is `last`. */
  ghost predicate ChainTo(us: seq<Tree>, last: Item?)
    reads Roots(us)`next, Roots(us)`prev
  {
    if us == [] then last == null
    else last == us[|us| - 1].item && Chained(Roots(us)) && Roots(us)[|us| - 1].next == null
  }

  /** Crosswire one more item: last->next = newitem, newitem->prev = last. */
  method LinkItem(last: Item?, newitem: Item, ghost us: seq<Tree>, ghost u: Tree)
    requires AreTrees(us, true) && IsTree(u, true) && Nodes(u) !! KidsNodes(us)
    requires u.item == newitem && newitem.next == null && ChainTo(us, last)
    modifies Roots(us)`next, newitem`prev
    ensures AreTrees(us + [u], true) && ChainTo(us + [u], newitem)
  {
    assert allocated(us) && allocated(u) && allocated(us + [u]);
    assert allocated(KidsNodes(us + [u])) && allocated(Inner(us + [u]));
    AppendTree(us, u, true);
    RootsApart(us + [u], true);
    RootsIn(us);
    ghost var s, r := Roots(us), Roots(us + [u]);
    hide KidsNodes, Inner, Nodes;
    assert r == s + [newitem];
    ghost var inner := Inner(us + [u]);
    assert newitem == (us + [u])[|us|].item && newitem !in inner;
    if last != null {
      assert last == (us + [u])[|us| - 1].item && last !in inner;
      last.next := newitem;
      newitem.prev := last;
      forall i | 0 <= i < |r| - 1 ensures r[i].next == r[i + 1] && r[i + 1].prev == r[i] {
        if i + 1 < |s| { assert old(s[i].next == s[i + 1] && s[i + 1].prev == s[i]); }
      }
    }
  }

  /** The head's prev is set to the last item; then the chain is a full child list. */
  method CloseChain(head: Item?, last: Item?, ghost us: seq<Tree>)
    requires AreTrees(us, true) && ChainTo(us, last) && head == if us == [] then null else us[0].item
    modifies Roots(us)`prev
    ensures AreTrees(us, true) && IsRing(head, Roots(us))
  {
    assert allocated(us) && allocated(KidsNodes(us)) && allocated(Inner(us));
    RootsApart(us, true);
    RootsIn(us);
    ghost var s := Roots(us);
    hide KidsNodes, Inner, Nodes;
    if head != null {
      assert head == s[0] && head !in Inner(us);
      head.prev := last;
    }
    forall i | 0 <= i < |s| - 1 ensures s[i].next == s[i + 1] && s[i + 1].prev == s[i] {
      assert old(s[i].next == s[i + 1] && s[i + 1].prev == s[i]);
    }
  }
}
