/**
 cJSON_Duplicate: a deep copy made of fresh items, with full child lists and the same value. The
 source may have lost the head's prev in any of its lists; the copy has them all.
 */
module JsonDuplicate {
  import opened Json
  import opened JsonList
  import opened JsonHeap

  /** The copy so far: newitem's children are the chain of copies up to `next`. */
  ghost predicate Partial(newitem: Item, next: Item?, us: seq<Tree>)
    reads newitem`child, Roots(us)`next, Roots(us)`prev
  {
    ChainTo(us, next) && newitem.child == if us == [] then null else us[0].item
  }

  /** The source's children are untouched as long as no item of theirs changes. */
  twostate lemma SourceKept(t: Tree)
    requires old(allocated(t)) && old(Source(t))
    requires old(allocated(t.item)) && t.item.child == old(t.item.child)
    requires forall o :: o in KidsNodes(t.kids) ==>
      old(allocated(o)) && o.child == old(o.child) && o.next == old(o.next) && o.prev == old(o.prev)
    ensures Source(t)
  {
    RootsIn(t.kids);
    var s := Roots(t.kids);
    forall i | 0 <= i < |s| - 1 ensures s[i].next == s[i + 1] && s[i + 1].prev == s[i] {
      assert old(s[i].next == s[i + 1] && s[i + 1].prev == s[i]);
    }
  }

  /** What the walk relies on: child lists without any demand on the head's prev. */
  ghost predicate Source(t: Tree)
    reads Nodes(t)`child, KidsNodes(t.kids)`next, KidsNodes(t.kids)`prev
  {
    RootsIn(t.kids);
    AreTrees(t.kids, false) && IsList(t.item.child, Roots(t.kids))
  }

  /** Crosswire one more copied child. */
  method LinkChild(newitem: Item, next: Item?, newchild: Item, ghost us: seq<Tree>, ghost u: Tree)
    requires AreTrees(us, true) && IsTree(u, true) && Nodes(u) !! KidsNodes(us)
    requires newitem !in KidsNodes(us) && newitem !in Nodes(u)
    requires u.item == newchild && newchild.next == null && Partial(newitem, next, us)
    modifies newitem`child, Roots(us)`next, newchild`prev
    ensures AreTrees(us + [u], true) && Partial(newitem, newchild, us + [u])
    ensures next != null ==> newitem.child == old(newitem.child)
  {
    AppendNodes(us, u);
    RootsIn(us);
    hide KidsNodes, Inner, Nodes;
    LinkItem(next, newchild, us, u);
    assert allocated(us + [u]) && allocated(KidsNodes(us + [u])) && allocated(Inner(us + [u]));
    if next == null {
      newitem.child := newchild;
    }
  }

  /** cJSON_Duplicate with recursion */
  method Duplicate(item: Item, ghost t: Tree) returns (newitem: Item, ghost u: Tree)
    requires IsTree(t, false) && t.item == item
    ensures u.item == newitem && IsTree(u, true) && SameValue(t, u) && fresh(Nodes(u))
    ensures newitem.next == null && newitem.prev == null
    decreases t
  {
    hide SameValue, Partial;
    assert allocated(t) && allocated(KidsNodes(t.kids));
    RootsIn(t.kids);
    newitem := new Item(item.key, item.content);
    assert Source(t);
    hide IsTree, AreTrees, IsRing, Source;
    var last;
    ghost var us;
    last, us := CopyChildren(item, newitem, t);
    RootsIn(us);
    CloseRing(newitem, last, us);
    u := Tree(newitem, us);
    SameTree(t, u);
  }

  lemma SameTree(t: Tree, u: Tree)
    requires t.item.key == u.item.key && t.item.content == u.item.content && |t.kids| == |u.kids|
    requires forall i :: 0 <= i < |u.kids| ==> SameValue(t.kids[i], u.kids[i])
    ensures SameValue(t, u)
  {
    SameKids(t.kids, u.kids);
  }

  /** The walk along the children of the source; the last copy comes back. */
  method CopyChildren(item: Item, newitem: Item, ghost t: Tree) returns (last: Item?, ghost us: seq<Tree>)
    requires Source(t) && item == t.item
    requires newitem !in KidsNodes(t.kids) && newitem != item && newitem.child == null
    modifies newitem`child
    ensures AreTrees(us, true) && Partial(newitem, last, us) && fresh(KidsNodes(us)) && newitem !in KidsNodes(us)
    ensures |us| == |t.kids| && forall i :: 0 <= i < |us| ==> SameValue(t.kids[i], us[i])
    decreases t, 1
  {
    hide IsTree, AreTrees, IsRing, Source, Partial, SameValue;
    assert allocated(t) && allocated(KidsNodes(t.kids));
    ghost var nodes := KidsNodes(t.kids);
    var child := item.child;
    var next: Item? := null;
    last := null;
    ghost var k: nat := 0;
    us := [];
    CopyBegins(newitem, t);
    while child != null
      invariant k <= |t.kids| && child == if k < |t.kids| then t.kids[k].item else null
      invariant Source(t)
      invariant |us| == k && AreTrees(us, true) && fresh(KidsNodes(us)) && newitem !in KidsNodes(us)
      invariant Partial(newitem, next, us) && last == next
      invariant forall i :: 0 <= i < k ==> SameValue(t.kids[i], us[i])
      decreases |t.kids| - k
    {
      RootsIn(us);
      assert KidsNodes(us) !! nodes && item !in KidsNodes(us);
      child, next, last, us := CopyChild(newitem, child, next, t, us, k);
      k := k + 1;
    }
  }

  lemma CopyBegins(newitem: Item, t: Tree)
    requires newitem.child == null && Source(t)
    ensures Partial(newitem, null, []) && AreTrees([], true)
    ensures t.item.child == if t.kids == [] then null else t.kids[0].item
  {
  }

  /** The head's prev is set to the last copy. */
  method CloseRing(newitem: Item, newchild: Item?, ghost us: seq<Tree>)
    requires AreTrees(us, true) && newitem !in KidsNodes(us) && Partial(newitem, newchild, us)
    modifies Roots(us)`prev
    ensures IsTree(Tree(newitem, us), true)
  {
    CloseChain(newitem.child, newchild, us);
  }

  /** One turn of the loop: copy a child and link the copy. */
  method CopyChild(newitem: Item, child: Item, next: Item?, ghost t: Tree, ghost us: seq<Tree>, ghost k: nat)
    returns (child': Item?, next': Item?, newchild: Item?, ghost us': seq<Tree>)
    requires Source(t) && k < |t.kids| && child == t.kids[k].item
    requires AreTrees(us, true) && newitem !in KidsNodes(us) && Partial(newitem, next, us)
    requires KidsNodes(t.kids) !! KidsNodes(us) && t.item !in KidsNodes(us)
    requires newitem !in KidsNodes(t.kids) && newitem != t.item
    modifies newitem`child, Roots(us)`next
    ensures child' == if k + 1 < |t.kids| then t.kids[k + 1].item else null
    ensures |us'| == |us| + 1 && us'[..|us|] == us && AreTrees(us', true) && SameValue(t.kids[k], us'[|us|])
    ensures newitem !in KidsNodes(us') && forall o :: o in KidsNodes(us') ==> o in KidsNodes(us) || fresh(o)
    ensures Partial(newitem, next', us') && newchild == next'
    ensures Source(t)
    decreases t, 0
  {
    hide AreTrees, IsTree, IsRing, Source, Partial, SameValue;
    ghost var w;
    newchild, w := DuplicateChild(newitem, child, next, t, us, k);
    assert allocated(t) && allocated(KidsNodes(t.kids));
    RootsIn(us);
    ghost var s := Roots(us);
    assert newchild in Nodes(w) && newchild !in KidsNodes(t.kids) && newchild != t.item;
    assert forall i :: 0 <= i < |s| ==> s[i] !in KidsNodes(t.kids) && s[i] != t.item;
    label Before:
    LinkChild(newitem, next, newchild, us, w);
    SourceKept@Before(t);
    AppendNodes(us, w);
    us' := us + [w];
    next' := newchild;
    ListNext(t, k);
    child' := child.next;
  }

  /** Copying a child changes neither the source nor the copies made before. */
  method DuplicateChild(ghost newitem: Item, child: Item, ghost next: Item?, ghost t: Tree, ghost us: seq<Tree>, ghost k: nat)
    returns (newchild: Item, ghost w: Tree)
    requires Source(t) && k < |t.kids| && child == t.kids[k].item
    requires AreTrees(us, true) && Partial(newitem, next, us)
    ensures w.item == newchild && IsTree(w, true) && SameValue(t.kids[k], w) && fresh(Nodes(w)) && newchild.next == null
    ensures Nodes(w) !! KidsNodes(us) && newitem !in Nodes(w) && Nodes(w) !! Nodes(t)
    ensures AreTrees(us, true) && Partial(newitem, next, us)
    ensures Source(t)
    decreases t, -1
  {
    assert allocated(t) && allocated(KidsNodes(t.kids)) && allocated(us) && allocated(KidsNodes(us)) && allocated(Inner(us));
    RootsIn(us);
    RootsIn(t.kids);
    KidTree(t.kids, k, false);
    newchild, w := Duplicate(child, t.kids[k]);
  }

  lemma ListNext(t: Tree, k: nat)
    requires Source(t) && k < |t.kids|
    ensures t.kids[k].item.next == if k + 1 < |t.kids| then t.kids[k + 1].item else null
  {
    NextOf(Roots(t.kids), k);
  }
}
