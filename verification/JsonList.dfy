/**
 Child lists on the heap: doubly linked items with the convention that the head's prev is the
 tail. Appending, inserting, detaching and replacing refine the operations on sequences, and
 sort_list is an in-place mergesort. A list is described by the sequence of its items.
 */
module JsonList {
  import opened Json
  import opened JsonTree

  class Item {
    var next: Item?
    var prev: Item?
    var child: Item?
    const key: string
    /** Type and scalar value; a container without its children. */
    const content: Json

    /** cJSON_New_Item, with its name and content */
    constructor (key: string, content: Json)
      ensures next == null && prev == null && child == null && this.key == key && this.content == content
    {
      this.key, this.content := key, content;
      next, prev, child := null, null, null;
    }
  }

  predicate Distinct(s: seq<Item>)
  {
    forall i, j :: 0 <= i < j < |s| ==> s[i] != s[j]
  }

  /** next and prev are inverse along the sequence. */
  ghost predicate Chained(s: seq<Item>)
    reads s`next, s`prev
  {
    forall i {:trigger s[i].next} :: 0 <= i < |s| - 1 ==> s[i].next == s[i + 1] && s[i + 1].prev == s[i]
  }

  /** A list as sort_list sees it: nothing is said about the head's prev. */
  ghost predicate IsList(head: Item?, s: seq<Item>)
    reads s`next, s`prev
  {
    && Distinct(s) && Chained(s)
    && (if s == [] then head == null else head == s[0] && s[|s| - 1].next == null)
  }

  /** A full child list: the head's prev is the tail. */
  ghost predicate IsRing(head: Item?, s: seq<Item>)
    reads s`next, s`prev
  {
    IsList(head, s) && (s != [] ==> s[0].prev == s[|s| - 1])
  }

  /**
   add_item_to_array: appends in constant time through the head's prev. Where sort_list has left
   that link behind, the items after the one it names are lost; where it is missing, nothing is
   changed. Success is reported all the same.
   */
  method AddItemToArray(parent: Item, item: Item, ghost s: seq<Item>, ghost m: nat) returns (ok: bool)
    requires IsList(parent.child, s) && parent !in s && item !in s && parent != item
    requires s != [] && s[0].prev != null ==> m < |s| && s[0].prev == s[m]
    requires item.next == null
    modifies parent`child, item`next, item`prev, s`next, s`prev
    ensures ok
    ensures old(IsRing(parent.child, s)) ==> IsRing(parent.child, s + [item])
    ensures s != [] && old(s[0].prev) != null ==> IsRing(parent.child, s[..m + 1] + [item])
    ensures s != [] && old(s[0].prev) == null ==>
              IsList(parent.child, s) && parent.child == old(parent.child)
              && forall x :: x in s + [item] ==> x.next == old(x.next) && x.prev == old(x.prev)
  {
    var child := parent.child;
    if child == null {
      parent.child := item;
      item.prev := item;
      item.next := null;
    } else {
      if child.prev != null {
        var tail := child.prev;
        tail.next := item;
        item.prev := tail;
        parent.child.prev := item;
        ghost var r := s[..m + 1] + [item];
        forall i | 0 <= i < |r| - 1 ensures r[i].next == r[i + 1] && r[i + 1].prev == r[i] {
          if i < m { assert old(s[i].next == s[i + 1] && s[i + 1].prev == s[i]); }
        }
        assert m == |s| - 1 ==> r == s + [item];
      }
    }
    return true;
  }

  /** get_array_item: walk along next. */
  method GetArrayItem(parent: Item, which: nat, ghost s: seq<Item>) returns (item: Item?)
    requires IsList(parent.child, s)
    ensures item == if which < |s| then s[which] else null
  {
    var child, left := parent.child, which;
    ghost var k: nat := 0;
    while child != null && left > 0
      invariant k <= |s| && k + left == which && left >= 0
      invariant child == if k < |s| then s[k] else null
      decreases left
    {
      assert k < |s| - 1 ==> s[k].next == s[k + 1];
      left := left - 1;
      child := child.next;
      k := k + 1;
    }
    return child;
  }

  /** cJSON_DetachItemViaPointer on an item of the list */
  method DetachItemViaPointer(parent: Item, item: Item, ghost s: seq<Item>, ghost k: nat)
    requires IsRing(parent.child, s) && parent !in s && k < |s| && item == s[k]
    modifies parent`child, s`next, s`prev
    ensures IsRing(parent.child, RemoveAt(s, k)) && item.next == null && item.prev == null
  {
    ghost var r := RemoveAt(s, k);
    ghost var n := |s| - 1;
    assert k < n ==> s[k].next == s[k + 1];
    assert 0 < k ==> s[k - 1].next == s[k];
    assert 0 < n ==> s[n - 1].next == s[n];
    if item != parent.child {
      item.prev.next := item.next;
    }
    if item.next != null {
      item.next.prev := item.prev;
    }
    if item == parent.child {
      parent.child := item.next;
    } else if item.next == null {
      parent.child.prev := item.prev;
    }
    item.prev := null;
    item.next := null;
    forall i | 0 <= i < |r| - 1 ensures r[i].next == r[i + 1] && r[i + 1].prev == r[i] {
      var a := if i < k then i else i + 1;
      assert r[i] == s[a];
      assert old(s[a].next == s[a + 1] && s[a + 1].prev == s[a]);
      if i + 1 < k { assert r[i + 1] == s[i + 1]; }
    }
  }

  /** detach_item_from_array; null when there is no such item */
  method DetachItemFromArray(parent: Item, which: nat, ghost s: seq<Item>) returns (item: Item?)
    requires IsRing(parent.child, s) && parent !in s
    modifies parent`child, s
    ensures item == if which < |s| then s[which] else null
    ensures which < |s| ==> IsRing(parent.child, RemoveAt(s, which)) && item.next == null && item.prev == null
    ensures which >= |s| ==> IsRing(parent.child, s) && parent.child == old(parent.child)
    ensures forall x :: x in s ==> x.child == old(x.child)
  {
    item := GetArrayItem(parent, which, s);
    if item == null {
      return;
    }
    DetachItemViaPointer(parent, item, s, which);
  }

  /** insert_item_in_array: in front of position `which`, or at the end; false beyond the end */
  method InsertItemInArray(parent: Item, which: nat, item: Item, ghost s: seq<Item>) returns (ok: bool)
    requires IsRing(parent.child, s) && parent !in s && item !in s && parent != item && item.next == null
    modifies parent`child, item, s
    ensures ok == (which <= |s|)
    ensures ok ==> IsRing(parent.child, InsertAt(s, which, item))
    ensures !ok ==> IsRing(parent.child, s) && parent.child == old(parent.child)
    ensures forall x :: x in s + [item] ==> x.child == old(x.child)
  {
    var child, left := parent.child, which;
    ghost var k: nat := 0;
    while child != null && left > 0
      invariant k <= |s| && k + left == which && left >= 0
      invariant child == if k < |s| then s[k] else null
      decreases left
    {
      assert k < |s| - 1 ==> s[k].next == s[k + 1];
      child := child.next;
      left := left - 1;
      k := k + 1;
    }
    if left > 0 {
      return false;
    }
    if child == null {
      ok := AddItemToArray(parent, item, s, if s == [] then 0 else |s| - 1);
      assert InsertAt(s, which, item) == s + [item];
      return true;
    }
    InsertBefore(parent, child, item, s, which);
    return true;
  }

  lemma InsertIndex(s: seq<Item>, k: nat, item: Item)
    requires k <= |s|
    ensures var r := InsertAt(s, k, item);
      forall i :: 0 <= i < |r| ==> r[i] == if i < k then s[i] else if i == k then item else s[i - 1]
  {
  }

  /** The linking part of an insertion. */
  method InsertBefore(parent: Item, child: Item, item: Item, ghost s: seq<Item>, ghost k: nat)
    requires IsRing(parent.child, s) && parent !in s && item !in s && parent != item && k < |s| && child == s[k]
    modifies parent`child, item, s
    ensures IsRing(parent.child, InsertAt(s, k, item))
    ensures forall x :: x in s + [item] ==> x.child == old(x.child)
  {
    ghost var r := InsertAt(s, k, item);
    InsertIndex(s, k, item);
    hide InsertAt;
    assert 0 < k ==> s[k - 1].next == s[k];
    item.next := child;
    item.prev := child.prev;
    child.prev := item;
    if child == parent.child {
      parent.child := item;
    } else {
      item.prev.next := item;
    }
    forall i | 0 <= i < |r| - 1 ensures r[i].next == r[i + 1] && r[i + 1].prev == r[i] {
      if i + 1 < k {
        assert old(s[i].next == s[i + 1] && s[i + 1].prev == s[i]);
      } else if i > k {
        assert old(s[i - 1].next == s[i] && s[i].prev == s[i - 1]);
      }
    }
  }

  /** cJSON_InsertItemInArray: like insert_item_in_array, but positions beyond the end append. */
  method InsertOrAppendItem(parent: Item, which: int, newitem: Item, ghost s: seq<Item>) returns (ok: bool)
    requires IsRing(parent.child, s) && parent !in s && newitem !in s && parent != newitem && newitem.next == null
    modifies parent`child, newitem, s
    ensures ok == (which >= 0)
    ensures ok ==> IsRing(parent.child, InsertAt(s, if which < |s| then which else |s|, newitem))
    ensures !ok ==> IsRing(parent.child, s) && parent.child == old(parent.child)
    ensures forall x :: x in s + [newitem] ==> x.child == old(x.child)
  {
    if which < 0 {
      return false;
    }
    var afterInserted := GetArrayItem(parent, which, s);
    if afterInserted == null {
      ok := AddItemToArray(parent, newitem, s, if s == [] then 0 else |s| - 1);
      assert InsertAt(s, |s|, newitem) == s + [newitem];
      return;
    }
    assert which > 0 ==> s[which - 1].next == s[which];
    if afterInserted != parent.child && afterInserted.prev == null {
      return false;
    }
    InsertBefore(parent, afterInserted, newitem, s, which);
    return true;
  }

  /** cJSON_ReplaceItemViaPointer; the replaced item is left without links */
  method ReplaceItemViaPointer(parent: Item, item: Item, replacement: Item, ghost s: seq<Item>, ghost k: nat)
    requires IsRing(parent.child, s) && parent !in s && k < |s| && item == s[k]
    requires replacement == item || (replacement !in s && replacement != parent)
    modifies parent`child, replacement, s
    ensures IsRing(parent.child, s[k := replacement])
    ensures replacement != item ==> item.next == null && item.prev == null
    ensures forall x :: x in s + [replacement] ==> x.child == old(x.child)
  {
    if replacement == item {
      assert s[k := replacement] == s;
      return;
    }
    ghost var r := s[k := replacement];
    ghost var n := |s| - 1;
    assert k < n ==> s[k].next == s[k + 1];
    assert 0 < k ==> s[k - 1].next == s[k];
    assert 0 < n ==> s[n - 1].next == s[n];
    replacement.next := item.next;
    replacement.prev := item.prev;
    if replacement.next != null {
      replacement.next.prev := replacement;
    }
    if parent.child == item {
      if parent.child.prev == parent.child {
        replacement.prev := replacement;
      }
      parent.child := replacement;
    } else {
      if replacement.prev != null {
        replacement.prev.next := replacement;
      }
      if replacement.next == null {
        parent.child.prev := replacement;
      }
    }
    item.next := null;
    item.prev := null;
    forall i | 0 <= i < |r| - 1 ensures r[i].next == r[i + 1] && r[i + 1].prev == r[i] {
      assert old(s[i].next == s[i + 1] && s[i + 1].prev == s[i]);
    }
  }

  // ---- sort_list ----

  predicate Sorted(s: seq<Item>, cs: bool)
  {
    forall i, j :: 0 <= i < j < |s| ==> Compare(s[i].key, s[j].key, cs) <= 0
  }

  /** Every key of a is at most every key of b. */
  predicate Under(a: seq<Item>, b: seq<Item>, cs: bool)
  {
    forall i, j :: 0 <= i < |a| && 0 <= j < |b| ==> Compare(a[i].key, b[j].key, cs) <= 0
  }

  /** What the merge loop keeps: a merged front and two sorted rests, made of the same items. */
  ghost predicate Merging(front: seq<Item>, a: seq<Item>, b: seq<Item>, all: multiset<Item>, cs: bool)
  {
    && multiset(front) + multiset(a) + multiset(b) == all
    && Distinct(front + a + b)
    && Sorted(front, cs) && Sorted(a, cs) && Sorted(b, cs)
    && Under(front, a, cs) && Under(front, b, cs)
  }

  /** Moving the smaller head to the front. */
  lemma TakeHead(front: seq<Item>, a: seq<Item>, b: seq<Item>, all: multiset<Item>, cs: bool)
    requires a != [] && Merging(front, a, b, all, cs)
    requires b != [] ==> Compare(a[0].key, b[0].key, cs) <= 0
    ensures Merging(front + [a[0]], a[1..], b, all, cs)
  {
    TakeSorted(front, a, b, cs);
    TakeItems(front, a, b, all);
    hide Sorted, Under, Distinct;
  }

  lemma TakeItems(front: seq<Item>, a: seq<Item>, b: seq<Item>, all: multiset<Item>)
    requires a != [] && multiset(front) + multiset(a) + multiset(b) == all && Distinct(front + a + b)
    ensures multiset(front + [a[0]]) + multiset(a[1..]) + multiset(b) == all && Distinct(front + [a[0]] + a[1..] + b)
  {
    assert a == [a[0]] + a[1..];
    assert front + a + b == front + [a[0]] + a[1..] + b;
  }

  lemma TakeSorted(front: seq<Item>, a: seq<Item>, b: seq<Item>, cs: bool)
    requires a != [] && Sorted(front, cs) && Sorted(a, cs) && Sorted(b, cs) && Under(front, a, cs) && Under(front, b, cs)
    requires b != [] ==> Compare(a[0].key, b[0].key, cs) <= 0
    ensures var f := front + [a[0]];
      Sorted(f, cs) && Sorted(a[1..], cs) && Under(f, a[1..], cs) && Under(f, b, cs)
  {
    hide Compare;
    var x := a[0];
    forall j | 0 <= j < |b| ensures Compare(x.key, b[j].key, cs) <= 0 {
      if j > 0 { CompareTrans(x.key, b[0].key, b[j].key, cs); }
    }
  }

  lemma SwapRests(front: seq<Item>, a: seq<Item>, b: seq<Item>, all: multiset<Item>, cs: bool)
    requires Merging(front, a, b, all, cs)
    ensures Merging(front, b, a, all, cs)
  {
    var s, r := front + a + b, front + b + a;
    forall i, j | 0 <= i < j < |r| ensures r[i] != r[j] {
      var f, m, n := |front|, |a|, |b|;
      var i' := if i < f then i else if i < f + n then i + m else i - n;
      var j' := if j < f then j else if j < f + n then j + m else j - n;
      assert s[i'] == r[i] && s[j'] == r[j];
    }
  }

  lemma AppendSorted(front: seq<Item>, rest: seq<Item>, all: multiset<Item>, cs: bool)
    requires Merging(front, rest, [], all, cs)
    ensures multiset(front + rest) == all && Distinct(front + rest) && Sorted(front + rest, cs)
  {
    hide Compare;
    assert front + rest + [] == front + rest;
  }

  lemma DistinctParts(r: seq<Item>, a: seq<Item>, b: seq<Item>)
    requires Distinct(r + a + b)
    ensures Distinct(r) && Distinct(a) && Distinct(b) && Distinct(r + a)
    ensures forall i, j :: 0 <= i < |r| && 0 <= j < |a| ==> r[i] != a[j]
    ensures forall i, j :: 0 <= i < |r| && 0 <= j < |b| ==> r[i] != b[j]
    ensures forall i, j :: 0 <= i < |a| && 0 <= j < |b| ==> a[i] != b[j]
  {
    var s := r + a + b;
    assert forall i :: 0 <= i < |r| ==> s[i] == r[i];
    assert forall i :: 0 <= i < |a| ==> s[|r| + i] == a[i];
    assert forall i :: 0 <= i < |b| ==> s[|r| + |a| + i] == b[i];
    assert forall i :: 0 <= i < |r + a| ==> s[i] == (r + a)[i];
  }

  /** Hang the head of list a behind the chain r; the rest of a and the other list stay as they are. */
  method Attach(tail: Item, smaller: Item, ghost other: Item?, ghost r: seq<Item>, ghost a: seq<Item>, ghost b: seq<Item>)
    requires r != [] && tail == r[|r| - 1] && Chained(r) && IsList(smaller, a) && IsList(other, b)
    requires Distinct(r + a + b)
    modifies tail`next, smaller`prev
    ensures Chained(r + [smaller]) && IsList(smaller.next, a[1..]) && IsList(other, b) && IsList(smaller, a)
    ensures r[0].prev == old(r[0].prev)
  {
    DistinctParts(r, a, b);
    tail.next := smaller;
    smaller.prev := tail;
    ghost var r' := r + [smaller];
    assert |a| > 1 ==> a[0].next == a[1];
    forall i | 0 <= i < |r'| - 1 ensures r'[i].next == r'[i + 1] && r'[i + 1].prev == r'[i] {
      if i + 1 < |r| { assert old(r[i].next == r[i + 1] && r[i + 1].prev == r[i]); }
    }
    forall i | 0 <= i < |a| - 1 ensures a[i].next == a[i + 1] && a[i + 1].prev == a[i] {
      assert old(a[i].next == a[i + 1] && a[i + 1].prev == a[i]);
    }
    ghost var a' := a[1..];
    forall i | 0 <= i < |a'| - 1 ensures a'[i].next == a'[i + 1] && a'[i + 1].prev == a'[i] {
      assert a'[i] == a[i + 1] && a'[i + 1] == a[i + 2];
      assert a[i + 1].next == a[i + 2];
    }
    forall i | 0 <= i < |b| - 1 ensures b[i].next == b[i + 1] && b[i + 1].prev == b[i] {
      assert old(b[i].next == b[i + 1] && b[i + 1].prev == b[i]);
    }
  }

  lemma TailList(head: Item, a: seq<Item>)
    requires IsList(head, a)
    ensures IsList(head.next, a[1..])
  {
    assert |a| > 1 ==> a[0].next == a[1];
    var a' := a[1..];
    forall i | 0 <= i < |a'| - 1 ensures a'[i].next == a'[i + 1] && a'[i + 1].prev == a'[i] {
      assert a[i + 1].next == a[i + 2];
    }
  }

  /** The chain r and the list behind it, once linked, are one list. */
  lemma JoinedList(r: seq<Item>, a: seq<Item>)
    requires r != [] && a != [] && Chained(r + [a[0]]) && IsList(a[0], a) && Distinct(r + a)
    ensures IsList(r[0], r + a)
  {
    var s, c := r + a, r + [a[0]];
    forall i | 0 <= i < |s| - 1 ensures s[i].next == s[i + 1] && s[i + 1].prev == s[i] {
      if i < |r| {
        assert s[i] == c[i] && s[i + 1] == c[i + 1];
        assert c[i].next == c[i + 1];
      } else {
        assert s[i] == a[i - |r|] && s[i + 1] == a[i - |r| + 1];
        assert a[i - |r|].next == a[i - |r| + 1];
      }
    }
  }

  /** The merge loop of sort_list. */
  method MergeLists(head1: Item?, head2: Item?, cs: bool, ghost s1: seq<Item>, ghost s2: seq<Item>)
    returns (result: Item?, ghost r: seq<Item>)
    requires IsList(head1, s1) && IsList(head2, s2) && Distinct(s1 + s2) && Sorted(s1, cs) && Sorted(s2, cs)
    requires s1 != [] && s2 != []
    modifies s1`next, s1`prev, s2`next, s2`prev
    ensures IsList(result, r) && Sorted(r, cs) && multiset(r) == multiset(s1) + multiset(s2)
    ensures result != null && (result == head1 || result == head2) && result.prev == old(result.prev)
  {
    hide Compare, Sorted, Under, Merging;
    var first, second := head1, head2;
    result := null;
    var tail: Item? := null;
    ghost var a, b := s1, s2;
    ghost var all := multiset(s1) + multiset(s2);
    r := [];
    MergeBegins(s1, s2, cs);
    while first != null && second != null
      invariant Merging(r, a, b, all, cs)
      invariant IsList(first, a) && IsList(second, b) && Chained(r)
      invariant if r == [] then result == null && tail == null else result == r[0] && tail == r[|r| - 1]
      invariant (r == [] ==> a != [] && b != [] && first == head1 && second == head2) && (a != [] || b != [])
      invariant result != null ==> (result == head1 || result == head2) && result.prev == old(result.prev)
      invariant r == [] ==> first.prev == old(first.prev) && second.prev == old(second.prev)
      decreases |a| + |b|
    {
      hide Distinct;
      ItemsIn(r, a, b, s1, s2, all, cs);
      FirstsDiffer(r, a, b);
      assert a[0] in a && b[0] in b;
      var smaller: Item;
      if Compare(first.key, second.key, cs) < 0 {
        smaller := first;
        TakeHead(r, a, b, all, cs);
        if result == null {
          TailList(smaller, a);
        } else {
          Attach(tail, smaller, second, r, a, b);
        }
        a := a[1..];
      } else {
        smaller := second;
        CompareFlip(first.key, second.key, cs);
        SwapRests(r, a, b, all, cs);
        TakeHead(r, b, a, all, cs);
        SwapRests(r + [b[0]], b[1..], a, all, cs);
        SwapDistinct(r, a, b);
        if result == null {
          TailList(smaller, b);
        } else {
          Attach(tail, smaller, first, r, b, a);
        }
        b := b[1..];
      }
      if result == null {
        result := smaller;
      }
      tail := smaller;
      r := r + [smaller];
      if first == smaller {
        first := first.next;
      } else {
        second := second.next;
      }
    }
    result, r := AppendRest(result, tail, first, second, cs, r, a, b, s1, s2);
  }

  /** Both rests are done but one, which is appended whole. */
  method AppendRest(head: Item?, tail: Item?, first: Item?, second: Item?, cs: bool,
                    ghost front: seq<Item>, ghost a: seq<Item>, ghost b: seq<Item>, ghost s1: seq<Item>, ghost s2: seq<Item>)
    returns (result: Item?, ghost r: seq<Item>)
    requires Merging(front, a, b, multiset(s1) + multiset(s2), cs)
    requires IsList(first, a) && IsList(second, b) && Chained(front)
    requires front != [] && head == front[0] && tail == front[|front| - 1]
    requires (a == []) != (b == [])
    modifies s1`next, s1`prev, s2`next, s2`prev
    ensures IsList(result, r) && Sorted(r, cs) && multiset(r) == multiset(s1) + multiset(s2)
    ensures result == head && result.prev == old(result.prev)
  {
    hide Compare, Sorted, Under, Merging;
    ghost var all := multiset(s1) + multiset(s2);
    ghost var rest := if first != null then a else b;
    result := head;
    ItemsIn(front, a, b, s1, s2, all, cs);
    assert front[|front| - 1] in front;
    assert (a != [] ==> a[0] in a) && (b != [] ==> b[0] in b);
    if first != null {
      Attach(tail, first, null, front, a, []);
    }
    if second != null {
      SwapRests(front, a, b, all, cs);
      SwapDistinct(front, a, b);
      Attach(tail, second, null, front, b, []);
    }
    AppendSorted(front, rest, all, cs);
    JoinedList(front, rest);
    r := front + rest;
  }

  lemma FirstsDiffer(r: seq<Item>, a: seq<Item>, b: seq<Item>)
    requires Distinct(r + a + b)
    ensures a != [] && b != [] ==> a[0] != b[0]
    ensures r != [] ==> r[|r| - 1] in r && r[|r| - 1] !in a && r[|r| - 1] !in b
  {
    DistinctParts(r, a, b);
  }

  lemma MergeBegins(s1: seq<Item>, s2: seq<Item>, cs: bool)
    requires Distinct(s1 + s2) && Sorted(s1, cs) && Sorted(s2, cs)
    ensures Merging([], s1, s2, multiset(s1) + multiset(s2), cs)
  {
    assert [] + s1 + s2 == s1 + s2;
  }

  lemma SwapDistinct(r: seq<Item>, a: seq<Item>, b: seq<Item>)
    requires Distinct(r + a + b)
    ensures Distinct(r + b + a)
  {
    DistinctParts(r, a, b);
  }

  /** The items in play are those of the two lists. */
  lemma ItemsIn(r: seq<Item>, a: seq<Item>, b: seq<Item>, s1: seq<Item>, s2: seq<Item>, all: multiset<Item>, cs: bool)
    requires Merging(r, a, b, all, cs) && all == multiset(s1) + multiset(s2)
    ensures forall x :: x in r || x in a || x in b ==> x in s1 || x in s2
    ensures Distinct(r + a + b)
  {
    forall x | x in r || x in a || x in b ensures x in s1 || x in s2 {
      assert x in multiset(r) || x in multiset(a) || x in multiset(b);
      assert x in all;
    }
  }

  /** The pass that leaves a list alone when it is strictly ascending already. */
  method IsAscending(list: Item, cs: bool, ghost s: seq<Item>) returns (yes: bool)
    requires IsList(list, s)
    ensures yes ==> Sorted(s, cs)
    ensures yes == forall i :: 0 <= i < |s| - 1 ==> Compare(s[i].key, s[i + 1].key, cs) < 0
  {
    hide Compare;
    var current: Item? := list;
    ghost var k: nat := 0;
    while current != null && current.next != null && Compare(current.key, current.next.key, cs) < 0
      invariant k < |s| && current == s[k]
      invariant forall i :: 0 <= i < k ==> Compare(s[i].key, s[i + 1].key, cs) < 0
      decreases |s| - k
    {
      assert k < |s| - 1 ==> s[k].next == s[k + 1];
      current := current.next;
      k := k + 1;
    }
    assert k < |s| - 1 ==> s[k].next == s[k + 1];
    yes := current == null || current.next == null;
    if yes { AdjacentSorted(s, cs); }
  }

  lemma {:induction false} AdjacentSorted(s: seq<Item>, cs: bool)
    requires forall i :: 0 <= i < |s| - 1 ==> Compare(s[i].key, s[i + 1].key, cs) < 0
    ensures Sorted(s, cs)
  {
    if |s| > 1 {
      var t := s[1..];
      forall i | 0 <= i < |t| - 1 ensures Compare(t[i].key, t[i + 1].key, cs) < 0 {
        assert t[i] == s[i + 1] && t[i + 1] == s[i + 2];
      }
      AdjacentSorted(t, cs);
      forall j | 1 <= j < |s| ensures Compare(s[0].key, s[j].key, cs) <= 0 {
        if j > 1 {
          assert Compare(t[0].key, t[j - 1].key, cs) <= 0;
          CompareTrans(s[0].key, s[1].key, s[j].key, cs);
        }
      }
      forall i, j | 0 <= i < j < |s| ensures Compare(s[i].key, s[j].key, cs) <= 0 {
        if i > 0 { assert t[i - 1] == s[i] && t[j - 1] == s[j]; }
      }
    }
  }

  lemma NextOf(s: seq<Item>, k: nat)
    requires Chained(s) && k < |s| && (s[|s| - 1].next == null)
    ensures s[k].next == if k + 1 < |s| then s[k + 1] else null
    ensures k + 1 < |s| ==> s[k + 1].prev == s[k]
  {
  }

  /** Two pointers, one twice as fast, find the middle. */
  method FindMiddle(list: Item, ghost s: seq<Item>) returns (second: Item, ghost mid: nat)
    requires IsList(list, s) && |s| >= 2
    ensures second == s[(|s| + 1) / 2]
    ensures 0 < mid < |s| && second == s[mid]
  {
    hide Chained, Distinct;
    second := list;
    var current: Item? := list;
    ghost var k: nat := 0;
    ghost var j: nat := 0;
    while current != null
      invariant k < |s| && j <= |s| && (j == 2 * k || (j == |s| && j + 1 == 2 * k))
      invariant current == if j < |s| then s[j] else null
      invariant second == s[k]
      decreases |s| - j
    {
      NextOf(s, k);
      NextOf(s, j);
      second := second.next;
      current := current.next;
      k := k + 1;
      j := j + 1;
      if current != null {
        NextOf(s, j);
        current := current.next;
        j := j + 1;
      }
    }
    mid := k;
  }

  /** The list is cut in front of the item at position mid. */
  method Cut(list: Item, second: Item, ghost s: seq<Item>, ghost mid: nat)
    requires IsList(list, s) && 0 < mid < |s| && second == s[mid]
    modifies s`next, s`prev
    ensures IsList(list, s[..mid]) && IsList(second, s[mid..])
    ensures second.prev == null && list.prev == old(list.prev)
  {
    NextOf(s, mid - 1);
    ghost var a, b := s[..mid], s[mid..];
    assert Distinct(a) && Distinct(b);
    assert |b| == |s| - mid && b[|b| - 1] == s[|s| - 1] && a[|a| - 1] == s[mid - 1];
    if second.prev != null {
      second.prev.next := null;
      second.prev := null;
    }
    assert a[|a| - 1].next == null && b[|b| - 1].next == null;
    forall i | 0 <= i < |a| - 1 ensures a[i].next == a[i + 1] && a[i + 1].prev == a[i] {
      assert a[i] == s[i] && a[i + 1] == s[i + 1];
      assert old(s[i].next == s[i + 1] && s[i + 1].prev == s[i]);
    }
    forall i | 0 <= i < |b| - 1 ensures b[i].next == b[i + 1] && b[i + 1].prev == b[i] {
      assert b[i] == s[mid + i] && b[i + 1] == s[mid + i + 1];
      assert old(s[mid + i].next == s[mid + i + 1] && s[mid + i + 1].prev == s[mid + i]);
    }
  }

  /** What sorting leaves behind the head: its old prev if it stays the head, nothing otherwise. */
  ghost predicate HeadPrev(result: Item?, list: Item?, prev: Item?)
    reads result
  {
    result != null ==> result.prev == if result == list then prev else null
  }

  ghost function PrevOf(list: Item?): Item?
    reads list
  {
    if list == null then null else list.prev
  }

  /**
   sort_list: terminates on every list and returns the same items in nondescending key order,
   with prev the inverse of next; the prev of the head is not made to name the tail.
   */
  method SortList(list: Item?, cs: bool, ghost s: seq<Item>) returns (result: Item?, ghost r: seq<Item>)
    requires IsList(list, s)
    modifies s`next, s`prev
    ensures IsList(result, r) && multiset(r) == multiset(s) && Sorted(r, cs)
    ensures HeadPrev(result, list, old(PrevOf(list)))
    decreases |s|, 1
  {
    hide Sorted, IsList, Distinct;
    if list == null {
      ShortSorted(list, s, cs);
      return list, s;
    }
    HeadIn(list, s);
    if list.next == null {
      ShortSorted(list, s, cs);
      return list, s;
    }
    LongList(list, s);
    var ascending := IsAscending(list, cs, s);
    if ascending {
      return list, s;
    }
    var second: Item?;
    ghost var mid;
    second, mid := FindMiddle(list, s);
    Cut(list, second, s, mid);
    result, r := SortHalves(list, second, cs, s, mid);
  }

  /** The recursive calls and the merge. */
  method SortHalves(list: Item, second: Item, cs: bool, ghost s: seq<Item>, ghost mid: nat)
    returns (result: Item?, ghost r: seq<Item>)
    requires 0 < mid < |s| && Distinct(s) && IsList(list, s[..mid]) && IsList(second, s[mid..]) && second.prev == null
    modifies s`next, s`prev
    ensures IsList(result, r) && multiset(r) == multiset(s) && Sorted(r, cs)
    ensures HeadPrev(result, list, old(PrevOf(list)))
    decreases |s|, 0
  {
    hide Sorted, Distinct;
    ghost var a, b := s[..mid], s[mid..];
    assert s == a + b;
    HalvesApart(s, mid);
    assert list in a;
    hide IsList;
    var first, other;
    ghost var a', b';
    first, a' := SortApart(list, cs, a, second, b);
    other, b' := SortApart(second, cs, b, first, a');
    assert other != null ==> other in b by { HeadOf(other, b'); }
    result, r := MergeWithin(first, other, cs, a', b', s, mid);
  }

  lemma HeadOf(list: Item?, s: seq<Item>)
    requires IsList(list, s)
    ensures list != null ==> list in s
  {
  }

  /** The merge of the sorted halves, on the items of s only. */
  method MergeWithin(first: Item?, second: Item?, cs: bool, ghost a: seq<Item>, ghost b: seq<Item>, ghost s: seq<Item>, ghost mid: nat)
    returns (result: Item?, ghost r: seq<Item>)
    requires Distinct(s) && 0 < mid < |s| && multiset(a) == multiset(s[..mid]) && multiset(b) == multiset(s[mid..])
    requires IsList(first, a) && IsList(second, b) && Sorted(a, cs) && Sorted(b, cs)
    modifies s`next, s`prev
    ensures IsList(result, r) && multiset(r) == multiset(s) && Sorted(r, cs)
    ensures result != null && (result == first || result == second) && result.prev == old(result.prev)
  {
    hide Sorted, IsList, Distinct;
    SameItems(a, s[..mid]);
    SameItems(b, s[mid..]);
    HalvesApart(s, mid);
    ListDistinct(first, a);
    ListDistinct(second, b);
    StillApart(s[..mid], s[mid..], a, b);
    assert s == s[..mid] + s[mid..];
    assert multiset(s) == multiset(a) + multiset(b);
    forall i | 0 <= i < |a| ensures exists j :: 0 <= j < |s| && s[j] == a[i] { assert a[i] in s[..mid]; }
    forall i | 0 <= i < |b| ensures exists j :: 0 <= j < |s| && s[j] == b[i] { assert b[i] in s[mid..]; }
    result, r := MergeLists(first, second, cs, a, b);
  }

  /** Sorting one list leaves a list of other items as it is. */
  method SortApart(list: Item?, cs: bool, ghost s: seq<Item>, ghost other: Item?, ghost b: seq<Item>)
    returns (result: Item?, ghost r: seq<Item>)
    requires IsList(list, s) && IsList(other, b) && forall x :: x in s ==> x !in b
    modifies s`next, s`prev
    ensures IsList(result, r) && multiset(r) == multiset(s) && Sorted(r, cs) && IsList(other, b)
    ensures |r| == |s| && forall x :: x in r <==> x in s
    ensures HeadPrev(result, list, old(PrevOf(list))) && PrevOf(other) == old(PrevOf(other))
    decreases |s|, 2
  {
    hide Sorted;
    result, r := SortList(list, cs, s);
    SameItems(s, r);
    forall i | 0 <= i < |b| ensures b[i].next == old(b[i].next) && b[i].prev == old(b[i].prev) {
      assert b[i] in b && b[i] !in s;
    }
    forall i | 0 <= i < |b| - 1 ensures b[i].next == b[i + 1] && b[i + 1].prev == b[i] {
      assert old(b[i].next == b[i + 1] && b[i + 1].prev == b[i]);
    }
  }

  lemma HeadIn(list: Item, s: seq<Item>)
    requires IsList(list, s)
    ensures list in s
  {
  }

  lemma ShortSorted(list: Item?, s: seq<Item>, cs: bool)
    requires IsList(list, s) && (list == null || list.next == null)
    ensures |s| <= 1 && Sorted(s, cs)
  {
    if s != [] { NextOf(s, 0); }
  }

  lemma LongList(list: Item, s: seq<Item>)
    requires IsList(list, s) && list.next != null
    ensures |s| >= 2 && Distinct(s)
  {
    NextOf(s, 0);
  }

  lemma ListDistinct(list: Item?, s: seq<Item>)
    requires IsList(list, s)
    ensures Distinct(s)
  {
  }

  lemma HalvesApart(s: seq<Item>, mid: nat)
    requires Distinct(s) && mid <= |s|
    ensures forall x :: x in s[..mid] ==> x in s && x !in s[mid..]
    ensures forall x :: x in s[mid..] ==> x in s
  {
  }

  lemma SameItems(a: seq<Item>, b: seq<Item>)
    requires multiset(a) == multiset(b)
    ensures |a| == |b| && forall x :: x in a <==> x in b
  {
    assert |multiset(a)| == |a| && |multiset(b)| == |b|;
    forall x ensures x in a <==> x in b {
      assert x in multiset(a) <==> x in multiset(b);
    }
  }

  lemma StillApart(a: seq<Item>, b: seq<Item>, c: seq<Item>, d: seq<Item>)
    requires Distinct(c) && Distinct(d) && (forall x :: x in a ==> x !in b)
    requires (forall x :: x in c ==> x in a) && (forall x :: x in d ==> x in b)
    ensures Distinct(c + d)
  {
    var s := c + d;
    forall i, j | 0 <= i < j < |s| ensures s[i] != s[j] {
      if i < |c| && |c| <= j {
        assert c[i] in c && d[j - |c|] in d;
      }
    }
  }
}
