/** The doubly linked lists that hold the children of an array or object. */
module JsonList {
  class Node {
    var next: Node?
    var prev: Node?
    var child: Node?

    constructor ()
      ensures next == null && prev == null && child == null
    {
      next, prev, child := null, null, null;
    }
  }

  /** The `i`-th node, or null outside the list. */
  function At(items: seq<Node>, i: int): Node? {
    if 0 <= i < |items| then items[i] else null
  }

  /** The children of `parent` are exactly `items`, each once and in this order. */
  ghost predicate Children(parent: Node, items: seq<Node>)
    reads parent, items
  {
    && parent !in items
    && (forall i, k :: 0 <= i < k < |items| ==> items[i] != items[k])
    && parent.child == At(items, 0)
    && (forall i {:trigger items[i].next} :: 0 <= i < |items| ==> items[i].next == At(items, i + 1))
    && (forall i {:trigger items[i].prev} :: 0 <= i < |items| ==> items[i].prev == At(items, i - 1))
  }

  /** A node, if there is one. */
  function Those(x: Node?): set<Node> {
    if x == null then {} else {x}
  }

  function Without(items: seq<Node>, k: nat): seq<Node>
    requires k < |items|
  {
    items[..k] + items[k + 1..]
  }

  function WithInserted(items: seq<Node>, k: nat, x: Node): seq<Node>
    requires k <= |items|
  {
    items[..k] + [x] + items[k..]
  }

  /** A node outside every list. */
  ghost predicate Unlinked(x: Node)
    reads x
  {
    x.next == null && x.prev == null
  }

  /** The links determine the children: there is only one list they can stand for. */
  lemma {:induction false} LinksDetermineChildren(parent: Node, xs: seq<Node>, ys: seq<Node>, k: nat)
    requires Children(parent, xs) && Children(parent, ys)
    requires k <= |xs| && k <= |ys| && xs[..k] == ys[..k]
    ensures xs == ys
    decreases |xs| - k
  {
    assert At(xs, k) == At(ys, k) by {
      if k > 0 {
        assert xs[k - 1] == xs[..k][k - 1] == ys[..k][k - 1] == ys[k - 1];
        assert xs[k - 1].next == At(xs, k) && ys[k - 1].next == At(ys, k);
      }
    }
    if k < |xs| {
      assert xs[..k + 1] == xs[..k] + [xs[k]] && ys[..k + 1] == ys[..k] + [ys[k]];
      LinksDetermineChildren(parent, xs, ys, k + 1);
    } else {
      assert xs == xs[..k] && ys == ys[..k];
    }
  }

  method GetArrayItem(parent: Node?, index: nat, ghost items: seq<Node>) returns (r: Node?)
    requires parent != null ==> Children(parent, items)
    ensures r == if parent == null then null else At(items, index)
  {
    if parent == null {
      return null;
    }
    r := parent.child;
    var left := index;
    while r != null && left > 0
      invariant 0 <= left <= index && r == At(items, index - left)
    {
      left := left - 1;
      r := r.next;
    }
  }

  method SuffixObject(prev: Node, item: Node)
    modifies prev`next, item`prev
    ensures prev.next == item && item.prev == prev
  {
    prev.next := item;
    item.prev := prev;
  }

  method AddItemToArray(parent: Node?, item: Node?, ghost items: seq<Node>) returns (ok: bool)
    requires parent != null ==> Children(parent, items)
    requires parent != null && item != null ==> item != parent && item !in items && Unlinked(item)
    modifies Those(parent)`child, Those(item)`next, Those(item)`prev, items`next, items`prev
    ensures ok <==> parent != null && item != null
    ensures ok ==> Children(parent, items + [item])
    ensures !ok && parent != null ==> Children(parent, items)
  {
    if item == null || parent == null {
      return false;
    }
    var child := parent.child;
    if child == null {
      parent.child := item;
    } else {
      ghost var k := 0;
      while child.next != null
        invariant 0 <= k < |items| && child == items[k]
        decreases |items| - k
      {
        assert items[k].next == At(items, k + 1);
        child := child.next;
        k := k + 1;
      }
      assert items[k].next == At(items, k + 1);
      SuffixObject(child, item);
    }
    ok := true;
  }

  lemma RemovedOnce(items: seq<Node>, k: nat)
    requires k < |items| && (forall i, j :: 0 <= i < j < |items| ==> items[i] != items[j])
    ensures items[k] !in Without(items, k)
    ensures WithInserted(Without(items, k), k, items[k]) == items
    ensures forall x :: x in Without(items, k) ==> x in items
  {
  }

  /** Links the neighbours of `item` to each other; the links of `item` itself stay. */
  method Bypass(parent: Node, item: Node, ghost items: seq<Node>, ghost k: nat)
    requires Children(parent, items) && k < |items| && items[k] == item
    modifies parent`child, items`next, items`prev
    ensures Children(parent, Without(items, k))
  {
    assert items[k].next == At(items, k + 1) && items[k].prev == At(items, k - 1);
    if item.prev != null {
      item.prev.next := item.next;
    }
    if item.next != null {
      item.next.prev := item.prev;
    }
    if item == parent.child {
      parent.child := item.next;
    }
    ghost var result := Without(items, k);
    forall i | 0 <= i < |result|
      ensures result[i].next == At(result, i + 1) && result[i].prev == At(result, i - 1)
    {
      var j := if i < k then i else i + 1;
      assert result[i] == items[j];
      assert old(items[j].next) == At(items, j + 1) && old(items[j].prev) == At(items, j - 1);
    }
  }

  method DetachItemViaPointer(parent: Node?, item: Node?, ghost items: seq<Node>, ghost k: nat) returns (r: Node?)
    requires parent != null ==> Children(parent, items)
    requires parent != null && item != null ==> k < |items| && items[k] == item
    modifies Those(parent)`child, Those(item)`next, Those(item)`prev, items`next, items`prev
    ensures parent == null || item == null ==> r == null && (parent != null ==> Children(parent, items))
    ensures parent != null && item != null ==>
      r == item && Unlinked(item) && Children(parent, Without(items, k))
  {
    if parent == null || item == null {
      return null;
    }
    Bypass(parent, item, items, k);
    RemovedOnce(items, k);
    item.prev := null;
    item.next := null;
    r := item;
  }

  method DetachItemFromArray(parent: Node?, which: int, ghost items: seq<Node>) returns (r: Node?)
    requires parent != null ==> Children(parent, items)
    modifies Those(parent)`child, items`next, items`prev
    ensures r == if parent == null then null else At(items, which)
    ensures parent != null ==> Children(parent, if 0 <= which < |items| then Without(items, which) else items)
    ensures r != null ==> Unlinked(r)
  {
    if which < 0 {
      return null;
    }
    var item := GetArrayItem(parent, which, items);
    r := DetachItemViaPointer(parent, item, items, which);
  }

  method LinkBefore(parent: Node, after: Node, newItem: Node, ghost items: seq<Node>, ghost k: nat)
    requires Children(parent, items) && k < |items| && items[k] == after
    requires newItem != parent && newItem !in items
    modifies parent`child, newItem`next, newItem`prev, items`next, items`prev
    ensures Children(parent, WithInserted(items, k, newItem))
  {
    ghost var result := WithInserted(items, k, newItem);
    assert items[k].prev == At(items, k - 1);
    newItem.next := after;
    newItem.prev := after.prev;
    after.prev := newItem;
    if after == parent.child {
      parent.child := newItem;
    } else {
      newItem.prev.next := newItem;
    }
    forall i | 0 <= i < |result|
      ensures result[i].next == At(result, i + 1) && result[i].prev == At(result, i - 1)
    {
      if i != k {
        var j := if i < k then i else i - 1;
        assert result[i] == items[j];
        assert old(items[j].next) == At(items, j + 1) && old(items[j].prev) == At(items, j - 1);
      }
    }
  }

  /** Inserts before position `which`, or at the end if there is no such position. The
      new item must not be missing if there is one. */
  method InsertItemInArray(parent: Node?, which: int, newItem: Node?, ghost items: seq<Node>)
    requires parent != null ==> Children(parent, items)
    requires parent != null && newItem != null ==> newItem != parent && newItem !in items && Unlinked(newItem)
    requires parent != null && newItem == null ==> which < 0 || which >= |items|
    modifies Those(parent)`child, Those(newItem)`next, Those(newItem)`prev, items`next, items`prev
    ensures parent != null ==>
      Children(parent, if which < 0 || newItem == null then items
                       else WithInserted(items, if which < |items| then which else |items|, newItem))
    ensures newItem != null && parent != null && which < 0 ==> Unlinked(newItem)
  {
    if which < 0 {
      return;
    }
    var afterInserted := GetArrayItem(parent, which, items);
    if afterInserted == null {
      var _ := AddItemToArray(parent, newItem, items);
      assert newItem != null ==> items + [newItem] == WithInserted(items, |items|, newItem);
      return;
    }
    LinkBefore(parent, afterInserted, newItem, items, which);
  }

  /** Links `replacement` where `item` is; the links of `item` itself stay. */
  method TakePlace(parent: Node, item: Node, replacement: Node, ghost items: seq<Node>, ghost k: nat)
    requires Children(parent, items) && k < |items| && items[k] == item
    requires replacement != parent && replacement !in items
    modifies parent`child, replacement`next, replacement`prev, items`next, items`prev
    ensures Children(parent, items[k := replacement])
  {
    assert items[k].next == At(items, k + 1) && items[k].prev == At(items, k - 1);
    replacement.next := item.next;
    replacement.prev := item.prev;
    if replacement.next != null {
      replacement.next.prev := replacement;
    }
    if replacement.prev != null {
      replacement.prev.next := replacement;
    }
    if parent.child == item {
      parent.child := replacement;
    }
    ghost var result := items[k := replacement];
    forall i | 0 <= i < |result|
      ensures result[i].next == At(result, i + 1) && result[i].prev == At(result, i - 1)
    {
      assert old(items[i].next) == At(items, i + 1) && old(items[i].prev) == At(items, i - 1);
    }
  }

  method ReplaceItemViaPointer(parent: Node?, item: Node?, replacement: Node?, ghost items: seq<Node>, ghost k: nat)
    returns (ok: bool)
    requires parent != null ==> Children(parent, items)
    requires parent != null && item != null ==> k < |items| && items[k] == item
    requires parent != null && item != null && replacement != null && replacement != item ==>
      replacement != parent && replacement !in items
    modifies Those(parent)`child, Those(item)`next, Those(item)`prev, items`next, items`prev
    modifies Those(replacement)`next, Those(replacement)`prev
    ensures ok <==> parent != null && item != null && replacement != null
    ensures !ok && parent != null ==> Children(parent, items)
    ensures ok ==> Children(parent, items[k := replacement])
    ensures ok && replacement != item ==> Unlinked(item)
  {
    if parent == null || replacement == null || item == null {
      return false;
    }
    if replacement == item {
      return true;
    }
    TakePlace(parent, item, replacement, items, k);
    item.next := null;
    item.prev := null;
    ok := true;
  }

  method ReplaceItemInArray(parent: Node?, which: int, newItem: Node?, ghost items: seq<Node>)
    requires parent != null ==> Children(parent, items)
    requires parent != null && newItem != null ==> newItem != parent && newItem !in items
    modifies Those(parent)`child, Those(newItem)`next, Those(newItem)`prev, items`next, items`prev
    ensures parent != null ==>
      Children(parent, if 0 <= which < |items| && newItem != null then items[which := newItem] else items)
    ensures parent != null && 0 <= which < |items| && newItem != null ==> Unlinked(items[which])
  {
    if which < 0 {
      return;
    }
    var item := GetArrayItem(parent, which, items);
    var _ := ReplaceItemViaPointer(parent, item, newItem, items, which);
  }

  /** Detaching the element at `which` and inserting it there again restores the list. */
  method DetachThenInsert(parent: Node, which: nat, ghost items: seq<Node>)
    requires Children(parent, items) && which < |items|
    modifies parent`child, items`next, items`prev
    ensures Children(parent, items)
  {
    RemovedOnce(items, which);
    var item := DetachItemFromArray(parent, which, items);
    InsertItemInArray(parent, which, item, Without(items, which));
  }

  /** Appending to a list leaves the children of every item of it alone. */
  method AppendBesideSubtree(parent: Node, x: Node, ghost items: seq<Node>, ghost inner: Node, ghost below: seq<Node>)
    requires Children(parent, items) && x != parent && x !in items && Unlinked(x)
    requires inner in items && Children(inner, below)
    requires x !in below && parent !in below && forall b :: b in below ==> b !in items
    modifies parent`child, x`next, x`prev, items`next, items`prev
    ensures Children(parent, items + [x]) && Children(inner, below)
  {
    assert forall i :: 0 <= i < |below| ==> below[i] !in items && below[i] != x;
    var _ := AddItemToArray(parent, x, items);
  }
}
