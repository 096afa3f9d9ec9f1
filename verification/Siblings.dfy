/**
  The sibling lists of cJSON: children linked by next and prev, where the first child's prev points
  at the last child and the last child's next is null. Every edit acts on the sequence of children.
 */
module Siblings {

  /** The pointers from the first child on represent `s`. */
  ghost predicate Linked(s: seq<Item>, child: Item?)
    reads s`next, s`prev
  {
    && (forall i, j :: 0 <= i < j < |s| ==> s[i] != s[j])
    && child == (if s == [] then null else s[0])
    && (s != [] ==> s[0].prev == s[|s| - 1] && s[|s| - 1].next == null)
    && (forall i {:trigger s[i].prev} :: 0 < i < |s| ==> s[i].prev == s[i - 1])
    && (forall i {:trigger s[i].next} :: 0 <= i < |s| - 1 ==> s[i].next == s[i + 1])
  }

  // ---- relinking ----

  method LinkLast(child: Item?, item: Item, ghost s: seq<Item>) returns (first: Item)
    requires Linked(s, child) && item !in s && item.Detached()
    modifies s`next, s`prev, item`next, item`prev
    ensures Linked(s + [item], first)
  {
    if child == null {
      first := item;
      item.prev := item;
      item.next := null;
    } else {
      first := child;
      if child.prev != null {
        child.prev.next := item;
        item.prev := child.prev;
        child.prev := item;
      }
    }
  }

  /** The links of the other elements pass by element `k`. */
  ghost predicate PassBy(s: seq<Item>, k: nat)
    requires k < |s|
    reads s`next, s`prev
  {
    var n := |s|;
    && (forall i {:trigger s[i].next} :: 0 <= i < n && i != k ==>
          s[i].next == if i + 1 == n || (i + 1 == k && k + 1 == n) then null else if i + 1 == k then s[k + 1] else s[i + 1])
    && (forall i {:trigger s[i].prev} :: 0 <= i < n && i != k && i > (if k == 0 then 1 else 0) ==>
          s[i].prev == if i == k + 1 then s[k - 1] else s[i - 1])
    && (n > 1 ==> s[if k == 0 then 1 else 0].prev == s[if k + 1 == n then n - 2 else n - 1])
  }

  lemma PassedBy(s: seq<Item>, k: nat, first: Item?)
    requires k < |s| && PassBy(s, k) && forall i, j :: 0 <= i < j < |s| ==> s[i] != s[j]
    requires first == if k > 0 then s[0] else if |s| > 1 then s[1] else null
    ensures Linked(s[..k] + s[k + 1..], first)
  {
    var t := s[..k] + s[k + 1..];
    assert forall i :: 0 <= i < |t| ==> t[i] == s[if i < k then i else i + 1];
    if t != [] {
      assert t[|t| - 1] == s[if k + 1 == |s| then |s| - 2 else |s| - 1] && t[0] == s[if k == 0 then 1 else 0];
    }
  }

  method Unlink(child: Item, item: Item, ghost s: seq<Item>, ghost k: nat) returns (first: Item?)
    requires Linked(s, child) && k < |s| && s[k] == item
    modifies s`next, s`prev
    ensures Linked(s[..k] + s[k + 1..], first) && item.Detached()
  {
    first := child;
    assert item.next == (if k + 1 < |s| then s[k + 1] else null) && item.prev == s[if k == 0 then |s| - 1 else k - 1];
    if item != child {
      item.prev.next := item.next;
    }
    if item.next != null {
      item.next.prev := item.prev;
    }
    if item == child {
      first := item.next;
    } else if item.next == null {
      child.prev := item.prev;
    }
    item.prev := null;
    item.next := null;
    PassedBy(s, k, first);
  }

  method LinkBefore(child: Item, after: Item, newItem: Item, ghost s: seq<Item>, ghost k: nat) returns (first: Item)
    requires Linked(s, child) && k < |s| && s[k] == after && newItem !in s
    modifies s`next, s`prev, newItem`next, newItem`prev
    ensures Linked(s[..k] + [newItem] + s[k..], first)
  {
    first := child;
    assert after.prev == s[if k == 0 then |s| - 1 else k - 1];
    newItem.next := after;
    newItem.prev := after.prev;
    after.prev := newItem;
    if after == child {
      first := newItem;
    } else {
      newItem.prev.next := newItem;
    }
  }

  method Exchange(child: Item, item: Item, replacement: Item, ghost s: seq<Item>, ghost k: nat) returns (first: Item)
    requires Linked(s, child) && k < |s| && s[k] == item && replacement !in s
    modifies s`next, s`prev, replacement`next, replacement`prev
    ensures Linked(s[k := replacement], first) && item.Detached()
  {
    first := child;
    assert item.next == (if k + 1 < |s| then s[k + 1] else null) && item.prev == s[if k == 0 then |s| - 1 else k - 1];
    assert forall i :: 0 <= i < |s| ==> s[i] != replacement && (i != k ==> s[i] != item);
    replacement.next := item.next;
    replacement.prev := item.prev;
    if replacement.next != null {
      replacement.next.prev := replacement;
    }
    if child == item {
      if child.prev == child {
        replacement.prev := replacement;
      }
      first := replacement;
    } else {
      if replacement.prev != null {
        replacement.prev.next := replacement;
      }
      if replacement.next == null {
        child.prev := replacement;
      }
    }
    item.next := null;
    item.prev := null;
  }

  lemma LinkedFacts(s: seq<Item>, child: Item?)
    requires Linked(s, child)
    ensures child == null <==> s == []
    ensures forall i :: 0 <= i < |s| ==> s[i].prev != null
  {
    forall i | 0 <= i < |s| ensures s[i].prev != null {
      assert s[i].prev == s[if i == 0 then |s| - 1 else i - 1];
    }
  }

  // ---- items ----

  class Item {
    var next: Item?
    var prev: Item?
    var child: Item?
    ghost var children: seq<Item>

    /** cJSON_New_Item: all fields zero. */
    constructor ()
      ensures next == null && prev == null && child == null && children == [] && Listed()
    {
      next, prev, child, children := null, null, null, [];
    }

    /** The pointers represent `children`. */
    ghost predicate Listed()
      reads this, children
    {
      this !in children && Linked(children, child)
    }

    /** An item as it comes from cJSON_New_Item or from detaching. */
    ghost predicate Detached()
      reads this`next, this`prev
    {
      next == null && prev == null
    }

    /** add_item_to_array: appends; an item cannot be added to itself. */
    method AddItemToArray(item: Item?) returns (ok: bool)
      requires Listed() && (item != null ==> item !in children && item.Detached())
      modifies this, children, item
      ensures ok == (item != null && item != this)
      ensures ok ==> Listed() && children == old(children) + [item]
      ensures !ok ==> unchanged(this) && forall c :: c in children ==> unchanged(c)
    {
      hide Linked;
      if item == null || this == item {
        return false;
      }
      child := LinkLast(child, item, children);
      children := children + [item];
      return true;
    }

    /** get_array_item: the child at an index, or null. */
    method GetArrayItem(index: nat) returns (item: Item?)
      requires Listed()
      ensures if index < |children| then item == children[index] else item == null
    {
      item := child;
      var i := index;
      while item != null && i > 0
        invariant 0 <= i <= index
        invariant if index - i < |children| then item == children[index - i] else item == null
        decreases i
      {
        i := i - 1;
        item := item.next;
      }
    }

    /** cJSON_DetachItemViaPointer: unlinks a child and leaves it pointing nowhere. */
    method DetachItemViaPointer(item: Item?) returns (detached: Item?, ghost k: int)
      requires Listed()
      requires item != null && item != child && item.prev != null ==> item in children
      modifies this, children, item
      ensures if item != null && item in old(children) then
                detached == item && item.Detached() && Listed()
                && 0 <= k < |old(children)| && old(children)[k] == item
                && children == old(children)[..k] + old(children)[k + 1..]
              else detached == null && unchanged(this) && forall c :: c in children ==> unchanged(c)
    {
      hide Linked;
      LinkedFacts(children, child);
      if item == null || (item != child && item.prev == null) {
        return null, 0;
      }
      assert item in children by { FirstIn(children, child); }
      k :| 0 <= k < |children| && children[k] == item;
      child := Unlink(child, item, children, k);
      children := children[..k] + children[k + 1..];
      return item, k;
    }

    lemma FirstIn(s: seq<Item>, c: Item?)
      requires Linked(s, c)
      ensures c != null ==> c in s
    {}

    /**
      cJSON_InsertItemInArray: in front of the child at `which`, or at the end when there is none. Only there
      the item itself is refused: in front of a child it becomes a child of its own.
     */
    method InsertItemInArray(which: int, newItem: Item?) returns (ok: bool)
      requires Listed() && (newItem != null ==> newItem !in children && newItem.Detached())
      modifies this, children, newItem
      ensures ok == (which >= 0 && newItem != null && (newItem == this ==> which < |old(children)|))
      ensures ok ==>
                var k := if which < |old(children)| then which else |old(children)|;
                Linked(children, child) && children == old(children)[..k] + [newItem] + old(children)[k..]
      ensures ok ==> (Listed() <==> newItem != this)
      ensures !ok ==> unchanged(this) && forall c :: c in children ==> unchanged(c)
    {
      hide Linked;
      if which < 0 || newItem == null {
        return false;
      }
      LinkedFacts(children, child);
      var after := GetArrayItem(which);
      if after == null {
        ok := AddItemToArray(newItem);
        assert ok ==> children == old(children)[..|old(children)|] + [newItem] + old(children)[|old(children)|..];
        return;
      }
      if after != child && after.prev == null {
        return false;
      }
      child := LinkBefore(child, after, newItem, children, which);
      ghost var t := children[..which] + [newItem] + children[which..];
      assert t[which] == newItem && forall c :: c in t ==> c == newItem || c in children;
      children := t;
      return true;
    }

    /** cJSON_ReplaceItemViaPointer: the replacement takes the item's place, the item is let go. */
    method ReplaceItemViaPointer(item: Item?, replacement: Item?) returns (ok: bool)
      requires Listed() && (item != null && child != null ==> item in children)
      requires replacement != null ==> replacement == item || replacement !in children
      modifies this, children, replacement
      ensures ok == (old(child) != null && item != null && replacement != null)
      ensures ok ==> Linked(children, child) && (Listed() <==> replacement != this) && |children| == |old(children)|
      ensures ok ==> forall i :: 0 <= i < |children| ==>
                children[i] == if old(children)[i] == item then replacement else old(children)[i]
      ensures ok && replacement != item ==> item.Detached()
    {
      if child == null || replacement == null || item == null {
        return false;
      }
      if replacement == item {
        return true;
      }
      ghost var k :| 0 <= k < |children| && children[k] == item;
      assert forall i :: 0 <= i < |children| && i != k ==> children[i] != item;
      hide Linked;
      child := Exchange(child, item, replacement, children, k);
      ghost var t := children[k := replacement];
      assert t[k] == replacement && forall c :: c in t ==> c == replacement || c in children;
      children := t;
      return true;
    }
  }
}
