/**
  The doubly linked lists of utlist: head->prev is the last element, and the last next is null. Each
  macro becomes a method that returns the new head.
 */
module DList {
  import opened MergeSpec
  import opened SortList

  /** The list at `head` holds the elements `s`. */
  ghost predicate Dl(s: seq<Node>, head: Node?)
    reads s`next, s`prev
  {
    && NoDup(s) && Chain(s, head)
    && (forall i {:trigger s[i].prev} :: 0 < i < |s| ==> s[i].prev == s[i - 1])
    && (s != [] ==> s[0].prev == s[|s| - 1])
  }

  method Prepend(head: Node?, add: Node, ghost s: seq<Node>) returns (h: Node)
    requires Dl(s, head) && add !in s
    modifies s`next, s`prev, add`next, add`prev
    ensures Dl([add] + s, h)
  {
    add.next := head;
    if head != null {
      add.prev := head.prev;
      head.prev := add;
    } else {
      add.prev := add;
    }
    h := add;
  }

  method Append(head: Node?, add: Node, ghost s: seq<Node>) returns (h: Node)
    requires Dl(s, head) && add !in s
    modifies s`next, s`prev, add`next, add`prev
    ensures Dl(s + [add], h)
  {
    if head != null {
      add.prev := head.prev;
      head.prev.next := add;
      head.prev := add;
      add.next := null;
      h := head;
    } else {
      h := add;
      h.prev := h;
      h.next := null;
    }
  }

  method Concat(head1: Node?, head2: Node?, ghost s: seq<Node>, ghost t: seq<Node>) returns (h: Node?)
    requires Dl(s, head1) && Dl(t, head2) && Disjoint(s, t)
    modifies s`next, s`prev, t`next, t`prev
    ensures Dl(s + t, h)
  {
    h := head1;
    if head2 != null {
      if head1 != null {
        var tmp := head2.prev;
        head2.prev := head1.prev;
        head1.prev.next := head2;
        head1.prev := tmp;
      } else {
        h := head2;
        assert s + t == t;
      }
    } else {
      assert s + t == s;
    }
  }

  method Delete(head: Node, del: Node, ghost s: seq<Node>, ghost k: nat) returns (h: Node?)
    requires Dl(s, head) && k < |s| && s[k] == del
    modifies s`next, s`prev
    ensures Dl(s[..k] + s[k + 1..], h)
  {
    h := head;
    assert del.prev == s[if k == 0 then |s| - 1 else k - 1];
    if del.prev == del {
      h := null;
    } else if del == head {
      del.next.prev := del.prev;
      h := del.next;
    } else {
      del.prev.next := del.next;
      if del.next != null {
        del.next.prev := del.prev;
      } else {
        head.prev := del.prev;
      }
    }
  }

  method ReplaceElem(head: Node, el: Node, add: Node, ghost s: seq<Node>, ghost k: nat) returns (h: Node)
    requires Dl(s, head) && k < |s| && s[k] == el && add !in s
    modifies s`next, s`prev, add`next, add`prev
    ensures Dl(s[k := add], h)
  {
    assert el.prev == s[if k == 0 then |s| - 1 else k - 1];
    if head == el {
      h := add;
      add.next := el.next;
      if el.next == null {
        add.prev := add;
      } else {
        add.prev := el.prev;
        add.next.prev := add;
      }
    } else {
      h := head;
      add.next := el.next;
      add.prev := el.prev;
      add.prev.next := add;
      if el.next == null {
        head.prev := add;
      } else {
        add.next.prev := add;
      }
    }
  }

  /** DL_APPEND_ELEM2: behind `el`, or in front of everything when there is no `el`. */
  method AppendElem(head: Node?, el: Node?, add: Node, ghost s: seq<Node>, ghost k: nat) returns (h: Node)
    requires Dl(s, head) && add !in s && k <= |s|
    requires if k == 0 then el == null else el == s[k - 1]
    modifies s`next, s`prev, add`next, add`prev
    ensures Dl(s[..k] + [add] + s[k..], h)
  {
    hide Dl;
    if el != null {
      h := InsertBehind(head, el, add, s, k);
    } else {
      h := Prepend(head, add, s);
      assert s[..k] + [add] + s[k..] == [add] + s;
    }
  }

  method InsertBehind(head: Node?, el: Node, add: Node, ghost s: seq<Node>, ghost k: nat) returns (h: Node)
    requires Dl(s, head) && add !in s && 0 < k <= |s| && el == s[k - 1]
    modifies s`next, s`prev, add`next, add`prev
    ensures Dl(s[..k] + [add] + s[k..], h)
  {
    h := head;
    add.next := el.next;
    add.prev := el;
    el.next := add;
    if add.next != null {
      add.next.prev := add;
    } else {
      h.prev := add;
    }
  }

  /** DL_PREPEND_ELEM2: in front of `el`, or behind everything when there is no `el`. */
  method PrependElem(head: Node?, el: Node?, add: Node, ghost s: seq<Node>, ghost k: nat) returns (h: Node)
    requires Dl(s, head) && add !in s && k <= |s|
    requires if k == |s| then el == null else el == s[k]
    modifies s`next, s`prev, add`next, add`prev
    ensures Dl(s[..k] + [add] + s[k..], h)
  {
    hide Dl;
    if el != null {
      h := InsertBefore(head, el, add, s, k);
    } else {
      h := Append(head, add, s);
      assert s[..k] + [add] + s[k..] == s + [add];
    }
  }

  method InsertBefore(head: Node?, el: Node, add: Node, ghost s: seq<Node>, ghost k: nat) returns (h: Node)
    requires Dl(s, head) && add !in s && k < |s| && el == s[k]
    modifies s`next, s`prev, add`next, add`prev
    ensures Dl(s[..k] + [add] + s[k..], h)
  {
    assert el.prev == s[if k == 0 then |s| - 1 else k - 1];
    h := head;
    add.next := el;
    add.prev := el.prev;
    el.prev := add;
    if head == el {
      h := add;
    } else {
      add.prev.next := add;
    }
  }

  // ---- sorted insertion ----

  /** Swapping the arguments swaps the sign, as the result of a compare function should. */
  ghost predicate SignSymmetric(cmp: Compare) {
    forall a, b :: cmp(a, b) < 0 <==> cmp(b, a) > 0
  }

  /** The first index from `i` on whose element is not below `x`. */
  function LowerBoundIndex(cmp: Compare, s: seq<Node>, x: int): (k: nat)
    ensures k <= |s| && forall i :: 0 <= i < k ==> cmp(s[i].key, x) < 0
    ensures k < |s| ==> cmp(s[k].key, x) >= 0
  {
    if s == [] || cmp(s[0].key, x) >= 0 then 0 else 1 + LowerBoundIndex(cmp, s[1..], x)
  }

  lemma {:induction false} LowerBoundFrom(cmp: Compare, s: seq<Node>, x: int, i: nat)
    requires i <= |s| && forall j :: 0 <= j < i ==> cmp(s[j].key, x) < 0
    requires i < |s| ==> cmp(s[i].key, x) >= 0
    ensures LowerBoundIndex(cmp, s, x) == i
    decreases i
  {
    if i == 0 {
    } else {
      LowerBoundFrom(cmp, s[1..], x, i - 1);
    }
  }

  /** DL_LOWER_BOUND2: the element to insert behind, or null for the front. */
  method LowerBound(cmp: Compare, head: Node?, like: Node, ghost s: seq<Node>) returns (elt: Node?)
    requires Dl(s, head)
    ensures var k := LowerBoundIndex(cmp, s, like.key); if k == 0 then elt == null else elt == s[k - 1]
  {
    if head == null || cmp(head.key, like.key) >= 0 {
      return null;
    }
    elt := head;
    ghost var i := 0;
    while elt.next != null
      invariant 0 <= i < |s| && elt == s[i] && forall j :: 0 <= j <= i ==> cmp(s[j].key, like.key) < 0
      decreases |s| - i
    {
      if cmp(elt.next.key, like.key) >= 0 {
        break;
      }
      elt := elt.next;
      i := i + 1;
    }
    LowerBoundFrom(cmp, s, like.key, i + 1);
  }

  /** DL_INSERT_INORDER2: in front of the first element that is not smaller. */
  method InsertInorder(cmp: Compare, head: Node?, add: Node, ghost s: seq<Node>) returns (h: Node)
    requires Dl(s, head) && add !in s
    modifies s`next, s`prev, add`next, add`prev
    ensures Dl(Inserted(cmp, s, add), h)
  {
    if head != null {
      var tmp := LowerBound(cmp, head, add, s);
      h := AppendElem(head, tmp, add, s, LowerBoundIndex(cmp, s, add.key));
    } else {
      h := add;
      h.prev := h;
      h.next := null;
      assert Inserted(cmp, s, add) == [add];
    }
  }

  function Inserted(cmp: Compare, s: seq<Node>, add: Node): seq<Node> {
    var k := LowerBoundIndex(cmp, s, add.key);
    s[..k] + [add] + s[k..]
  }

  /** From the lower bound on, no element is below the new one. */
  lemma AboveBound(cmp: Compare, s: seq<Node>, x: int, j: nat)
    requires TotalPreorder(cmp) && SignSymmetric(cmp) && Sorted(cmp, s)
    requires LowerBoundIndex(cmp, s, x) <= j < |s|
    ensures cmp(x, s[j].key) <= 0
  {
    hide LowerBoundIndex;
    var k := LowerBoundIndex(cmp, s, x);
    assert cmp(x, s[k].key) <= 0 by {
      assert cmp(s[k].key, x) >= 0;
    }
    if k < j {
      assert Le(cmp, s[k], s[j]);
    }
  }

  /** Insertion keeps a list sorted, and the new element stands in front of all that compare equal. */
  lemma InsertedSorted(cmp: Compare, s: seq<Node>, add: Node)
    requires TotalPreorder(cmp) && SignSymmetric(cmp) && Sorted(cmp, s)
    ensures Sorted(cmp, Inserted(cmp, s, add))
    ensures Ties(cmp, add.key, Inserted(cmp, s, add)) == [add] + Ties(cmp, add.key, s)
  {
    hide TotalPreorder, SignSymmetric, Sorted, Ties, LowerBoundIndex;
    var x := add.key;
    var k := LowerBoundIndex(cmp, s, x);
    var a, b := s[..k], s[k..];
    forall j | 0 <= j < |b| ensures Le(cmp, add, b[j]) {
      AboveBound(cmp, s, x, k + j);
    }
    assert s == a + b;
    SplicedSorted(cmp, a, add, b);
    NoneTie(cmp, x, a);
    TiesConcat(cmp, x, a, b);
    TiesConcat(cmp, x, a, [add] + b);
    TiesFirst(cmp, add, b);
    assert Inserted(cmp, s, add) == a + ([add] + b);
  }

  lemma TiesFirst(cmp: Compare, add: Node, b: seq<Node>)
    requires TotalPreorder(cmp)
    ensures Ties(cmp, add.key, [add] + b) == [add] + Ties(cmp, add.key, b)
  {
    assert ([add] + b)[1..] == b;
    assert cmp(add.key, add.key) <= 0;
  }

  lemma {:induction false} NoneTie(cmp: Compare, x: int, s: seq<Node>)
    requires SignSymmetric(cmp) && forall i :: 0 <= i < |s| ==> cmp(s[i].key, x) < 0
    ensures Ties(cmp, x, s) == []
    decreases |s|
  {
    if s == [] {
    } else {
      NoneTie(cmp, x, s[1..]);
    }
  }

  // ---- sorting ----

  /** A pass, and the head's prev set to the last element. */
  method DlPass(cmp: Compare, head: Node, insize: nat, ghost s: seq<Node>, ghost all: set<Node>)
    returns (list: Node, nmerges: nat)
    requires insize > 0 && s != [] && Dl(s, head) && Within(s, all)
    modifies all`next, all`prev
    ensures var t := Pass(cmp, s, insize);
            Dl(t, list) && Within(t, all) && nmerges == Merges(|s|, insize)
  {
    hide Pass, Merges;
    var l, tail, n := SortPass(cmp, head, insize, s, all);
    list, nmerges := l, n;
    list.prev := tail;
  }

  /** DL_SORT2 */
  method Sort(cmp: Compare, head: Node?, ghost s: seq<Node>) returns (list: Node?)
    requires Dl(s, head)
    modifies s`next, s`prev
    ensures Dl(SortFrom(cmp, s, 1), list)
  {
    hide Pass, Merges, Dl, Within;
    list := head;
    EmptyOrNot(s, head);
    if list == null {
      return;
    }
    var insize, looping := 1, true;
    ghost var t: seq<Node>, all := s, set n | n in s;
    assert Within(t, all) by { AllWithin(s); }
    while looping
      invariant insize > 0 && list != null && Dl(t, list) && Within(t, all) && t != [] && |t| == |s|
      invariant SortFrom(cmp, s, 1) == if looping then SortFrom(cmp, t, insize) else t
      decreases looping, |s| - insize
    {
      MergesBound(|s|, insize);
      var nmerges;
      list, nmerges := DlPass(cmp, list, insize, t, all);
      t := Pass(cmp, t, insize);
      if nmerges <= 1 {
        looping := false;
      }
      insize := insize * 2;
    }
  }

  lemma EmptyOrNot(s: seq<Node>, head: Node?)
    requires Dl(s, head)
    ensures head == null <==> s == []
    ensures head == null ==> forall cmp: Compare :: SortFrom(cmp, s, 1) == s
  {}

  lemma AllWithin(s: seq<Node>)
    ensures Within(s, set n | n in s)
  {}
}
