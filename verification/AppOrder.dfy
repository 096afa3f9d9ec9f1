/**
  The application-order list of uthash: next and prev through all elements, the first prev null, and
  the tail kept by the table. Append, sorted insertion, unlinking, and the mergesort of HASH_SRT.
 */
module AppOrder {
  import opened MergeSpec
  import opened SortList

  /** The list from `head` to `tail` holds `s`, linked both ways, ended on both sides. */
  ghost predicate AppList(s: seq<Node>, head: Node?, tail: Node?)
    reads s`next, s`prev
  {
    NoDup(s) && Output(s, head, tail) && Chain(s, head)
  }

  /** HASH_APPEND_LIST */
  method AppendList(tail: Node, add: Node, ghost head: Node?, ghost s: seq<Node>)
    requires AppList(s, head, tail) && add !in s
    modifies s`next, add`next, add`prev
    ensures AppList(s + [add], head, add)
  {
    add.next := null;
    add.prev := tail;
    tail.next := add;
  }

  /** HASH_DELETE_HH, the part about the application order, when another element remains. */
  method Unlink(head: Node, tail: Node, del: Node, ghost s: seq<Node>, ghost k: nat) returns (h: Node, t: Node)
    requires AppList(s, head, tail) && k < |s| && s[k] == del && |s| > 1
    modifies s`next, s`prev
    ensures AppList(s[..k] + s[k + 1..], h, t)
  {
    h, t := head, tail;
    assert del.prev == if k == 0 then null else s[k - 1];
    assert del.next == if k == |s| - 1 then null else s[k + 1];
    if del == t {
      t := del.prev;
    }
    if del.prev != null {
      del.prev.next := del.next;
    } else {
      h := del.next;
    }
    if del.next != null {
      del.next.prev := del.prev;
    }
  }

  /** How many elements come before the place of `x`: up to the first one that is greater. */
  function UpperBoundIndex(cmp: Compare, s: seq<Node>, x: int): (k: nat)
    ensures k <= |s| && forall i :: 0 <= i < k ==> cmp(s[i].key, x) <= 0
    ensures k < |s| ==> cmp(s[k].key, x) > 0
  {
    if s == [] || cmp(s[0].key, x) > 0 then 0 else 1 + UpperBoundIndex(cmp, s[1..], x)
  }

  lemma {:induction false} UpperBoundFrom(cmp: Compare, s: seq<Node>, x: int, i: nat)
    requires i <= |s| && forall j :: 0 <= j < i ==> cmp(s[j].key, x) <= 0
    requires i < |s| ==> cmp(s[i].key, x) > 0
    ensures UpperBoundIndex(cmp, s, x) == i
    decreases i
  {
    if i == 0 {
    } else {
      UpperBoundFrom(cmp, s[1..], x, i - 1);
    }
  }

  /** HASH_AKBI_INNER_LOOP: the first element that is greater, or null. */
  method UpperBound(cmp: Compare, head: Node, add: Node, ghost s: seq<Node>) returns (iter: Node?)
    requires Chain(s, head)
    ensures var k := UpperBoundIndex(cmp, s, add.key); if k == |s| then iter == null else iter == s[k]
  {
    iter := head;
    ghost var i := 0;
    while true
      invariant 0 <= i < |s| && iter == s[i] && forall j :: 0 <= j < i ==> cmp(s[j].key, add.key) <= 0
      decreases |s| - i
    {
      if cmp(iter.key, add.key) > 0 {
        break;
      }
      iter := iter.next;
      i := i + 1;
      if iter == null {
        break;
      }
    }
    UpperBoundFrom(cmp, s, add.key, i);
  }

  function InsertedAfterTies(cmp: Compare, s: seq<Node>, add: Node): seq<Node> {
    var k := UpperBoundIndex(cmp, s, add.key);
    s[..k] + [add] + s[k..]
  }

  /** The in-order branch of HASH_ADD: in front of the first greater element, or at the end. */
  method InsertInorder(cmp: Compare, head: Node, tail: Node, add: Node, ghost s: seq<Node>) returns (h: Node, t: Node)
    requires AppList(s, head, tail) && add !in s
    modifies s`next, s`prev, add`next, add`prev
    ensures AppList(InsertedAfterTies(cmp, s, add), h, t)
  {
    hide UpperBoundIndex;
    var iter := UpperBound(cmp, head, add, s);
    ghost var k := UpperBoundIndex(cmp, s, add.key);
    if iter != null {
      h, t := InsertBefore(head, tail, iter, add, s, k);
    } else {
      AppendList(tail, add, head, s);
      h, t := head, add;
      assert s[..k] + [add] + s[k..] == s + [add];
    }
  }

  method InsertBefore(head: Node, tail: Node, iter: Node, add: Node, ghost s: seq<Node>, ghost k: nat)
    returns (h: Node, t: Node)
    requires AppList(s, head, tail) && add !in s && k < |s| && s[k] == iter
    modifies s`next, s`prev, add`next, add`prev
    ensures AppList(s[..k] + [add] + s[k..], h, t)
  {
    assert iter.prev == if k == 0 then null else s[k - 1];
    h, t := head, tail;
    add.next := iter;
    add.prev := iter.prev;
    if add.prev != null {
      add.prev.next := add;
    } else {
      h := add;
    }
    iter.prev := add;
  }

  /** Everything from the upper bound on is strictly greater. */
  lemma AboveUpperBound(cmp: Compare, s: seq<Node>, x: int, y: int, j: nat)
    requires TotalPreorder(cmp) && Sorted(cmp, s) && cmp(y, x) <= 0 && UpperBoundIndex(cmp, s, x) <= j < |s|
    ensures cmp(x, s[j].key) <= 0 && !(cmp(s[j].key, y) <= 0)
  {
    hide UpperBoundIndex;
    var k := UpperBoundIndex(cmp, s, x);
    assert k < j ==> Le(cmp, s[k], s[j]);
  }

  /** Insertion keeps a list sorted, and the new element stands behind all that compare equal. */
  lemma InsertedAfterTiesSorted(cmp: Compare, s: seq<Node>, add: Node)
    requires TotalPreorder(cmp) && Sorted(cmp, s)
    ensures Sorted(cmp, InsertedAfterTies(cmp, s, add))
    ensures forall x :: Ties(cmp, x, InsertedAfterTies(cmp, s, add)) == Ties(cmp, x, s + [add])
  {
    hide UpperBoundIndex, Sorted, TotalPreorder;
    var k := UpperBoundIndex(cmp, s, add.key);
    var a, b := s[..k], s[k..];
    assert cmp(add.key, add.key) <= 0 by { Reflexive(cmp, add.key); }
    forall j | 0 <= j < |b| ensures Le(cmp, add, b[j]) {
      AboveUpperBound(cmp, s, add.key, add.key, k + j);
    }
    assert s == a + b;
    SplicedSorted(cmp, a, add, b);
    forall x ensures Ties(cmp, x, InsertedAfterTies(cmp, s, add)) == Ties(cmp, x, s + [add]) {
      TiesMoved(cmp, s, add, x);
    }
  }

  lemma Reflexive(cmp: Compare, x: int)
    requires TotalPreorder(cmp)
    ensures cmp(x, x) <= 0
  {}

  lemma TiesMoved(cmp: Compare, s: seq<Node>, add: Node, x: int)
    requires TotalPreorder(cmp) && Sorted(cmp, s)
    ensures Ties(cmp, x, InsertedAfterTies(cmp, s, add)) == Ties(cmp, x, s + [add])
  {
    hide UpperBoundIndex, Sorted, TotalPreorder;
    var k := UpperBoundIndex(cmp, s, add.key);
    var a, b := s[..k], s[k..];
    TiesConcat(cmp, x, a + [add], b);
    TiesConcat(cmp, x, a, [add]);
    TiesConcat(cmp, x, a, b);
    TiesConcat(cmp, x, s, [add]);
    assert s == a + b;
    if Ties(cmp, x, [add]) != [] {
      forall j | 0 <= j < |b| ensures !(cmp(b[j].key, x) <= 0) {
        AboveUpperBound(cmp, s, add.key, x, k + j);
      }
      NoTies(cmp, x, b);
    }
  }

  // ---- sorting ----

  /** A pass over a whole list leaves a whole list. */
  method AppPass(cmp: Compare, head: Node, insize: nat, ghost tail0: Node?, ghost s: seq<Node>, ghost all: set<Node>)
    returns (list: Node, tail: Node, nmerges: nat)
    requires insize > 0 && s != [] && AppList(s, head, tail0) && Within(s, all)
    modifies all`next, all`prev
    ensures var t := Pass(cmp, s, insize);
            AppList(t, list, tail) && Within(t, all) && nmerges == Merges(|s|, insize)
  {
    hide Pass, Merges;
    var l, t, n := SortPass(cmp, head, insize, s, all);
    list, tail, nmerges := l, t, n;
  }

  /** HASH_SRT */
  method Sort(cmp: Compare, head: Node, ghost tail0: Node?, ghost s: seq<Node>) returns (list: Node, tail: Node)
    requires AppList(s, head, tail0)
    modifies s`next, s`prev
    ensures AppList(SortFrom(cmp, s, 1), list, tail)
  {
    hide Pass, Merges, AppList, Within;
    list := head;
    var insize, looping := 1, true;
    ghost var t: seq<Node>, all := s, set n | n in s;
    Whole(s, head, tail0);
    tail := head;
    ghost var last := tail0;
    while looping
      invariant insize > 0 && AppList(t, list, last) && Within(t, all) && t != [] && |t| == |s|
      invariant SortFrom(cmp, s, 1) == if looping then SortFrom(cmp, t, insize) else t
      invariant !looping ==> tail == last
      decreases looping, |s| - insize
    {
      MergesBound(|s|, insize);
      var newTail, nmerges;
      list, newTail, nmerges := AppPass(cmp, list, insize, last, t, all);
      t, last := Pass(cmp, t, insize), newTail;
      if nmerges <= 1 {
        looping := false;
        tail := newTail;
      }
      insize := insize * 2;
    }
  }

  /** Inserting in order is appending and sorting. */
  lemma InsertedIsSorted(cmp: Compare, s: seq<Node>, add: Node)
    requires TotalPreorder(cmp) && Sorted(cmp, s)
    ensures InsertedAfterTies(cmp, s, add) == SortFrom(cmp, s + [add], 1)
  {
    hide *;
    InsertedAfterTiesSorted(cmp, s, add);
    SortSorts(cmp, s + [add]);
    SortTies(cmp, s + [add]);
    assert SameTies(cmp, InsertedAfterTies(cmp, s, add), SortFrom(cmp, s + [add], 1)) by {
      AlikeTies(cmp, InsertedAfterTies(cmp, s, add), s + [add], SortFrom(cmp, s + [add], 1));
    }
    StableSortUnique(cmp, InsertedAfterTies(cmp, s, add), SortFrom(cmp, s + [add], 1));
  }

  lemma SortTies(cmp: Compare, s: seq<Node>)
    requires TotalPreorder(cmp)
    ensures SameTies(cmp, s, SortFrom(cmp, s, 1))
  {
    hide SortFrom, Ties;
    SortSorts(cmp, s);
  }

  lemma AlikeTies(cmp: Compare, r: seq<Node>, s: seq<Node>, t: seq<Node>)
    requires SameTies(cmp, s, t) && forall x :: Ties(cmp, x, r) == Ties(cmp, x, s)
    ensures SameTies(cmp, r, t)
  {
    hide Ties;
    forall x ensures Ties(cmp, x, r) == Ties(cmp, x, t) {
      assert Ties(cmp, x, s) == Ties(cmp, x, t);
    }
  }

  lemma Whole(s: seq<Node>, head: Node, tail: Node?)
    requires AppList(s, head, tail)
    ensures s != [] && Within(s, set n | n in s)
  {}
}
