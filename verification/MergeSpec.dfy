/**
  Bottom-up mergesort on sequences: what one pass over the runs computes, and that repeated passes
  give the stable sorted permutation. SortList and UtHash relink pointers according to it.
 */
module MergeSpec {

  /** A list element: an opaque key for the compare function, and the links of utlist and uthash. */
  class Node {
    const key: int
    var hashv: nat
    var next: Node?
    var prev: Node?
    var hhNext: Node?
    var hhPrev: Node?

    constructor (key: int)
      ensures this.key == key
    {
      this.key := key;
      hashv, next, prev, hhNext, hhPrev := 0, null, null, null, null;
    }
  }

  type Compare = (int, int) -> int

  /** cmp orders the keys: any two are comparable, and the order is transitive. Ties are allowed. */
  ghost predicate TotalPreorder(cmp: Compare) {
    && (forall a, b :: cmp(a, b) <= 0 || cmp(b, a) <= 0)
    && (forall a, b, c :: cmp(a, b) <= 0 && cmp(b, c) <= 0 ==> cmp(a, c) <= 0)
  }

  predicate Le(cmp: Compare, a: Node, b: Node) {
    cmp(a.key, b.key) <= 0
  }

  ghost predicate Sorted(cmp: Compare, s: seq<Node>) {
    forall i, j :: 0 <= i < j < |s| ==> Le(cmp, s[i], s[j])
  }

  /** The elements of `s` that compare equal to `x`, in order. */
  function Ties(cmp: Compare, x: int, s: seq<Node>): seq<Node> {
    if s == [] then []
    else if cmp(x, s[0].key) <= 0 && cmp(s[0].key, x) <= 0 then [s[0]] + Ties(cmp, x, s[1..])
    else Ties(cmp, x, s[1..])
  }

  /** Nothing lost, nothing doubled, and equal elements stay in their order. */
  ghost predicate StablePermutation(cmp: Compare, s: seq<Node>, t: seq<Node>) {
    multiset(s) == multiset(t) && forall x :: Ties(cmp, x, s) == Ties(cmp, x, t)
  }

  function Merge(cmp: Compare, a: seq<Node>, b: seq<Node>): (r: seq<Node>)
    ensures |r| == |a| + |b|
  {
    if a == [] then b
    else if b == [] then a
    else if Le(cmp, a[0], b[0]) then [a[0]] + Merge(cmp, a[1..], b)
    else [b[0]] + Merge(cmp, a, b[1..])
  }

  function Min(a: nat, b: nat): nat {
    if a <= b then a else b
  }

  /** One pass with run length `k`: neighbouring runs are merged pairwise. */
  function Pass(cmp: Compare, s: seq<Node>, k: nat): (r: seq<Node>)
    requires k > 0
    ensures |r| == |s|
    decreases |s|
  {
    if s == [] then []
    else
      var m, n := Min(k, |s|), Min(2 * k, |s|);
      Merge(cmp, s[..m], s[m..n]) + Pass(cmp, s[n..], k)
  }

  /** How many merges the pass makes. */
  function Merges(n: nat, k: nat): nat
    requires k > 0
    decreases n
  {
    if n == 0 then 0 else 1 + Merges(n - Min(2 * k, n), k)
  }

  /** Passes with doubled run lengths until one pass needed at most one merge. */
  function SortFrom(cmp: Compare, s: seq<Node>, k: nat): seq<Node>
    requires k > 0
    decreases |s| - k
  {
    if Merges(|s|, k) <= 1 then Pass(cmp, s, k)
    else
      MergesBound(|s|, k);
      SortFrom(cmp, Pass(cmp, s, k), 2 * k)
  }

  lemma MergesBound(n: nat, k: nat)
    requires k > 0
    ensures Merges(n, k) <= 1 <==> n <= 2 * k
  {
    if n > 2 * k {
      assert Merges(n - 2 * k, k) >= 1;
    }
  }

  /** Sorted runs of length `k`, the last one possibly shorter. */
  ghost predicate SortedRuns(cmp: Compare, s: seq<Node>, k: nat)
    requires k > 0
    decreases |s|
  {
    s != [] ==> Sorted(cmp, s[..Min(k, |s|)]) && SortedRuns(cmp, s[Min(k, |s|)..], k)
  }

  // ---- merging ----

  lemma {:induction false} MergeMultiset(cmp: Compare, a: seq<Node>, b: seq<Node>)
    ensures multiset(Merge(cmp, a, b)) == multiset(a) + multiset(b)
    decreases |a| + |b|
  {
    if a == [] || b == [] {
    } else {
      assert a == [a[0]] + a[1..] && b == [b[0]] + b[1..];
      if Le(cmp, a[0], b[0]) {
        MergeMultiset(cmp, a[1..], b);
      } else {
        MergeMultiset(cmp, a, b[1..]);
      }
    }
  }

  lemma {:induction false} MergeSorted(cmp: Compare, a: seq<Node>, b: seq<Node>)
    requires TotalPreorder(cmp) && Sorted(cmp, a) && Sorted(cmp, b)
    ensures Sorted(cmp, Merge(cmp, a, b))
    decreases |a| + |b|
  {
    if a == [] || b == [] {
    } else {
      var first, rest;
      if Le(cmp, a[0], b[0]) {
        first, rest := a[0], Merge(cmp, a[1..], b);
        MergeSorted(cmp, a[1..], b);
        MergeMultiset(cmp, a[1..], b);
      } else {
        first, rest := b[0], Merge(cmp, a, b[1..]);
        MergeSorted(cmp, a, b[1..]);
        MergeMultiset(cmp, a, b[1..]);
      }
      forall j | 0 <= j < |rest| ensures Le(cmp, first, rest[j]) {
        assert rest[j] in multiset(rest);
        assert rest[j] in a || rest[j] in b;
      }
    }
  }

  lemma {:induction false} TiesConcat(cmp: Compare, x: int, s: seq<Node>, t: seq<Node>)
    ensures Ties(cmp, x, s + t) == Ties(cmp, x, s) + Ties(cmp, x, t)
    decreases |s|
  {
    if s == [] {
      assert s + t == t;
    } else {
      assert (s + t)[1..] == s[1..] + t;
      TiesConcat(cmp, x, s[1..], t);
    }
  }

  /** If the head of `b` comes strictly before all of `a`, no element of `a` ties with it. */
  lemma {:induction false} NoTies(cmp: Compare, x: int, a: seq<Node>)
    requires TotalPreorder(cmp) && forall i :: 0 <= i < |a| ==> !(cmp(a[i].key, x) <= 0)
    ensures Ties(cmp, x, a) == []
    decreases |a|
  {
    if a == [] {
    } else {
      NoTies(cmp, x, a[1..]);
    }
  }

  lemma {:induction false} MergeStable(cmp: Compare, x: int, a: seq<Node>, b: seq<Node>)
    requires TotalPreorder(cmp) && Sorted(cmp, a)
    ensures Ties(cmp, x, Merge(cmp, a, b)) == Ties(cmp, x, a) + Ties(cmp, x, b)
    decreases |a| + |b|
  {
    hide Sorted, TotalPreorder, Le;
    if a == [] {
    } else if b == [] {
    } else if Le(cmp, a[0], b[0]) {
      SortedTail(cmp, a);
      MergeStable(cmp, x, a[1..], b);
    } else {
      MergeStable(cmp, x, a, b[1..]);
      if cmp(x, b[0].key) <= 0 && cmp(b[0].key, x) <= 0 {
        NoneTied(cmp, x, a, b[0]);
      }
    }
  }

  lemma SortedTail(cmp: Compare, a: seq<Node>)
    requires Sorted(cmp, a) && a != []
    ensures Sorted(cmp, a[1..])
  {}

  /** An element that comes strictly before the head of a sorted list ties with none of it. */
  lemma NoneTied(cmp: Compare, x: int, a: seq<Node>, e: Node)
    requires TotalPreorder(cmp) && Sorted(cmp, a) && a != [] && !Le(cmp, a[0], e) && cmp(e.key, x) <= 0
    requires cmp(x, e.key) <= 0
    ensures Ties(cmp, x, a) == []
  {
    forall i | 0 <= i < |a| ensures !(cmp(a[i].key, x) <= 0) {
      assert i > 0 ==> Le(cmp, a[0], a[i]);
    }
    NoTies(cmp, x, a);
  }

  /** An element between the parts of a sorted list that it separates. */
  lemma SplicedSorted(cmp: Compare, a: seq<Node>, add: Node, b: seq<Node>)
    requires Sorted(cmp, a + b)
    requires forall i :: 0 <= i < |a| ==> Le(cmp, a[i], add)
    requires forall j :: 0 <= j < |b| ==> Le(cmp, add, b[j])
    ensures Sorted(cmp, a + [add] + b)
  {
    hide Le;
    var t := a + [add] + b;
    forall i, j | 0 <= i < j < |t| ensures Le(cmp, t[i], t[j]) {
      var i' := if i < |a| then i else i - 1;
      var j' := if j < |a| then j else j - 1;
      if i != |a| && j != |a| {
        assert (a + b)[i'] == t[i] && (a + b)[j'] == t[j];
      }
    }
  }

  // ---- passes ----

  lemma {:induction false} PassStable(cmp: Compare, s: seq<Node>, k: nat)
    requires k > 0 && TotalPreorder(cmp) && SortedRuns(cmp, s, k)
    ensures StablePermutation(cmp, s, Pass(cmp, s, k))
    decreases |s|
  {
    hide Merge, Pass, Ties, Sorted, SortedRuns, TotalPreorder, StablePermutation;
    if s == [] {
      PassNothing(cmp, s, k);
    } else {
      var m, n := Min(k, |s|), Min(2 * k, |s|);
      PassFirst(cmp, s, k);
      RunsSplit(cmp, s, k);
      PassStable(cmp, s[n..], k);
      PairStable(cmp, s[..m], s[m..n], s[n..], Pass(cmp, s[n..], k));
      ThreeParts(s, m, n);
    }
  }

  lemma PassNothing(cmp: Compare, s: seq<Node>, k: nat)
    requires k > 0 && s == []
    ensures StablePermutation(cmp, s, Pass(cmp, s, k))
  {}

  lemma PassFirst(cmp: Compare, s: seq<Node>, k: nat)
    requires k > 0 && s != []
    ensures var m, n := Min(k, |s|), Min(2 * k, |s|);
            Pass(cmp, s, k) == Merge(cmp, s[..m], s[m..n]) + Pass(cmp, s[n..], k)
  {
    hide Merge;
  }

  lemma ThreeParts(s: seq<Node>, m: nat, n: nat)
    requires m <= n <= |s|
    ensures s == s[..m] + s[m..n] + s[n..]
  {}

  lemma PairStable(cmp: Compare, a: seq<Node>, b: seq<Node>, rest: seq<Node>, r: seq<Node>)
    requires TotalPreorder(cmp) && Sorted(cmp, a) && StablePermutation(cmp, rest, r)
    ensures StablePermutation(cmp, a + b + rest, Merge(cmp, a, b) + r)
  {
    hide Merge, Ties, Sorted, TotalPreorder;
    MergeMultiset(cmp, a, b);
    forall x ensures Ties(cmp, x, a + b + rest) == Ties(cmp, x, Merge(cmp, a, b) + r) {
      MergeStable(cmp, x, a, b);
      TiesConcat(cmp, x, a + b, rest);
      TiesConcat(cmp, x, a, b);
      TiesConcat(cmp, x, Merge(cmp, a, b), r);
    }
  }

  lemma RunsSplit(cmp: Compare, s: seq<Node>, k: nat)
    requires k > 0 && s != [] && SortedRuns(cmp, s, k)
    ensures var m, n := Min(k, |s|), Min(2 * k, |s|);
            Sorted(cmp, s[..m]) && Sorted(cmp, s[m..n]) && SortedRuns(cmp, s[n..], k)
  {
    var m, n := Min(k, |s|), Min(2 * k, |s|);
    var t := s[m..];
    if t != [] {
      assert t[..Min(k, |t|)] == s[m..n] && t[Min(k, |t|)..] == s[n..];
    } else {
      assert s[m..n] == [] && s[n..] == t;
    }
  }

  /** After the pass with run length `k`, the runs of length `2k` are sorted. */
  lemma {:induction false} PassDoublesRuns(cmp: Compare, s: seq<Node>, k: nat)
    requires k > 0 && TotalPreorder(cmp) && SortedRuns(cmp, s, k)
    ensures SortedRuns(cmp, Pass(cmp, s, k), 2 * k)
    decreases |s|
  {
    hide Merge, Pass, Sorted, TotalPreorder;
    if s == [] {
    } else {
      var m, n := Min(k, |s|), Min(2 * k, |s|);
      PassFirst(cmp, s, k);
      RunsSplit(cmp, s, k);
      MergeSorted(cmp, s[..m], s[m..n]);
      PassDoublesRuns(cmp, s[n..], k);
      var r := Pass(cmp, s, k);
      assert r[..n] == Merge(cmp, s[..m], s[m..n]) && r[n..] == Pass(cmp, s[n..], k);
    }
  }

  lemma {:induction false} SingletonRuns(cmp: Compare, s: seq<Node>)
    ensures SortedRuns(cmp, s, 1)
    decreases |s|
  {
    if s == [] {
    } else {
      SingletonRuns(cmp, s[1..]);
    }
  }

  lemma OneRunIsSorted(cmp: Compare, s: seq<Node>, k: nat)
    requires k > 0 && SortedRuns(cmp, s, k) && |s| <= k
    ensures Sorted(cmp, s)
  {
    if s != [] {
      assert s[..Min(k, |s|)] == s;
    }
  }

  lemma {:induction false} SortFromSorts(cmp: Compare, s: seq<Node>, k: nat)
    requires k > 0 && TotalPreorder(cmp) && SortedRuns(cmp, s, k)
    ensures Sorted(cmp, SortFrom(cmp, s, k)) && StablePermutation(cmp, s, SortFrom(cmp, s, k))
    decreases |s| - k
  {
    PassStable(cmp, s, k);
    PassDoublesRuns(cmp, s, k);
    MergesBound(|s|, k);
    var t := Pass(cmp, s, k);
    if |s| <= 2 * k {
      OneRunIsSorted(cmp, t, 2 * k);
    } else {
      SortFromSorts(cmp, t, 2 * k);
    }
  }

  /** For every list and every total preorder: sorted, a permutation, and stable. */
  lemma SortSorts(cmp: Compare, s: seq<Node>)
    requires TotalPreorder(cmp)
    ensures Sorted(cmp, SortFrom(cmp, s, 1)) && StablePermutation(cmp, s, SortFrom(cmp, s, 1))
  {
    SingletonRuns(cmp, s);
    SortFromSorts(cmp, s, 1);
  }

  lemma {:induction false} PassPermutes(cmp: Compare, s: seq<Node>, k: nat)
    requires k > 0
    ensures multiset(Pass(cmp, s, k)) == multiset(s)
    decreases |s|
  {
    if s == [] {
    } else {
      var m, n := Min(k, |s|), Min(2 * k, |s|);
      assert s == s[..m] + s[m..n] + s[n..];
      MergeMultiset(cmp, s[..m], s[m..n]);
      PassPermutes(cmp, s[n..], k);
    }
  }

  /** Whatever the compare function says, no element is lost or doubled. */
  lemma {:induction false} SortPermutes(cmp: Compare, s: seq<Node>, k: nat)
    requires k > 0
    ensures multiset(SortFrom(cmp, s, k)) == multiset(s) && |SortFrom(cmp, s, k)| == |s|
    decreases |s| - k
  {
    PassPermutes(cmp, s, k);
    MergesBound(|s|, k);
    if |s| <= 2 * k {
    } else {
      SortPermutes(cmp, Pass(cmp, s, k), 2 * k);
    }
  }

  // ---- uniqueness ----

  ghost predicate SameTies(cmp: Compare, s: seq<Node>, t: seq<Node>) {
    forall x :: Ties(cmp, x, s) == Ties(cmp, x, t)
  }

  lemma TiesHead(cmp: Compare, s: seq<Node>)
    requires TotalPreorder(cmp) && s != []
    ensures Ties(cmp, s[0].key, s) != [] && Ties(cmp, s[0].key, s)[0] == s[0]
  {
    assert cmp(s[0].key, s[0].key) <= 0;
  }

  lemma {:induction false} TiesIn(cmp: Compare, x: int, s: seq<Node>, n: Node)
    requires n in Ties(cmp, x, s)
    ensures n in s
    decreases |s|
  {
    if n == s[0] {
    } else {
      TiesIn(cmp, x, s[1..], n);
    }
  }

  lemma FirstBelow(cmp: Compare, s: seq<Node>, t: seq<Node>)
    requires TotalPreorder(cmp) && Sorted(cmp, s) && s != [] && t != [] && SameTies(cmp, s, t)
    ensures cmp(s[0].key, t[0].key) <= 0
  {
    hide Ties;
    TiesHead(cmp, t);
    assert Ties(cmp, t[0].key, s) == Ties(cmp, t[0].key, t);
    TiesIn(cmp, t[0].key, s, t[0]);
    var i :| 0 <= i < |s| && s[i] == t[0];
    if i == 0 {
      assert cmp(s[0].key, s[0].key) <= 0;
    } else {
      assert Le(cmp, s[0], s[i]);
    }
  }

  lemma NonemptyTies(cmp: Compare, s: seq<Node>, t: seq<Node>)
    requires TotalPreorder(cmp) && s != [] && (SameTies(cmp, s, t) || SameTies(cmp, t, s))
    ensures t != []
  {
    hide Ties;
    TiesHead(cmp, s);
    assert Ties(cmp, s[0].key, s) == Ties(cmp, s[0].key, t);
    TiesIn(cmp, s[0].key, t, s[0]);
  }

  /** Sorted lists with the same ties are the same list: a stable sort has one possible result. */
  lemma {:induction false} StableSortUnique(cmp: Compare, s: seq<Node>, t: seq<Node>)
    requires TotalPreorder(cmp) && Sorted(cmp, s) && Sorted(cmp, t) && SameTies(cmp, s, t)
    ensures s == t
    decreases |s|
  {
    if s == [] || t == [] {
      if t != [] {
        NonemptyTies(cmp, t, s);
      } else if s != [] {
        NonemptyTies(cmp, s, t);
      }
    } else {
      FirstBelow(cmp, s, t);
      FirstBelow(cmp, t, s);
      SameHead(cmp, s, t);
      assert s == [s[0]] + s[1..] && t == [t[0]] + t[1..];
      StableSortUnique(cmp, s[1..], t[1..]);
    }
  }

  lemma SameHead(cmp: Compare, s: seq<Node>, t: seq<Node>)
    requires TotalPreorder(cmp) && s != [] && t != [] && SameTies(cmp, s, t)
    requires cmp(s[0].key, t[0].key) <= 0 && cmp(t[0].key, s[0].key) <= 0
    ensures s[0] == t[0] && SameTies(cmp, s[1..], t[1..])
  {
    var x := s[0].key;
    assert Ties(cmp, x, s) == Ties(cmp, x, t);
    assert cmp(x, x) <= 0;
    assert Ties(cmp, x, s)[0] == s[0] && Ties(cmp, x, t)[0] == t[0];
    forall y ensures Ties(cmp, y, s[1..]) == Ties(cmp, y, t[1..]) {
      assert Ties(cmp, y, s) == Ties(cmp, y, t);
      var h := [s[0]];
      if cmp(y, x) <= 0 && cmp(x, y) <= 0 {
        assert Ties(cmp, y, s) == h + Ties(cmp, y, s[1..]) && Ties(cmp, y, t) == h + Ties(cmp, y, t[1..]);
        assert (h + Ties(cmp, y, s[1..]))[1..] == Ties(cmp, y, s[1..]);
        assert (h + Ties(cmp, y, t[1..]))[1..] == Ties(cmp, y, t[1..]);
      }
    }
  }
}
