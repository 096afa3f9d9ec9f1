/** Whole runs of operations on a uthash table: its order and its contents, and what outlives an expansion given up. */
module UtHashRuns {
  import opened MergeSpec
  import opened HashChains
  import opened AppOrder
  import opened UtHash

  datatype Op = Put(n: Node) | PutInorder(cmp: Compare, n: Node) | Del(key: int) | Sort(cmp: Compare)

  // ---- the order ----

  /** What one operation makes of the application order. */
  function Step(s: seq<Node>, op: Op): seq<Node> {
    match op
    case Put(n) => WithoutKey(s, n.key) + [n]
    case PutInorder(cmp, n) => InsertedAfterTies(cmp, WithoutKey(s, n.key), n)
    case Del(key) => WithoutKey(s, key)
    case Sort(cmp) => SortFrom(cmp, s, 1)
  }

  function Fold(s: seq<Node>, ops: seq<Op>): seq<Node>
    decreases |ops|
  {
    if ops == [] then s else Fold(Step(s, ops[0]), ops[1..])
  }

  // ---- the map ----

  /** What one operation makes of the map from keys to elements. */
  function MapStep(m: map<int, Node>, op: Op): map<int, Node> {
    match op
    case Put(n) => m[n.key := n]
    case PutInorder(_, n) => m[n.key := n]
    case Del(key) => m - {key}
    case Sort(_) => m
  }

  function MapFold(m: map<int, Node>, ops: seq<Op>): map<int, Node>
    decreases |ops|
  {
    if ops == [] then m else MapFold(MapStep(m, ops[0]), ops[1..])
  }

  lemma KeyLeaves(s: seq<Node>, key: int)
    requires DistinctKeys(s)
    ensures DistinctKeys(WithoutKey(s, key)) && AsMap(WithoutKey(s, key)) == AsMap(s) - {key}
  {
    hide WithoutKey;
  }

  lemma StepIsMapStep(s: seq<Node>, op: Op)
    requires DistinctKeys(s)
    ensures DistinctKeys(Step(s, op)) && AsMap(Step(s, op)) == MapStep(AsMap(s), op)
  {
    hide DistinctKeys, AsMap, Elems, InsertedAfterTies, WithoutKey, SortFrom;
    match op
    case Put(n) =>
      KeyLeaves(s, n.key);
      MapAppend(WithoutKey(s, n.key), n);
    case PutInorder(cmp, n) =>
      var r := WithoutKey(s, n.key);
      KeyLeaves(s, n.key);
      MapAppend(r, n);
      ElemsInserted(cmp, r, n);
      SameElems(r + [n], InsertedAfterTies(cmp, r, n));
    case Del(key) =>
      KeyLeaves(s, key);
    case Sort(cmp) =>
      SortedElems(cmp, s);
      SameElems(s, SortFrom(cmp, s, 1));
  }

  /** The order after a run is the map after the same run, each key once. */
  lemma {:induction false} FoldIsMapFold(s: seq<Node>, ops: seq<Op>)
    requires DistinctKeys(s)
    ensures DistinctKeys(Fold(s, ops)) && AsMap(Fold(s, ops)) == MapFold(AsMap(s), ops)
    decreases |ops|
  {
    hide DistinctKeys, AsMap, Step, MapStep;
    if ops == [] {
    } else {
      StepIsMapStep(s, ops[0]);
      FoldIsMapFold(Step(s, ops[0]), ops[1..]);
    }
  }

  // ---- sortedness over runs ----

  lemma {:induction false} WithoutKeySorted(cmp: Compare, s: seq<Node>, key: int)
    requires Sorted(cmp, s)
    ensures Sorted(cmp, WithoutKey(s, key))
    decreases |s|
  {
    if s == [] {
    } else {
      WithoutKeySorted(cmp, s[1..], key);
      var r := WithoutKey(s[1..], key);
      forall i | 0 <= i < |r| ensures Le(cmp, s[0], r[i]) {
        assert r[i] in s[1..];
      }
    }
  }

  /** A table that is filled in order and sorted by one order only, and emptied in any way, stays sorted. */
  lemma {:induction false} RunSorted(cmp: Compare, s: seq<Node>, ops: seq<Op>)
    requires TotalPreorder(cmp) && Sorted(cmp, s)
    requires forall op :: op in ops ==> !op.Put? && (op.PutInorder? || op.Sort? ==> op.cmp == cmp)
    ensures Sorted(cmp, Fold(s, ops))
    decreases |ops|
  {
    hide TotalPreorder, Sorted, InsertedAfterTies, SortFrom, WithoutKey, StablePermutation, Ties;
    if ops == [] {
    } else {
      assert ops[0] in ops;
      match ops[0] {
        case PutInorder(_, n) =>
          WithoutKeySorted(cmp, s, n.key);
          InsertedAfterTiesSorted(cmp, WithoutKey(s, n.key), n);
        case Del(key) => WithoutKeySorted(cmp, s, key);
        case Sort(_) => SortSorts(cmp, s);
      }
      RunSorted(cmp, Step(s, ops[0]), ops[1..]);
    }
  }

  // ---- the life of a table ----

  /** Whether the table outlives the operation: a delete of the last element frees it, also within a replace. */
  predicate Outlives(s: seq<Node>, op: Op) {
    match op
    case Put(n) => WithoutKey(s, n.key) != []
    case PutInorder(_, n) => WithoutKey(s, n.key) != []
    case Del(key) => WithoutKey(s, key) != []
    case Sort(_) => s != []
  }

  predicate OutlivesAll(s: seq<Node>, ops: seq<Op>)
    decreases |ops|
  {
    ops == [] || (Outlives(s, ops[0]) && OutlivesAll(Step(s, ops[0]), ops[1..]))
  }

  // ---- the run on a table ----

  ghost function OpNodes(ops: seq<Op>): set<Node> {
    set op | op in ops && (op.Put? || op.PutInorder?) :: op.n
  }

  /** One operation: puts replace what the key had, a delete looks the element up first. */
  method Apply(t: HashTable, op: Op)
    requires t.Valid()
    modifies t, t.buckets, t.bloom, Elems(t.order), OpNodes([op])
    ensures t.Valid() && t.order == Step(old(t.order), op)
    ensures Outlives(old(t.order), op) ==>
              old(t.expansions) <= t.expansions && (old(t.noexpand) ==> t.noexpand && t.numBuckets == old(t.numBuckets))
    ensures (t.buckets == old(t.buckets) || fresh(t.buckets)) && (t.bloom == old(t.bloom) || fresh(t.bloom))
    ensures Elems(t.order) <= Elems(old(t.order)) + OpNodes([op])
  {
    hide DistinctKeys, AsMap, HashTable.Linked, WithoutKey, InsertedAfterTies, SortFrom;
    match op
    case Put(n) =>
      assert op in [op];
      var replaced := t.Replace(n);
    case PutInorder(cmp, n) =>
      assert op in [op];
      var replaced := t.ReplaceInorder(cmp, n);
      ElemsInserted(cmp, WithoutKey(old(t.order), n.key), n);
    case Del(key) =>
      var out := t.FindAndDelete(key);
    case Sort(cmp) =>
      SortedElems(cmp, t.order);
      t.Sort(cmp);
  }

  /**
    After any run of puts, puts in order, deletes and sorts the table has the order of the run on sequences and
    the contents of the run on maps. If the table is never freed on the way, its expansions add up, and
    expansion once given up stays given up: the number of buckets is the same ever after.
   */
  method Run(t: HashTable, ops: seq<Op>)
    requires t.Valid()
    modifies t, t.buckets, t.bloom, Elems(t.order), OpNodes(ops)
    ensures t.Valid() && t.order == Fold(old(t.order), ops) && t.Contents() == MapFold(old(t.Contents()), ops)
    ensures OutlivesAll(old(t.order), ops) ==>
              old(t.expansions) <= t.expansions && (old(t.noexpand) ==> t.noexpand && t.numBuckets == old(t.numBuckets))
  {
    hide Fold, MapFold, OutlivesAll, Outlives, AsMap, DistinctKeys, HashTable.Linked, Step, MapStep;
    FoldIsMapFold(t.order, ops);
    var i := 0;
    assert ops[0..] == ops;
    while i < |ops|
      invariant i <= |ops| && t.Valid()
      invariant Fold(t.order, ops[i..]) == Fold(old(t.order), ops)
      invariant OutlivesAll(old(t.order), ops) ==>
                  && OutlivesAll(t.order, ops[i..]) && old(t.expansions) <= t.expansions
                  && (old(t.noexpand) ==> t.noexpand && t.numBuckets == old(t.numBuckets))
      invariant t.buckets == old(t.buckets) || fresh(t.buckets)
      invariant t.bloom == old(t.bloom) || fresh(t.bloom)
      invariant Elems(t.order) <= Elems(old(t.order)) + OpNodes(ops)
    {
      FoldStep(t.order, ops, i);
      Apply(t, ops[i]);
      i := i + 1;
    }
    FoldNothing(t.order, ops[i..]);
  }

  lemma FoldStep(s: seq<Node>, ops: seq<Op>, i: nat)
    requires i < |ops|
    ensures Fold(s, ops[i..]) == Fold(Step(s, ops[i]), ops[i + 1..])
    ensures OutlivesAll(s, ops[i..]) <==> Outlives(s, ops[i]) && OutlivesAll(Step(s, ops[i]), ops[i + 1..])
    ensures OpNodes([ops[i]]) <= OpNodes(ops)
  {
    assert ops[i..][1..] == ops[i + 1..];
  }

  lemma FoldNothing(s: seq<Node>, ops: seq<Op>)
    requires ops == []
    ensures Fold(s, ops) == s
  {}
}
