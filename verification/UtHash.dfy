/**
  The hash table of uthash: each element is threaded through the application-order list and through
  the chain of the bucket that its hash value selects. The hash function is any function of the key.
 */
module UtHash {
  import opened MergeSpec
  import opened SortList
  import opened AppOrder
  import opened HashChains

  const INITIAL_NUM_BUCKETS := 32
  const INITIAL_NUM_BUCKETS_LOG2 := 5
  const BKT_CAPACITY_THRESH := 10

  // ---- Bloom filter ----

  function Bit(k: nat): bv8
    requires k < 8
  {
    if k == 0 then 1 else if k == 1 then 2 else if k == 2 then 4 else if k == 3 then 8
    else if k == 4 then 16 else if k == 5 then 32 else if k == 6 then 64 else 128
  }

  /** HASH_BLOOM_BITTEST */
  predicate BloomHas(bv: seq<bv8>, idx: nat)
    requires idx / 8 < |bv|
  {
    bv[idx / 8] & Bit(idx % 8) != 0
  }

  lemma BitSet(x: bv8, i: nat, j: nat)
    requires i < 8 && j < 8
    ensures (x | Bit(i)) & Bit(j) != 0 <==> i == j || x & Bit(j) != 0
  {
    var a, b := Bit(i), Bit(j);
    assert (x | a) & b == (x & b) | (a & b);
    assert i != j ==> a & b == 0;
    assert i == j ==> (x & b) | b != 0;
  }

  function BloomBytes(nbits: nat): nat {
    Pow2(nbits) / 8 + if Pow2(nbits) % 8 != 0 then 1 else 0
  }

  function BloomIndex(hashv: nat, nbits: nat): (idx: nat)
    ensures idx / 8 < BloomBytes(nbits)
  {
    And(hashv, Pow2(nbits) - 1)
  }

  /** HASH_BLOOM_ADD: one bit is set, every other answer stays. */
  method BloomAdd(bv: array<bv8>, hashv: nat, nbits: nat)
    requires bv.Length == BloomBytes(nbits)
    modifies bv
    ensures forall i :: 0 <= i / 8 < bv.Length ==>
      (BloomHas(bv[..], i) <==> i == BloomIndex(hashv, nbits) || BloomHas(old(bv[..]), i))
  {
    var idx := BloomIndex(hashv, nbits);
    bv[idx / 8] := bv[idx / 8] | Bit(idx % 8);
    forall i | 0 <= i / 8 < bv.Length
      ensures BloomHas(bv[..], i) <==> i == idx || BloomHas(old(bv[..]), i)
    {
      if i / 8 == idx / 8 {
        BitSet(old(bv[..])[idx / 8], idx % 8, i % 8);
      }
    }
  }

  // ---- expansion history ----

  /** How many expansions in a row, counted from the last, were ineffective. */
  function Trailing(h: seq<bool>): nat {
    if h == [] || !h[|h| - 1] then 0 else 1 + Trailing(h[..|h| - 1])
  }

  ghost predicate TwoInARow(h: seq<bool>) {
    exists i :: 0 < i < |h| && h[i - 1] && h[i]
  }

  /** Before the first two ineffective expansions in a row, the count of ineffective ones decides. */
  lemma TwoInARowGrows(h: seq<bool>, ineffective: bool)
    requires !TwoInARow(h)
    ensures TwoInARow(h + [ineffective]) <==> Trailing(h + [ineffective]) > 1
    ensures Trailing(h + [ineffective]) == if ineffective then Trailing(h) + 1 else 0
  {
    var g := h + [ineffective];
    assert g[..|h|] == h;
    assert Trailing(g) == if ineffective then Trailing(h) + 1 else 0;
    if Trailing(g) > 1 {
      assert h != [] && g[|h| - 1] && g[|h|];
    }
    if TwoInARow(g) {
      var i :| 0 < i < |g| && g[i - 1] && g[i];
    }
  }

  /** The quotient rounded up. */
  function CeilDiv(n: nat, d: nat): nat
    requires d > 0
  {
    (n + d - 1) / d
  }

  lemma CeilingParts(n: nat, d: nat)
    requires d > 0
    ensures CeilDiv(n, d) == n / d + (if n % d != 0 then 1 else 0)
  {
    var q, r := n / d, n % d;
    assert n == d * q + r;
    if r == 0 {
      RemainderUnique(n + d - 1, d, q, d - 1);
    } else {
      assert d * (q + 1) == d * q + d;
      RemainderUnique(n + d - 1, d, q + 1, r - 1);
    }
  }

  /** Shift and mask give the quotient rounded up, and it is positive. */
  lemma IdealIsCeiling(n: nat, k: nat)
    requires n > 0
    ensures Pow2(k + 1) == 2 * Pow2(k)
    ensures Shr(n, k + 1) + (if And(n, Pow2(k) * 2 - 1) != 0 then 1 else 0) == CeilDiv(n, 2 * Pow2(k)) > 0
  {
    hide And, Shr, CeilDiv;
    AndMask(n, k + 1);
    CeilingParts(n, 2 * Pow2(k));
    if n / (2 * Pow2(k)) == 0 {
      NoQuotient(n, 2 * Pow2(k));
    }
  }

  lemma NoQuotient(n: nat, d: nat)
    requires d > 0 && n / d == 0
    ensures n % d == n
  {}

  // ---- contents ----

  lemma ElemsAppend(s: seq<Node>, n: Node)
    ensures Elems(s + [n]) == Elems(s) + {n} && forall m :: m in Elems(s) <==> m in s
  {}

  lemma MapAppend(s: seq<Node>, n: Node)
    requires DistinctKeys(s) && n.key !in AsMap(s)
    ensures DistinctKeys(s + [n]) && AsMap(s + [n]) == AsMap(s)[n.key := n]
  {}

  lemma SameElems(s: seq<Node>, t: seq<Node>)
    requires DistinctKeys(s) && Elems(s) == Elems(t)
    ensures DistinctKeys(t) && AsMap(s) == AsMap(t)
  {
    assert forall n :: n in s <==> n in Elems(s);
    assert forall n :: n in t <==> n in Elems(t);
  }

  lemma InsertedFirst(cmp: Compare, n: Node)
    ensures InsertedAfterTies(cmp, [], n) == [] + [n]
  {}

  lemma MapWithout(s: seq<Node>, k: nat)
    requires DistinctKeys(s) && NoDup(s) && k < |s|
    ensures DistinctKeys(Without(s, k)) && AsMap(Without(s, k)) == AsMap(s) - {s[k].key}
  {
    OthersStay(s, k);
  }

  lemma ElemsWithout(s: seq<Node>, k: nat)
    requires NoDup(s) && k < |s|
    ensures Elems(Without(s, k)) == Elems(s) - {s[k]} && s[k] in Elems(s)
    ensures forall n :: n in Elems(s) <==> n in s
  {
    OthersStay(s, k);
  }

  lemma NoMembers(c: seq<Node>, nodes: set<Node>)
    requires forall n :: n in c ==> n in nodes
    ensures nodes == {} ==> c == []
  {
    if c != [] {
      assert c[0] in nodes;
    }
  }

  lemma MapLookup(s: seq<Node>, key: int)
    requires DistinctKeys(s)
    ensures key in AsMap(s) ==> AsMap(s)[key] in s && AsMap(s)[key].key == key
    ensures key !in AsMap(s) ==> forall n :: n in s ==> n.key != key
  {}

  /** The elements with other keys, in their order. */
  function WithoutKey(s: seq<Node>, key: int): (r: seq<Node>)
    ensures forall n :: n in r ==> n in s && n.key != key
    ensures forall n :: n in s && n.key != key ==> n in r
  {
    if s == [] then [] else (if s[0].key == key then [] else [s[0]]) + WithoutKey(s[1..], key)
  }

  lemma {:induction false} NoneWithKey(s: seq<Node>, key: int)
    requires forall n :: n in s ==> n.key != key
    ensures WithoutKey(s, key) == s
    decreases |s|
  {
    if s == [] {
    } else {
      assert s[0] in s;
      NoneWithKey(s[1..], key);
    }
  }

  lemma {:induction false} OneWithKey(s: seq<Node>, k: nat)
    requires DistinctKeys(s) && NoDup(s) && k < |s|
    ensures WithoutKey(s, s[k].key) == Without(s, k)
    decreases |s|
  {
    if k == 0 {
      NoneWithKey(s[1..], s[0].key);
    } else {
      OneWithKey(s[1..], k - 1);
      assert s[0] in s && s[k] in s;
      assert Without(s, k) == [s[0]] + Without(s[1..], k - 1);
    }
  }

  lemma KeyGone(s: seq<Node>, key: int)
    requires DistinctKeys(WithoutKey(s, key))
    ensures key !in AsMap(WithoutKey(s, key)) && forall n :: n in WithoutKey(s, key) ==> n.key != key
    ensures forall i :: 0 <= i < |WithoutKey(s, key)| ==> WithoutKey(s, key)[i] in s
  {}

  lemma SortedNothing(cmp: Compare)
    ensures SortFrom(cmp, [], 1) == []
  {}

  lemma SortedElems(cmp: Compare, s: seq<Node>)
    ensures Elems(SortFrom(cmp, s, 1)) == Elems(s)
  {
    SortPermutes(cmp, s, 1);
    assert forall n :: n in s <==> n in multiset(s);
    assert forall n :: n in SortFrom(cmp, s, 1) <==> n in multiset(SortFrom(cmp, s, 1));
  }

  lemma ElemsInserted(cmp: Compare, s: seq<Node>, n: Node)
    ensures Elems(InsertedAfterTies(cmp, s, n)) == Elems(s + [n])
  {
    var k := UpperBoundIndex(cmp, s, n.key);
    assert s == s[..k] + s[k..];
  }

  lemma Ends(s: seq<Node>, head: Node?, tail: Node?)
    requires AppList(s, head, tail)
    ensures head == null <==> s == []
    ensures tail == null <==> s == []
  {}

  lemma Singleton(n: Node)
    requires n.next == null && n.prev == null
    ensures AppList([n], n, n) && [] + [n] == [n] && Elems([]) == {}
  {}

  ghost predicate DistinctKeys(s: seq<Node>) {
    forall m, n :: m in s && n in s && m.key == n.key ==> m == n
  }

  /** The table seen as a map from keys to elements. */
  ghost function AsMap(s: seq<Node>): map<int, Node>
    requires DistinctKeys(s)
  {
    map n | n in s :: n.key := n
  }

  class HashTable {
    const hash: int -> nat
    const useBloom: bool
    const bloomBits: nat
    var head: Node?
    var tail: Node?
    var buckets: array<Bucket>
    var numBuckets: nat
    var log2NumBuckets: nat
    var numItems: nat
    var idealChainMaxlen: nat
    var nonidealItems: nat
    var ineffExpands: nat
    var noexpand: bool
    var bloom: array<bv8>
    ghost var order: seq<Node>
    ghost var chains: seq<seq<Node>>
    ghost var expansions: seq<bool>

    /** The bucket side holds the elements `nodes`, each once and in its place, and counts them. */
    ghost predicate Bucketed(nodes: set<Node>)
      reads this`buckets, this`numBuckets, this`log2NumBuckets, this`chains, this`numItems
      reads buckets, nodes`hhNext, nodes`hhPrev, nodes`hashv
    {
      && buckets.Length == numBuckets == Pow2(log2NumBuckets)
      && Hung(chains, buckets[..], nodes) && Separate(chains) && Placed(chains, nodes)
      && numItems == |nodes| == Over(chains, 0)
    }

    /** No bucket expansion has been given up before two in a row were ineffective, and all have been since. */
    ghost predicate Paced()
      reads this`ineffExpands, this`noexpand, this`expansions, this`log2NumBuckets
    {
      && ineffExpands == Trailing(expansions) && (noexpand <==> TwoInARow(expansions))
      && log2NumBuckets == INITIAL_NUM_BUCKETS_LOG2 + |expansions|
    }

    /** The filter answers yes for every element. */
    ghost predicate Filtered(nodes: set<Node>)
      reads this`bloom, bloom, nodes`hashv
    {
      useBloom ==>
        && bloom.Length == BloomBytes(bloomBits)
        && forall n :: n in nodes ==> BloomHas(bloom[..], BloomIndex(n.hashv, bloomBits))
    }

    /** The bucket array and the bits of the filter are separate memory. */
    ghost predicate TwoArrays()
      reads this`buckets, this`bloom
    {
      buckets as object != bloom as object
    }

    ghost predicate Hashed(nodes: set<Node>)
      reads nodes`hashv
    {
      forall n :: n in nodes ==> n.hashv == hash(n.key)
    }

    /** What HASH_FSCK checks, and what the other operations rely on. */
    ghost predicate Valid()
      reads this, order, buckets, bloom
    {
      DistinctKeys(order) && Linked()
    }

    ghost predicate Linked()
      reads this, order, buckets, bloom
    {
      && (head == null ==> order == [])
      && (head != null ==> AppList(order, head, tail) && Indexed(Elems(order)))
    }

    ghost function Contents(): map<int, Node>
      requires DistinctKeys(order)
      reads this
    {
      AsMap(order)
    }

    constructor (hash: int -> nat, useBloom: bool, bloomBits: nat)
      ensures Valid() && order == [] && this.hash == hash
      ensures this.useBloom == useBloom && this.bloomBits == bloomBits && fresh(buckets) && fresh(bloom)
    {
      this.hash, this.useBloom, this.bloomBits := hash, useBloom, bloomBits;
      head, tail, numBuckets, log2NumBuckets, numItems := null, null, 0, 0, 0;
      idealChainMaxlen, nonidealItems, ineffExpands, noexpand := 0, 0, 0, false;
      buckets := new Bucket[0](_ => Bucket(null, 0, 0));
      bloom := new bv8[0](_ => 0);
      order, chains, expansions := [], [], [];
    }

    /** HASH_EXPAND_BUCKETS */
    method ExpandBuckets(ghost nodes: set<Node>)
      requires Bucketed(nodes) && Paced() && !noexpand && numItems > 0
      modifies this`buckets, this`numBuckets, this`log2NumBuckets, this`idealChainMaxlen, this`nonidealItems
      modifies this`ineffExpands, this`noexpand, this`chains, this`expansions, nodes`hhNext, nodes`hhPrev
      ensures Bucketed(nodes) && Paced() && fresh(buckets) && numBuckets == 2 * old(numBuckets)
      ensures idealChainMaxlen == CeilDiv(numItems, numBuckets) && nonidealItems == Over(chains, idealChainMaxlen)
      ensures forall b :: 0 <= b < numBuckets ==> MultFits(buckets[b], idealChainMaxlen)
      ensures expansions == old(expansions) + [nonidealItems > numItems / 2]
    {
      hide *;
      var ideal := Ideal(nodes);
      var newBuckets := new Bucket[2 * numBuckets](_ => Bucket(null, 0, 0));
      var nonideal;
      ghost var moved;
      nonideal, moved := Fill(newBuckets, ideal, nodes);
      Install(newBuckets, ideal, nonideal, moved, nodes);
    }

    /** The quotient of elements and new buckets, rounded up by shift and mask. */
    method Ideal(ghost nodes: set<Node>) returns (ideal: nat)
      requires Bucketed(nodes) && numItems > 0
      ensures numBuckets == Pow2(log2NumBuckets) > 0 && numItems == |nodes|
      ensures ideal == CeilDiv(numItems, 2 * numBuckets) > 0
    {
      hide Hung, Separate, Placed, And, Shr, CeilDiv, Over;
      IdealIsCeiling(numItems, log2NumBuckets);
      ideal := Shr(numItems, log2NumBuckets + 1) + if And(numItems, numBuckets * 2 - 1) != 0 then 1 else 0;
    }

    method Fill(newBuckets: array<Bucket>, ideal: nat, ghost nodes: set<Node>) returns (nonideal: nat, ghost moved: seq<seq<Node>>)
      requires Bucketed(nodes) && newBuckets != buckets && newBuckets.Length == 2 * numBuckets && ideal > 0
      requires forall b :: 0 <= b < newBuckets.Length ==> newBuckets[b] == Bucket(null, 0, 0)
      modifies newBuckets, nodes`hhNext, nodes`hhPrev
      ensures Spread(moved, newBuckets[..], nodes, ideal, nonideal)
    {
      hide Hung, Separate, Placed, Spread, Over;
      nonideal, moved := Redistribute(buckets, newBuckets, ideal, chains, nodes);
    }

    /** The old bucket array goes, the new one comes, and the table notes how well the expansion went. */
    method Install(newBuckets: array<Bucket>, ideal: nat, nonideal: nat, ghost moved: seq<seq<Node>>, ghost nodes: set<Node>)
      requires Paced() && !noexpand && numBuckets == Pow2(log2NumBuckets) && newBuckets.Length == 2 * numBuckets
      requires numItems == |nodes| && Spread(moved, newBuckets[..], nodes, ideal, nonideal)
      modifies this`buckets, this`numBuckets, this`log2NumBuckets, this`idealChainMaxlen, this`nonidealItems
      modifies this`ineffExpands, this`noexpand, this`chains, this`expansions
      ensures Bucketed(nodes) && Paced() && buckets == newBuckets && numBuckets == 2 * old(numBuckets)
      ensures idealChainMaxlen == ideal && nonidealItems == nonideal == Over(chains, ideal)
      ensures forall b :: 0 <= b < numBuckets ==> MultFits(buckets[b], ideal)
      ensures expansions == old(expansions) + [nonidealItems > numItems / 2]
    {
      hide Hung, Separate, Placed, Spread, Trailing, TwoInARow, Over, MultFits;
      SpreadParts(moved, newBuckets[..], nodes, ideal, nonideal);
      idealChainMaxlen, nonidealItems, chains := ideal, nonideal, moved;
      numBuckets := numBuckets * 2;
      log2NumBuckets := log2NumBuckets + 1;
      buckets := newBuckets;
      TwoInARowGrows(expansions, nonidealItems > numItems / 2);
      expansions := expansions + [nonidealItems > numItems / 2];
      ineffExpands := if nonidealItems > numItems / 2 then ineffExpands + 1 else 0;
      if ineffExpands > 1 {
        noexpand := true;
      }
    }

    /** HASH_ADD_TO_BKT: the chain grows, and the buckets are doubled when it has become too long. */
    method AddToBkt(b: nat, add: Node, ghost nodes: set<Node>)
      requires Bucketed(nodes) && Paced() && add !in nodes && b == Slot(add.hashv, Pow2(log2NumBuckets)) && b < buckets.Length
      modifies this`buckets, this`numBuckets, this`log2NumBuckets, this`idealChainMaxlen, this`nonidealItems
      modifies this`ineffExpands, this`noexpand, this`chains, this`expansions, this`numItems
      modifies buckets, nodes`hhNext, nodes`hhPrev, add`hhNext, add`hhPrev
      ensures Bucketed(nodes + {add}) && Paced() && (buckets == old(buckets) || fresh(buckets))
      ensures |expansions| == |old(expansions)|
                + if old(buckets[b]).count + 1 >= (old(buckets[b]).expandMult + 1) * BKT_CAPACITY_THRESH && !old(noexpand) then 1 else 0
      ensures old(expansions) <= expansions && (old(noexpand) ==> noexpand && numBuckets == old(numBuckets))
      ensures expansions == old(expansions) ==> noexpand == old(noexpand) && numBuckets == old(numBuckets)
    {
      hide *;
      ghost var all := nodes + {add};
      var count, mult := Insert(b, add, nodes);
      if count >= (mult + 1) * BKT_CAPACITY_THRESH && !noexpand {
        ExpandBuckets(all);
      }
    }

    method Insert(b: nat, add: Node, ghost nodes: set<Node>) returns (count: nat, mult: nat)
      requires Bucketed(nodes) && add !in nodes && b == Slot(add.hashv, Pow2(log2NumBuckets)) && b < buckets.Length
      modifies this`chains, this`numItems, buckets, nodes`hhNext, nodes`hhPrev, add`hhNext, add`hhPrev
      ensures Bucketed(nodes + {add}) && numItems > 0
      ensures count == old(buckets[b]).count + 1 && mult == old(buckets[b]).expandMult
    {
      hide Hung, Separate, Placed, Over, Slot;
      numItems := numItems + 1;
      HungCounts(chains, buckets[..], nodes, add);
      OverUpdate(chains, b, [add] + chains[b], 0);
      PlacedPush(chains, b, add, nodes);
      mult, count := buckets[b].expandMult, buckets[b].count + 1;
      PushBkt(buckets, b, add, mult, chains, nodes + {add});
      chains := Push(chains, b, add);
    }

    /** HASH_ADD_TO_TABLE */
    method AddToTable(add: Node, ghost nodes: set<Node>)
      requires Indexed(nodes)
      requires add !in nodes && add.hashv == hash(add.key)
      modifies this`buckets, this`numBuckets, this`log2NumBuckets, this`idealChainMaxlen, this`nonidealItems
      modifies this`ineffExpands, this`noexpand, this`chains, this`expansions, this`numItems
      modifies buckets, bloom, nodes`hhNext, nodes`hhPrev, add`hhNext, add`hhPrev
      ensures Indexed(nodes + {add})
      ensures buckets == old(buckets) || fresh(buckets)
      ensures old(expansions) <= expansions
      ensures old(noexpand) || nodes == {} ==> noexpand == old(noexpand) && numBuckets == old(numBuckets)
    {
      hide Paced, Bucketed, Hashed, Filtered, Slot, Pow2;
      BucketInRange(nodes);
      var b := Slot(add.hashv, numBuckets);
      if nodes == {} {
        NoneCounted(nodes, b);
      }
      AddToBkt(b, add, nodes);
      Mark(add, nodes);
      HashedToo(nodes, add);
    }

    method Mark(add: Node, ghost nodes: set<Node>)
      requires Filtered(nodes)
      modifies bloom
      ensures Filtered(nodes + {add})
    {
      hide BloomHas, BloomIndex;
      if useBloom {
        BloomAdd(bloom, add.hashv, bloomBits);
      }
    }

    lemma BucketInRange(nodes: set<Node>)
      requires Bucketed(nodes)
      ensures numBuckets == Pow2(log2NumBuckets) == buckets.Length == |chains| > 0
    {}

    lemma NoneCounted(nodes: set<Node>, b: nat)
      requires Bucketed(nodes) && nodes == {} && b < buckets.Length
      ensures buckets[b].count == 0
    {
      hide Over, Separate, Placed, Pow2, HhChain;
      assert buckets[..][b].count == |chains[b]|;
      NoMembers(chains[b], nodes);
    }

    lemma HashedToo(nodes: set<Node>, add: Node)
      requires Hashed(nodes) && add.hashv == hash(add.key)
      ensures Hashed(nodes + {add})
    {}

    /** HASH_MAKE_TABLE */
    method MakeTable(add: Node)
      modifies this`buckets, this`numBuckets, this`log2NumBuckets, this`idealChainMaxlen, this`nonidealItems
      modifies this`ineffExpands, this`noexpand, this`chains, this`expansions, this`numItems, this`tail, this`bloom
      ensures Indexed({})
      ensures tail == add && fresh(buckets) && fresh(bloom) && !noexpand && numBuckets == INITIAL_NUM_BUCKETS
    {
      hide Bucketed, Filtered, BloomBytes;
      tail := add;
      idealChainMaxlen, nonidealItems, ineffExpands, noexpand := 0, 0, 0, false;
      expansions := [];
      MakeBuckets();
      MakeBloom();
    }

    method MakeBuckets()
      modifies this`buckets, this`numBuckets, this`log2NumBuckets, this`chains, this`numItems
      ensures Bucketed({}) && fresh(buckets) && log2NumBuckets == INITIAL_NUM_BUCKETS_LOG2 && numBuckets == INITIAL_NUM_BUCKETS
    {
      hide Over, Hung, Separate, Placed, Pow2;
      numItems, numBuckets, log2NumBuckets := 0, INITIAL_NUM_BUCKETS, INITIAL_NUM_BUCKETS_LOG2;
      buckets := new Bucket[INITIAL_NUM_BUCKETS](_ => Bucket(null, 0, 0));
      chains := seq(INITIAL_NUM_BUCKETS, _ => []);
      EmptyBuckets(chains, buckets[..]);
    }

    method MakeBloom()
      modifies this`bloom
      ensures Filtered({}) && fresh(bloom)
    {
      bloom := new bv8[if useBloom then BloomBytes(bloomBits) else 0](_ => 0);
    }

    /** Everything but the application order. */
    ghost predicate Indexed(nodes: set<Node>)
      reads this`buckets, this`numBuckets, this`log2NumBuckets, this`chains, this`numItems, this`bloom
      reads this`ineffExpands, this`noexpand, this`expansions
      reads buckets, bloom, nodes`hhNext, nodes`hhPrev, nodes`hashv
    {
      Bucketed(nodes) && Paced() && Filtered(nodes) && Hashed(nodes) && TwoArrays()
    }

    /** HASH_ADD: the element becomes the last in application order, and its key maps to it. */
    method Add(add: Node)
      requires Valid() && add !in order && add.key !in Contents()
      modifies this, buckets, bloom, order, add
      ensures Valid() && order == old(order) + [add] && Contents() == old(Contents())[add.key := add]
      ensures (buckets == old(buckets) || fresh(buckets)) && (bloom == old(bloom) || fresh(bloom))
      ensures old(head) != null ==>
                old(expansions) <= expansions && (old(noexpand) ==> noexpand && numBuckets == old(numBuckets))
      ensures old(head) == null ==> !noexpand && numBuckets == INITIAL_NUM_BUCKETS
    {
      hide Linked, Indexed, AppList, AsMap, DistinctKeys, Elems;
      MapAppend(order, add);
      ElemsAppend(order, add);
      SetHash(add);
      LinkLast(add);
      AddToTable(add, Elems(order));
      order := order + [add];
      Relinked();
    }

    lemma Relinked()
      requires AppList(order, head, tail) && Indexed(Elems(order))
      ensures Linked()
    {}

    /** HASH_VALUE, stored in the handle of an element that is not in the table yet. */
    method SetHash(add: Node)
      requires Linked() && add !in order
      modifies add`hashv
      ensures Linked() && add.hashv == hash(add.key)
    {
      hide Indexed, AppList;
      assert add !in Elems(order);
      add.hashv := hash(add.key);
    }

    /** The first element gets a table of its own. */
    method LinkFirst(add: Node)
      requires Linked() && head == null
      modifies this, add`next, add`prev
      ensures AppList([] + [add], head, tail) && Indexed(Elems(order)) && order == [] && Elems(order) == {}
      ensures fresh(buckets) && fresh(bloom) && !noexpand && numBuckets == INITIAL_NUM_BUCKETS
    {
      hide AppList, Elems, Indexed;
      add.next, add.prev := null, null;
      MakeTable(add);
      head := add;
      Singleton(add);
    }

    /** The element is linked behind the tail; the first one gets a table of its own. */
    method LinkLast(add: Node)
      requires Linked() && add !in order
      modifies this, order`next, add`next, add`prev
      ensures AppList(order + [add], head, tail) && Indexed(Elems(order)) && order == old(order)
      ensures (buckets == old(buckets) || fresh(buckets)) && (bloom == old(bloom) || fresh(bloom))
      ensures if old(head) == null then Elems(order) == {} && !noexpand && numBuckets == INITIAL_NUM_BUCKETS
              else expansions == old(expansions) && noexpand == old(noexpand) && numBuckets == old(numBuckets)
    {
      hide AppList, Indexed;
      if head == null {
        LinkFirst(add);
      } else {
        Ends(order, head, tail);
        AppendList(tail, add, head, order);
        tail := add;
      }
    }

    /** HASH_ADD_INORDER: the same, but in front of the first greater element. */
    method AddInorder(cmp: Compare, add: Node)
      requires Valid() && add !in order && add.key !in Contents()
      modifies this, buckets, bloom, order, add
      ensures Valid() && order == InsertedAfterTies(cmp, old(order), add) && Contents() == old(Contents())[add.key := add]
      ensures (buckets == old(buckets) || fresh(buckets)) && (bloom == old(bloom) || fresh(bloom))
      ensures old(head) != null ==>
                old(expansions) <= expansions && (old(noexpand) ==> noexpand && numBuckets == old(numBuckets))
      ensures old(head) == null ==> !noexpand && numBuckets == INITIAL_NUM_BUCKETS
    {
      hide Linked, Indexed, AppList, AsMap, DistinctKeys, Elems, InsertedAfterTies;
      MapAppend(order, add);
      ElemsAppend(order, add);
      ElemsInserted(cmp, order, add);
      SameElems(order + [add], InsertedAfterTies(cmp, order, add));
      SetHash(add);
      ghost var t := LinkInorder(cmp, add);
      AddToTable(add, Elems(order));
      order := t;
      Relinked();
    }

    method LinkInorder(cmp: Compare, add: Node) returns (ghost t: seq<Node>)
      requires Linked() && add !in order
      modifies this, order`next, order`prev, add`next, add`prev
      ensures t == InsertedAfterTies(cmp, order, add) && AppList(t, head, tail) && Indexed(Elems(order)) && order == old(order)
      ensures (buckets == old(buckets) || fresh(buckets)) && (bloom == old(bloom) || fresh(bloom))
      ensures if old(head) == null then Elems(order) == {} && !noexpand && numBuckets == INITIAL_NUM_BUCKETS
              else expansions == old(expansions) && noexpand == old(noexpand) && numBuckets == old(numBuckets)
    {
      hide AppList, Indexed, InsertedAfterTies;
      if head == null {
        LinkFirst(add);
        InsertedFirst(cmp, add);
        t := [] + [add];
      } else {
        Ends(order, head, tail);
        t := InsertedAfterTies(cmp, order, add);
        head, tail := InsertInorder(cmp, head, tail, add, order);
      }
    }

    // ---- finding ----

    /** HASH_FIND: the element of the key, or null; the filter never hides an element. */
    method Find(key: int) returns (out: Node?)
      requires Valid()
      ensures if key in Contents() then out == Contents()[key] else out == null
    {
      out := null;
      if head != null {
        out := FindByHashValue(key, hash(key));
      } else {
        assert Contents().Keys == {};
      }
    }

    /** HASH_FIND_BYHASHVALUE on a table */
    method FindByHashValue(key: int, hashv: nat) returns (out: Node?)
      requires Valid() && head != null && hashv == hash(key)
      ensures if key in Contents() then out == Contents()[key] else out == null
    {
      hide AppList, Hung, Separate, Placed, HhChain, Over, Paced, BloomHas, BloomIndex, Slot, Pow2, AsMap, DistinctKeys;
      out := null;
      var b := Slot(hashv, numBuckets);
      Reachable(key, b);
      if !useBloom || BloomHas(bloom[..], BloomIndex(hashv, bloomBits)) {
        out := FindInBkt(buckets[b].hhHead, key, hashv, chains[b]);
      }
    }

    /** The bucket and the filter both know the element of a key. */
    lemma Reachable(key: int, b: nat)
      requires Valid() && head != null && b == Slot(hash(key), Pow2(log2NumBuckets))
      ensures numBuckets == |chains| == buckets.Length == Pow2(log2NumBuckets) > 0
      ensures HhChain(chains[b], buckets[b].hhHead)
      ensures key in Contents() ==> var n := Contents()[key]; n in chains[b] && n.key == key && n.hashv == hash(key)
      ensures useBloom && key in Contents() ==> BloomHas(bloom[..], BloomIndex(hash(key), bloomBits))
      ensures forall n :: n in chains[b] && n.key == key ==> key in Contents() && Contents()[key] == n
    {
      hide HhChain, Over, Separate, BloomHas, BloomIndex, Slot, Pow2, AppList, Paced;
      assert HhChain(chains[b], buckets[..][b].hhHead);
    }

    // ---- deleting ----

    /** HASH_DELETE: the element leaves both structures; with the last element the table goes. */
    method Delete(del: Node) returns (ghost k: nat)
      requires Valid() && del in order
      modifies this, buckets, order
      ensures Valid() && k < |old(order)| && old(order)[k] == del && order == Without(old(order), k)
      ensures Contents() == old(Contents()) - {del.key}
      ensures buckets == old(buckets) && bloom == old(bloom)
      ensures order != [] ==> expansions == old(expansions) && noexpand == old(noexpand) && numBuckets == old(numBuckets)
    {
      hide Linked, Indexed, AppList, AsMap, DistinctKeys, Elems;
      k := Position(del);
      MapWithout(order, k);
      if del.prev == null && del.next == null {
        OnlyOne(k);
        head := null;
        order := [];
        NothingLinked();
      } else {
        Leave(del, k);
      }
    }

    method Leave(del: Node, ghost k: nat)
      requires Linked() && k < |order| && order[k] == del && !(del.prev == null && del.next == null)
      modifies this, buckets, order
      ensures Linked() && order == Without(old(order), k) && buckets == old(buckets) && bloom == old(bloom)
      ensures expansions == old(expansions) && noexpand == old(noexpand) && numBuckets == old(numBuckets)
    {
      hide Linked, Indexed, AppList, Elems;
      Linking(k);
      ElemsWithout(order, k);
      UnlinkApp(del, k);
      Drop(del, Elems(order));
      order := Without(order, k);
      Relinked();
    }

    ghost method Position(del: Node) returns (k: nat)
      requires Linked() && del in order
      ensures k < |order| && order[k] == del && NoDup(order)
    {
      k :| k < |order| && order[k] == del;
      Linking(k);
    }

    lemma Linking(k: nat)
      requires Linked() && k < |order|
      ensures head != null && tail != null && AppList(order, head, tail) && NoDup(order) && Indexed(Elems(order))
    {}

    lemma NothingLinked()
      requires head == null && order == []
      ensures Linked()
    {}

    lemma OnlyOne(k: nat)
      requires Linked() && k < |order| && order[k].prev == null && order[k].next == null
      ensures Without(order, k) == []
    {}

    method UnlinkApp(del: Node, ghost k: nat)
      requires AppList(order, head, tail) && k < |order| && order[k] == del && head != null && tail != null
      requires !(del.prev == null && del.next == null) && Indexed(Elems(order))
      modifies this`head, this`tail, order`next, order`prev
      ensures AppList(Without(order, k), head, tail) && Indexed(Elems(order))
    {
      hide Indexed;
      assert |order| > 1;
      head, tail := Unlink(head, tail, del, order, k);
    }

    /** HASH_DELETE_HH, the part about the bucket. The filter keeps its bits. */
    method Drop(del: Node, ghost nodes: set<Node>)
      requires Indexed(nodes) && del in nodes
      modifies this`chains, this`numItems, buckets, nodes`hhNext, nodes`hhPrev
      ensures Indexed(nodes - {del})
    {
      hide Hung, Separate, Placed, Over, Slot, Pow2, Paced, BloomHas, BloomIndex;
      BucketInRange(nodes);
      var b := Slot(del.hashv, numBuckets);
      ghost var c := chains;
      ghost var k := InChain(chains, buckets[..], nodes, del, b);
      DelInBkt(buckets, b, del, chains, k, nodes);
      chains := chains[b := Without(chains[b], k)];
      OverUpdate(c, b, Without(c[b], k), 0);
      DroppedFrom(c, chains, buckets[..], nodes, del, b, k);
      numItems := numItems - 1;
    }

    // ---- replacing and sorting ----

    /** HASH_FIND, and HASH_DELETE of what was found. */
    method FindAndDelete(key: int) returns (out: Node?)
      requires Valid()
      modifies this, buckets, order
      ensures Valid() && order == WithoutKey(old(order), key) && Contents() == old(Contents()) - {key}
      ensures if key in old(Contents()) then out == old(Contents())[key] else out == null
      ensures buckets == old(buckets) && bloom == old(bloom)
      ensures order != [] ==> expansions == old(expansions) && noexpand == old(noexpand) && numBuckets == old(numBuckets)
    {
      hide Linked, AsMap, DistinctKeys, AppList, Indexed;
      out := Find(key);
      MapLookup(order, key);
      ghost var before := order;
      if out != null {
        Distinct();
        ghost var k := Delete(out);
        OneWithKey(before, k);
      } else {
        NoneWithKey(order, key);
        assert Contents() - {key} == Contents();
      }
    }

    /** HASH_REPLACE: whatever the key mapped to, also the element itself, it now maps to the element, which comes last. */
    method Replace(add: Node) returns (replaced: Node?)
      requires Valid()
      modifies this, buckets, bloom, order, add
      ensures Valid() && order == WithoutKey(old(order), add.key) + [add]
      ensures Contents() == old(Contents())[add.key := add]
      ensures if add.key in old(Contents()) then replaced == old(Contents())[add.key] else replaced == null
      ensures WithoutKey(old(order), add.key) != [] ==>
                old(expansions) <= expansions && (old(noexpand) ==> noexpand && numBuckets == old(numBuckets))
      ensures WithoutKey(old(order), add.key) == [] ==> !noexpand && numBuckets == INITIAL_NUM_BUCKETS
      ensures (buckets == old(buckets) || fresh(buckets)) && (bloom == old(bloom) || fresh(bloom))
    {
      hide Linked, AsMap, DistinctKeys, AppList, Indexed;
      replaced := FindAndDelete(add.key);
      KeyGone(old(order), add.key);
      Present();
      Add(add);
    }

    /** HASH_REPLACE_INORDER: the same, but the element comes to its sorted place. */
    method ReplaceInorder(cmp: Compare, add: Node) returns (replaced: Node?)
      requires Valid()
      modifies this, buckets, bloom, order, add
      ensures Valid() && order == InsertedAfterTies(cmp, WithoutKey(old(order), add.key), add)
      ensures Contents() == old(Contents())[add.key := add]
      ensures if add.key in old(Contents()) then replaced == old(Contents())[add.key] else replaced == null
      ensures WithoutKey(old(order), add.key) != [] ==>
                old(expansions) <= expansions && (old(noexpand) ==> noexpand && numBuckets == old(numBuckets))
      ensures WithoutKey(old(order), add.key) == [] ==> !noexpand && numBuckets == INITIAL_NUM_BUCKETS
      ensures (buckets == old(buckets) || fresh(buckets)) && (bloom == old(bloom) || fresh(bloom))
    {
      hide Linked, AsMap, DistinctKeys, AppList, Indexed, InsertedAfterTies;
      replaced := FindAndDelete(add.key);
      KeyGone(old(order), add.key);
      Present();
      AddInorder(cmp, add);
    }

    lemma Present()
      requires Linked()
      ensures head == null <==> order == []
    {}

    ghost method Distinct()
      requires Linked()
      ensures NoDup(order)
    {
      if order != [] {
        Linking(0);
      }
    }

    method Sorting(cmp: Compare) returns (ghost t: seq<Node>)
      requires Linked()
      modifies this`head, this`tail, order`next, order`prev
      ensures t == SortFrom(cmp, order, 1) && (head == null ==> t == [])
      ensures head != null ==> AppList(t, head, tail) && Indexed(Elems(t))
    {
      hide AppList, SortFrom, Indexed;
      t := SortFrom(cmp, order, 1);
      SortedElems(cmp, order);
      if head != null {
        head, tail := AppOrder.Sort(cmp, head, tail, order);
      } else {
        SortedNothing(cmp);
      }
    }

    /** HASH_SRT: the application order becomes the sorted one; buckets and lookups are untouched. */
    method Sort(cmp: Compare)
      requires Valid()
      modifies this`head, this`tail, this`order, order`next, order`prev
      ensures Valid() && order == SortFrom(cmp, old(order), 1) && Contents() == old(Contents())
      ensures TotalPreorder(cmp) ==> Sorted(cmp, order) && StablePermutation(cmp, old(order), order)
    {
      hide DistinctKeys, AsMap, Elems, Sorted, TotalPreorder, StablePermutation, SortFrom, AppList, Indexed;
      ghost var before := order;
      ghost var t := Sorting(cmp);
      SortedElems(cmp, before);
      SameElems(before, t);
      order := t;
      if TotalPreorder(cmp) {
        SortSorts(cmp, before);
      }
    }

    // ---- the integrity check ----

    /** HASH_FSCK never complains about a valid table. */
    method Fsck() returns (ok: bool)
      requires Valid()
      ensures ok
    {
      hide AppList, Hung, HhChain, Separate, Placed, Over, Paced, Filtered, Hashed, Pow2, DistinctKeys, Elems;
      ok := true;
      if head != null {
        Counting();
        var count := 0;
        assert chains[..0] == [];
        OverEmpty(chains[..0], 0);
        for i := 0 to numBuckets
          invariant ok && count == Over(chains[..i], 0)
        {
          ChainAt(i);
          var good, bktCount := FsckBkt(buckets[i].hhHead, chains[i]);
          count := count + bktCount;
          ok := ok && good && buckets[i].count == bktCount;
          OverNext(chains, i);
        }
        assert chains[..numBuckets] == chains;
        var good, appCount := FsckApp(head, tail, order);
        ok := ok && count == numItems && good && appCount == numItems;
      }
    }

    lemma Counting()
      requires Linked() && head != null
      ensures numBuckets == |chains| == buckets.Length && numItems == |order| == Over(chains, 0)
    {
      SizeOfElems(order);
    }

    lemma ChainAt(i: nat)
      requires Linked() && head != null && i < numBuckets
      ensures i < |chains| == buckets.Length && HhChain(chains[i], buckets[i].hhHead) && buckets[i].count == |chains[i]|
    {
      assert HhChain(chains[i], buckets[..][i].hhHead);
    }
  }

  /** HASH_FSCK on one bucket: hh_prev is always the element before. */
  method FsckBkt(hd: Node?, ghost c: seq<Node>) returns (ok: bool, count: nat)
    requires HhChain(c, hd)
    ensures ok && count == |c|
  {
    ok, count := true, 0;
    var thh, prev: Node? := hd, null;
    while thh != null
      invariant count <= |c| && (count < |c| ==> thh == c[count]) && (count == |c| ==> thh == null)
      invariant ok && (count == 0 ==> prev == null) && (count > 0 ==> prev == c[count - 1])
      decreases |c| - count
    {
      if prev != thh.hhPrev {
        ok := false;
      }
      count := count + 1;
      prev := thh;
      thh := thh.hhNext;
    }
  }

  /** HASH_FSCK on the application order: prev is always the element before. */
  method FsckApp(head: Node, ghost tail: Node?, ghost s: seq<Node>) returns (ok: bool, count: nat)
    requires AppList(s, head, tail)
    ensures ok && count == |s|
  {
    ok, count := true, 0;
    var thh: Node?, prev: Node? := head, null;
    while thh != null
      invariant count <= |s| && (count < |s| ==> thh == s[count]) && (count == |s| ==> thh == null)
      invariant ok && (count == 0 ==> prev == null) && (count > 0 ==> prev == s[count - 1])
      decreases |s| - count
    {
      if prev != thh.prev {
        ok := false;
      }
      count := count + 1;
      prev := thh;
      thh := thh.next;
    }
  }

  lemma OverNext(chains: seq<seq<Node>>, i: nat)
    requires i < |chains|
    ensures Over(chains[..i + 1], 0) == Over(chains[..i], 0) + |chains[i]|
  {
    assert chains[..i + 1][..i] == chains[..i];
  }

  lemma {:induction false} SizeOfElems(s: seq<Node>)
    requires NoDup(s)
    ensures |Elems(s)| == |s|
    decreases |s|
  {
    if s == [] {
    } else {
      var last := |s| - 1;
      SizeOfElems(s[..last]);
      assert s == s[..last] + [s[last]];
      assert Elems(s) == Elems(s[..last]) + {s[last]};
      assert s[last] !in s[..last];
    }
  }

  ghost method InChain(chains: seq<seq<Node>>, buckets: seq<Bucket>, nodes: set<Node>, n: Node, b: nat) returns (k: nat)
    requires Hung(chains, buckets, nodes) && Placed(chains, nodes) && n in nodes && |chains| > 0
    requires b == Slot(n.hashv, |chains|)
    ensures k < |chains[b]| && chains[b][k] == n && |chains[b]| > 0 && NoDup(chains[b])
  {
    k :| k < |chains[b]| && chains[b][k] == n;
    assert HhChain(chains[b], buckets[b].hhHead);
  }

  lemma DroppedFrom(chains: seq<seq<Node>>, now: seq<seq<Node>>, buckets: seq<Bucket>, nodes: set<Node>, del: Node, b: nat, k: nat)
    requires b < |chains| && k < |chains[b]| && chains[b][k] == del && NoDup(chains[b])
    requires now == chains[b := Without(chains[b], k)]
    requires Hung(now, buckets, nodes) && Placed(chains, nodes)
    ensures Hung(now, buckets, nodes - {del}) && Placed(now, nodes - {del})
  {
    hide HhChain, Slot, Over;
    assert forall n :: n in Without(chains[b], k) <==> n in chains[b] && n != del by {
      OthersStay(chains[b], k);
    }
    assert del in chains[b] && Slot(del.hashv, |chains|) == b;
    assert forall d :: 0 <= d < |chains| && del in chains[d] ==> d == b;
  }

  lemma OthersStay(c: seq<Node>, k: nat)
    requires k < |c| && NoDup(c)
    ensures forall n :: n in Without(c, k) <==> n in c && n != c[k]
  {
    assert c == c[..k] + [c[k]] + c[k + 1..];
  }

  lemma EmptyBuckets(chains: seq<seq<Node>>, buckets: seq<Bucket>)
    requires |chains| == |buckets| && forall b :: 0 <= b < |buckets| ==> chains[b] == [] && buckets[b] == Bucket(null, 0, 0)
    ensures Hung(chains, buckets, {}) && Separate(chains) && Placed(chains, {}) && Over(chains, 0) == 0
    ensures Pow2(INITIAL_NUM_BUCKETS_LOG2) == INITIAL_NUM_BUCKETS
  {
    OverEmpty(chains, 0);
    assert Pow2(2) == 4 && Pow2(4) == 16;
  }

  lemma SpreadParts(chains: seq<seq<Node>>, buckets: seq<Bucket>, nodes: set<Node>, ideal: nat, nonideal: nat)
    requires Spread(chains, buckets, nodes, ideal, nonideal)
    ensures Hung(chains, buckets, nodes) && Separate(chains) && Placed(chains, nodes)
    ensures nonideal == Over(chains, ideal) && Over(chains, 0) == |nodes|
    ensures forall b :: 0 <= b < |buckets| ==> MultFits(buckets[b], ideal)
  {}
}
