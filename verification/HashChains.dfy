/**
  The bucket array of uthash: every bucket heads a chain linked by hh_next and hh_prev and knows its
  length. Pushing, deleting, finding, and redistributing into twice as many buckets.
 */
module HashChains {
  import opened MergeSpec
  import opened SortList

  datatype Bucket = Bucket(hhHead: Node?, count: nat, expandMult: nat)

  // ---- bits ----

  /** Bitwise and of two unsigned numbers. */
  function And(a: nat, b: nat): (r: nat)
    ensures r <= b
  {
    if a == 0 || b == 0 then 0 else a % 2 * (b % 2) + 2 * And(a / 2, b / 2)
  }

  function Pow2(k: nat): (r: nat)
    ensures r > 0
  {
    if k == 0 then 1 else 2 * Pow2(k - 1)
  }

  /** Shift to the right. */
  function Shr(a: nat, k: nat): nat {
    if k == 0 then a else Shr(a / 2, k - 1)
  }

  /** Masking with one less than a power of two is the remainder, shifting is the quotient. */
  lemma {:induction false} AndMask(a: nat, k: nat)
    ensures And(a, Pow2(k) - 1) == a % Pow2(k) && Shr(a, k) == a / Pow2(k)
    decreases k
  {
    if k == 0 {
    } else {
      AndMask(a / 2, k - 1);
      var p := Pow2(k - 1);
      assert (2 * p - 1) / 2 == p - 1 && (2 * p - 1) % 2 == 1;
      HalfRemainder(a, p);
      if a == 0 {
        assert 0 % (2 * p) == 0;
      }
    }
  }

  lemma HalfRemainder(a: nat, p: nat)
    requires p > 0
    ensures a % (2 * p) == a % 2 + 2 * (a / 2 % p) && a / (2 * p) == a / 2 / p
  {
    var h := a / 2;
    var q, r := h / p, h % p;
    assert h == q * p + r;
    assert a == (2 * p) * q + (a % 2 + 2 * r) by {
      assert a == 2 * h + a % 2;
      assert 2 * (q * p) == (2 * p) * q;
    }
    RemainderUnique(a, 2 * p, q, a % 2 + 2 * r);
  }

  lemma RemainderUnique(a: nat, d: nat, q: nat, r: nat)
    requires d > 0 && a == d * q + r && r < d
    ensures a % d == r && a / d == q
  {
    var e := q - a / d;
    assert a % d - r == d * e;
    assert 0 - d < d * e < d;
    assert e == 0;
  }

  /** HASH_TO_BKT */
  function Slot(hashv: nat, numBuckets: nat): (b: nat)
    requires numBuckets > 0
    ensures b < numBuckets
  {
    And(hashv, numBuckets - 1)
  }

  // ---- one chain ----

  /** A chain of bucket order: the first has no predecessor, the last no successor. */
  ghost predicate HhChain(c: seq<Node>, hd: Node?)
    reads c`hhNext, c`hhPrev
  {
    && NoDup(c)
    && (if c == [] then hd == null else hd == c[0] && c[0].hhPrev == null && c[|c| - 1].hhNext == null)
    && (forall i {:trigger c[i].hhPrev} :: 0 < i < |c| ==> c[i].hhPrev == c[i - 1])
    && (forall i {:trigger c[i].hhNext} :: 0 <= i < |c| - 1 ==> c[i].hhNext == c[i + 1])
  }

  method PushChain(hd: Node?, add: Node, ghost c: seq<Node>)
    requires HhChain(c, hd) && add !in c
    modifies add`hhNext, add`hhPrev, c`hhPrev
    ensures HhChain([add] + c, add)
  {
    add.hhNext := hd;
    add.hhPrev := null;
    if hd != null {
      hd.hhPrev := add;
    }
  }

  method DeleteFromChain(hd: Node, del: Node, ghost c: seq<Node>, ghost k: nat) returns (h: Node?)
    requires HhChain(c, hd) && k < |c| && c[k] == del
    modifies c`hhNext, c`hhPrev
    ensures HhChain(Without(c, k), h)
  {
    h := hd;
    if h == del {
      h := del.hhNext;
    }
    assert del.hhPrev == if k == 0 then null else c[k - 1];
    assert del.hhNext == if k == |c| - 1 then null else c[k + 1];
    if del.hhPrev != null {
      del.hhPrev.hhNext := del.hhNext;
    }
    if del.hhNext != null {
      del.hhNext.hhPrev := del.hhPrev;
    }
  }

  function Without<T>(s: seq<T>, k: nat): seq<T>
    requires k < |s|
  {
    s[..k] + s[k + 1..]
  }

  /** HASH_FIND_IN_BKT: the first element of the chain with the hash value and the key. */
  method FindInBkt(hd: Node?, key: int, hashv: nat, ghost c: seq<Node>) returns (out: Node?)
    requires HhChain(c, hd)
    ensures out != null ==> out in c && out.hashv == hashv && out.key == key
    ensures out == null ==> forall n :: n in c ==> !(n.hashv == hashv && n.key == key)
  {
    out := hd;
    ghost var i := 0;
    while out != null
      invariant 0 <= i <= |c| && (i < |c| ==> out == c[i]) && (i == |c| ==> out == null)
      invariant forall j :: 0 <= j < i ==> !(c[j].hashv == hashv && c[j].key == key)
      decreases |c| - i
    {
      if out.hashv == hashv && out.key == key {
        break;
      }
      out := out.hhNext;
      i := i + 1;
    }
  }

  // ---- all chains ----

  /** Bucket `b` heads the chain `chains[b]` and counts it. */
  ghost predicate Hung(chains: seq<seq<Node>>, buckets: seq<Bucket>, nodes: set<Node>)
    reads nodes`hhNext, nodes`hhPrev
  {
    && |chains| == |buckets|
    && (forall b, n :: 0 <= b < |chains| && n in chains[b] ==> n in nodes)
    && forall b :: 0 <= b < |chains| ==> HhChain(chains[b], buckets[b].hhHead) && buckets[b].count == |chains[b]|
  }

  ghost predicate Separate(chains: seq<seq<Node>>) {
    forall b, d :: 0 <= b < |chains| && 0 <= d < |chains| && b != d ==> Disjoint(chains[b], chains[d])
  }

  /** Every element is in the bucket its hash value selects, and nothing else is in a bucket. */
  ghost predicate Placed(chains: seq<seq<Node>>, nodes: set<Node>)
    reads nodes`hashv
  {
    && (forall n :: n in nodes && chains != [] ==> n in chains[Slot(n.hashv, |chains|)])
    && forall b, n :: 0 <= b < |chains| && n in chains[b] ==> n in nodes && Slot(n.hashv, |chains|) == b
  }

  ghost predicate Nowhere(chains: seq<seq<Node>>, n: Node) {
    forall b :: 0 <= b < |chains| ==> n !in chains[b]
  }

  function Push(chains: seq<seq<Node>>, b: nat, n: Node): seq<seq<Node>>
    requires b < |chains|
  {
    chains[b := [n] + chains[b]]
  }

  /** The element becomes the first of its chain, and the bucket counts it. */
  method PushBkt(buckets: array<Bucket>, b: nat, add: Node, mult: nat, ghost chains: seq<seq<Node>>, ghost nodes: set<Node>)
    requires Hung(chains, buckets[..], nodes) && Separate(chains) && b < buckets.Length && add in nodes && Nowhere(chains, add)
    modifies buckets, nodes`hhNext, nodes`hhPrev
    ensures Hung(Push(chains, b, add), buckets[..], nodes) && Separate(Push(chains, b, add))
    ensures buckets[..] == old(buckets[..])[b := Bucket(add, old(buckets[b]).count + 1, mult)]
  {
    hide HhChain;
    var bkt := buckets[b];
    ghost var c := chains[b];
    assert HhChain(c, buckets[..][b].hhHead);
    PushChain(bkt.hhHead, add, c);
    forall d | 0 <= d < |chains| && d != b ensures HhChain(chains[d], buckets[..][d].hhHead) {
      assert Disjoint(chains[d], c) && forall i :: 0 <= i < |chains[d]| ==> chains[d][i] != add;
      assert old(HhChain(chains[d], buckets[..][d].hhHead));
    }
    buckets[b] := Bucket(add, bkt.count + 1, mult);
  }

  /** HASH_DEL_IN_BKT */
  method DelInBkt(buckets: array<Bucket>, b: nat, del: Node, ghost chains: seq<seq<Node>>, ghost k: nat, ghost nodes: set<Node>)
    requires Hung(chains, buckets[..], nodes) && Separate(chains) && b < buckets.Length
    requires k < |chains[b]| && chains[b][k] == del
    modifies buckets, nodes`hhNext, nodes`hhPrev
    ensures Hung(chains[b := Without(chains[b], k)], buckets[..], nodes)
    ensures Separate(chains[b := Without(chains[b], k)])
  {
    hide HhChain;
    var bkt := buckets[b];
    ghost var c := chains[b];
    assert HhChain(c, buckets[..][b].hhHead);
    Headed(c, bkt.hhHead);
    var h := DeleteFromChain(bkt.hhHead, del, c, k);
    forall d | 0 <= d < |chains| && d != b ensures HhChain(chains[d], buckets[..][d].hhHead) {
      assert Disjoint(chains[d], c);
      assert old(HhChain(chains[d], buckets[..][d].hhHead));
    }
    buckets[b] := Bucket(h, bkt.count - 1, bkt.expandMult);
  }

  lemma Headed(c: seq<Node>, hd: Node?)
    requires HhChain(c, hd)
    ensures hd == null <==> c == []
  {}

  // ---- counting ----

  function Beyond(count: nat, m: nat): nat {
    if count > m then count - m else 0
  }

  /** How many elements stand behind the first `m` of their chain. */
  function Over(chains: seq<seq<Node>>, m: nat): nat {
    if chains == [] then 0 else
      var last := |chains| - 1;
      Over(chains[..last], m) + Beyond(|chains[last]|, m)
  }

  lemma {:induction false} OverUpdate(chains: seq<seq<Node>>, b: nat, c: seq<Node>, m: nat)
    requires b < |chains|
    ensures Over(chains[b := c], m) == Over(chains, m) - Beyond(|chains[b]|, m) + Beyond(|c|, m)
    decreases |chains|
  {
    var last := |chains| - 1;
    if b < last {
      OverUpdate(chains[..last], b, c, m);
      assert chains[b := c][..last] == chains[..last][b := c];
    } else {
      assert chains[b := c][..last] == chains[..last];
    }
  }

  lemma {:induction false} OverEmpty(chains: seq<seq<Node>>, m: nat)
    requires forall b :: 0 <= b < |chains| ==> chains[b] == []
    ensures Over(chains, m) == 0
    decreases |chains|
  {
    if chains == [] {
    } else {
      OverEmpty(chains[..|chains| - 1], m);
    }
  }

  /** expand_mult tells how many multiples of the ideal length the chain may have, and no more than needed. */
  predicate MultFits(b: Bucket, ideal: nat) {
    && b.count <= (b.expandMult + 1) * ideal
    && (b.expandMult == 0 <==> b.count <= ideal)
    && (b.expandMult > 0 ==> b.count > (b.expandMult - 1) * ideal)
  }

  // ---- expansion ----

  /** The new buckets while elements `nodes` have been moved. */
  ghost predicate Spread(chains: seq<seq<Node>>, buckets: seq<Bucket>, nodes: set<Node>, ideal: nat, nonideal: nat)
    reads nodes`hhNext, nodes`hhPrev, nodes`hashv
  {
    && Hung(chains, buckets, nodes) && Separate(chains) && Placed(chains, nodes)
    && nonideal == Over(chains, ideal) && Over(chains, 0) == |nodes|
    && forall b :: 0 <= b < |buckets| ==> MultFits(buckets[b], ideal)
  }

  lemma MultGrows(b: Bucket, hd: Node?, ideal: nat)
    requires ideal > 0 && MultFits(b, ideal)
    ensures var c := b.count + 1;
            MultFits(Bucket(hd, c, if c > ideal && c > b.expandMult * ideal then b.expandMult + 1 else b.expandMult), ideal)
  {
    var m := b.expandMult;
    assert (m + 1) * ideal == m * ideal + ideal && (m + 2) * ideal == m * ideal + 2 * ideal;
    if m > 0 {
      assert (m - 1) * ideal == m * ideal - ideal;
    }
  }

  /** One element moves to its new bucket; the elements that have not moved yet are not touched. */
  method MoveOne(buckets: array<Bucket>, n: Node, ideal: nat, nonideal0: nat, ghost chains: seq<seq<Node>>, ghost nodes: set<Node>)
    returns (nonideal: nat, ghost moved: seq<seq<Node>>)
    requires ideal > 0 && buckets.Length > 0 && n !in nodes && Spread(chains, buckets[..], nodes, ideal, nonideal0)
    modifies buckets, n`hhNext, n`hhPrev, nodes`hhNext, nodes`hhPrev
    ensures Spread(moved, buckets[..], nodes + {n}, ideal, nonideal)
  {
    hide Hung, Separate, Placed, MultFits;
    nonideal := nonideal0;
    var b := Slot(n.hashv, buckets.Length);
    HungCounts(chains, buckets[..], nodes, n);
    MultGrows(buckets[..][b], n, ideal);
    var count, mult := buckets[b].count + 1, buckets[b].expandMult;
    if count > ideal {
      nonideal := nonideal + 1;
      if count > mult * ideal {
        mult := mult + 1;
      }
    }
    OverUpdate(chains, b, [n] + chains[b], ideal);
    OverUpdate(chains, b, [n] + chains[b], 0);
    PlacedPush(chains, b, n, nodes);
    moved := Push(chains, b, n);
    PushBkt(buckets, b, n, mult, chains, nodes + {n});
  }

  lemma HungCounts(chains: seq<seq<Node>>, buckets: seq<Bucket>, nodes: set<Node>, n: Node)
    requires Hung(chains, buckets, nodes) && n !in nodes
    ensures |chains| == |buckets| && forall b :: 0 <= b < |chains| ==> buckets[b].count == |chains[b]|
    ensures Nowhere(chains, n) && Hung(chains, buckets, nodes + {n})
  {}

  lemma PlacedPush(chains: seq<seq<Node>>, b: nat, n: Node, nodes: set<Node>)
    requires Placed(chains, nodes) && b < |chains| && b == Slot(n.hashv, |chains|)
    ensures Placed(Push(chains, b, n), nodes + {n})
  {
    hide Slot;
  }

  /** What is left of a chain: only its next links count. */
  ghost predicate HhRun(c: seq<Node>, p: Node?)
    reads c`hhNext
  {
    && NoDup(c)
    && (if c == [] then p == null else p == c[0] && c[|c| - 1].hhNext == null)
    && (forall i {:trigger c[i].hhNext} :: 0 <= i < |c| - 1 ==> c[i].hhNext == c[i + 1])
  }

  ghost predicate OutOf(c: seq<Node>, nodes: set<Node>) {
    forall i :: 0 <= i < |c| ==> c[i] !in nodes
  }

  function Elems(c: seq<Node>): set<Node> {
    set n | n in c
  }

  lemma RunHead(c: seq<Node>, p: Node?, nodes: set<Node>)
    requires HhRun(c, p) && OutOf(c, nodes)
    ensures p == null <==> c == []
    ensures c != [] ==> p == c[0] && HhRun(c[1..], p.hhNext) && OutOf(c[1..], nodes + {p}) && p !in nodes
    ensures c != [] ==> nodes + Elems(c) == nodes + {p} + Elems(c[1..]) && p in Elems(c)
    ensures c == [] ==> nodes + Elems(c) == nodes
  {
    if c != [] {
      assert c == [c[0]] + c[1..];
    }
  }

  /** The inner loop of HASH_EXPAND_BUCKETS: all elements of one old bucket move. */
  method MoveChain(hd: Node?, buckets: array<Bucket>, ideal: nat, nonideal0: nat,
                   ghost c: seq<Node>, ghost chains0: seq<seq<Node>>, ghost nodes: set<Node>)
    returns (nonideal: nat, ghost chains: seq<seq<Node>>)
    requires ideal > 0 && buckets.Length > 0 && Spread(chains0, buckets[..], nodes, ideal, nonideal0)
    requires HhRun(c, hd) && OutOf(c, nodes)
    modifies buckets, (nodes + Elems(c))`hhNext, (nodes + Elems(c))`hhPrev
    ensures Spread(chains, buckets[..], nodes + Elems(c), ideal, nonideal)
  {
    hide Spread, HhRun, OutOf, Elems;
    var thh := hd;
    nonideal, chains := nonideal0, chains0;
    ghost var rest: seq<Node>, done: set<Node> := c, nodes;
    while thh != null
      invariant HhRun(rest, thh) && OutOf(rest, done)
      invariant done + Elems(rest) == nodes + Elems(c)
      invariant Spread(chains, buckets[..], done, ideal, nonideal)
      decreases |rest|
    {
      RunHead(rest, thh, done);
      var next := thh.hhNext;
      nonideal, chains := MoveOne(buckets, thh, ideal, nonideal, chains, done);
      done, rest, thh := done + {thh}, rest[1..], next;
    }
    RunHead(rest, thh, done);
  }

  ghost predicate AllOut(chains: seq<seq<Node>>, i: nat, done: set<Node>) {
    forall d :: i <= d < |chains| ==> OutOf(chains[d], done)
  }

  /** The elements of the first `i` chains have been moved, those of the others have not. */
  ghost predicate MovedUpTo(chains: seq<seq<Node>>, i: nat, done: set<Node>, nodes: set<Node>) {
    && AllOut(chains, i, done) && done <= nodes
    && forall d :: 0 <= d < i && d < |chains| ==> Elems(chains[d]) <= done
  }

  lemma MovedNext(chains: seq<seq<Node>>, i: nat, done: set<Node>, nodes: set<Node>)
    requires MovedUpTo(chains, i, done, nodes) && i < |chains| && Separate(chains) && Elems(chains[i]) <= nodes
    ensures MovedUpTo(chains, i + 1, done + Elems(chains[i]), nodes)
    ensures OutOf(chains[i], done)
  {
    var done' := done + Elems(chains[i]);
    forall d | i + 1 <= d < |chains| ensures OutOf(chains[d], done') {
      assert Disjoint(chains[d], chains[i]) && OutOf(chains[d], done);
    }
  }

  lemma RedistributeStart(chains: seq<seq<Node>>, into: seq<Bucket>, buckets: seq<Bucket>, ideal: nat,
                          nodes: set<Node>, empties: seq<seq<Node>>)
    requires Hung(chains, buckets, nodes)
    requires |empties| == |into| && forall b :: 0 <= b < |into| ==> into[b] == Bucket(null, 0, 0) && empties[b] == []
    ensures MovedUpTo(chains, 0, {}, nodes) && Spread(empties, into, {}, ideal, 0) && |chains| == |buckets|
    ensures forall d :: 0 <= d < |chains| ==> HhRun(chains[d], buckets[d].hhHead) && Elems(chains[d]) <= nodes
  {
    OverEmpty(empties, ideal);
    OverEmpty(empties, 0);
  }

  lemma AllMoved(chains: seq<seq<Node>>, done: set<Node>, nodes: set<Node>)
    requires MovedUpTo(chains, |chains|, done, nodes) && Placed(chains, nodes) && chains != []
    ensures done == nodes
  {
    forall n | n in nodes ensures n in done {
      assert n in chains[Slot(n.hashv, |chains|)];
    }
  }

  /** The outer loop of HASH_EXPAND_BUCKETS. */
  method Redistribute(buckets: array<Bucket>, into: array<Bucket>, ideal: nat, ghost chains: seq<seq<Node>>, ghost nodes: set<Node>)
    returns (nonideal: nat, ghost moved: seq<seq<Node>>)
    requires ideal > 0 && into != buckets && into.Length > 0 && buckets.Length > 0
    requires Hung(chains, buckets[..], nodes) && Separate(chains) && Placed(chains, nodes)
    requires forall b :: 0 <= b < into.Length ==> into[b] == Bucket(null, 0, 0)
    modifies into, nodes`hhNext, nodes`hhPrev
    ensures Spread(moved, into[..], nodes, ideal, nonideal)
  {
    hide Hung, Separate, Placed, Spread, MovedUpTo, AllOut, HhRun, OutOf, Elems;
    moved := seq(into.Length, _ => []);
    nonideal := 0;
    ghost var done: set<Node> := {};
    RedistributeStart(chains, into[..], buckets[..], ideal, nodes, moved);
    for i := 0 to buckets.Length
      invariant |chains| == buckets.Length && MovedUpTo(chains, i, done, nodes) && done <= nodes
      invariant Spread(moved, into[..], done, ideal, nonideal)
      invariant forall d :: i <= d < |chains| ==> HhRun(chains[d], buckets[d].hhHead)
    {
      MovedNext(chains, i, done, nodes);
      ghost var next := done + Elems(chains[i]);
      StillOut(chains, i + 1, next, nodes);
      nonideal, moved := MoveChain(buckets[i].hhHead, into, ideal, nonideal, chains[i], moved, done);
      done := next;
    }
    AllMoved(chains, done, nodes);
  }

  lemma StillOut(chains: seq<seq<Node>>, i: nat, done: set<Node>, nodes: set<Node>)
    requires MovedUpTo(chains, i, done, nodes)
    ensures forall d, k :: i <= d < |chains| && 0 <= k < |chains[d]| ==> chains[d][k] !in done
    ensures done <= nodes
  {
    forall d, k | i <= d < |chains| && 0 <= k < |chains[d]| ensures chains[d][k] !in done {
      assert OutOf(chains[d], done);
    }
  }
}
