/** The mergesort of utlist and uthash as it runs: links rewritten in place, pass after pass. */
module SortList {
  import opened MergeSpec

  ghost predicate NoDup(s: seq<Node>) {
    forall i, j :: 0 <= i < j < |s| ==> s[i] != s[j]
  }

  ghost predicate Disjoint(s: seq<Node>, t: seq<Node>) {
    forall i, j :: 0 <= i < |s| && 0 <= j < |t| ==> s[i] != t[j]
  }

  ghost predicate Apart(o: seq<Node>, a: seq<Node>, b: seq<Node>) {
    NoDup(o) && NoDup(a) && NoDup(b) && Disjoint(o, a) && Disjoint(o, b) && Disjoint(a, b)
  }

  /** From `p` the next links run through `s`; nothing is said about what follows. */
  ghost predicate Run(s: seq<Node>, p: Node?)
    reads s`next
  {
    && (s != [] ==> p == s[0])
    && forall i {:trigger s[i].next} :: 0 <= i < |s| - 1 ==> s[i].next == s[i + 1]
  }

  /** From `p` the next links run through `s` and end. */
  ghost predicate Chain(s: seq<Node>, p: Node?)
    reads s`next
  {
    Run(s, p) && if s == [] then p == null else s[|s| - 1].next == null
  }

  /** The output so far, linked both ways, without a predecessor; its last next is still open. */
  ghost predicate Output(s: seq<Node>, list: Node?, tail: Node?)
    reads s`next, s`prev
  {
    && Run(s, list)
    && (forall i {:trigger s[i].prev} :: 0 < i < |s| ==> s[i].prev == s[i - 1])
    && if s == [] then list == null && tail == null else tail == s[|s| - 1] && s[0].prev == null
  }

  /** Appends `e` to the output; the runs that are still to be merged are not touched. */
  method Emit(list: Node?, tail: Node?, e: Node, ghost o: seq<Node>,
              ghost x: seq<Node>, ghost p: Node?, ghost y: seq<Node>, ghost q: Node?) returns (newList: Node?)
    requires Output(o, list, tail) && NoDup(o) && e !in o && Disjoint(o, x) && Disjoint(o, y)
    requires Run(x, p) && Chain(y, q)
    modifies o`next, e`prev
    ensures Output(o + [e], newList, e) && Run(x, p) && Chain(y, q)
  {
    newList := list;
    if tail != null {
      tail.next := e;
    } else {
      newList := e;
    }
    e.prev := tail;
  }

  lemma TakeFirst(o: seq<Node>, a: seq<Node>, b: seq<Node>, all: set<Node>)
    requires Apart(o, a, b) && Within(o, all) && Within(a, all) && Within(b, all)
    ensures NoDup(o)
    ensures a != [] ==> a[0] !in o && a[0] in all && Apart(o + [a[0]], a[1..], b) && Within(o + [a[0]], all)
    ensures b != [] ==> b[0] !in o && b[0] in all && Apart(o + [b[0]], a, b[1..]) && Within(o + [b[0]], all)
    ensures Disjoint(o, a) && Disjoint(o, b) && Disjoint(o, if a == [] then a else a[1..])
    ensures Disjoint(o, if b == [] then b else b[1..])
    ensures Within(if a == [] then a else a[1..], all) && Within(if b == [] then b else b[1..], all)
    ensures forall n :: n in o ==> n in all
  {}

  lemma Heads(x: seq<Node>, p: Node?, y: seq<Node>, q: Node?)
    requires Run(x, p) && Chain(y, q)
    ensures x != [] ==> p == x[0] && Run(x[1..], p.next)
    ensures q == null <==> y == []
    ensures y != [] ==> q == y[0] && Chain(y[1..], q.next)
  {}

  /** The head of the first run goes to the output. */
  method TakeP(p: Node, list: Node?, tail: Node?, ghost o: seq<Node>, ghost x: seq<Node>, ghost y: seq<Node>,
               ghost q: Node?, ghost all: set<Node>)
    returns (rest: Node?, newList: Node?)
    requires x != [] && Apart(o, x, y) && Run(x, p) && Chain(y, q) && Output(o, list, tail)
    requires Within(o, all) && Within(x, all) && Within(y, all)
    modifies all`next, all`prev
    ensures p == x[0] && Apart(o + [p], x[1..], y) && Run(x[1..], rest) && Chain(y, q) && Output(o + [p], newList, p)
    ensures Within(o + [p], all) && Within(x[1..], all)
  {
    hide Apart, Run, Chain, Output, Disjoint, NoDup, Within;
    Heads(x, p, y, q);
    TakeFirst(o, x, y, all);
    rest := p.next;
    newList := Emit(list, tail, p, o, x[1..], rest, y, q);
  }

  /** The head of the second run goes to the output. */
  method TakeQ(q: Node, list: Node?, tail: Node?, ghost o: seq<Node>, ghost x: seq<Node>, ghost y: seq<Node>,
               ghost p: Node?, ghost all: set<Node>)
    returns (rest: Node?, newList: Node?)
    requires y != [] && Apart(o, x, y) && Run(x, p) && Chain(y, q) && Output(o, list, tail)
    requires Within(o, all) && Within(x, all) && Within(y, all)
    modifies all`next, all`prev
    ensures q == y[0] && Apart(o + [q], x, y[1..]) && Run(x, p) && Chain(y[1..], rest) && Output(o + [q], newList, q)
    ensures Within(o + [q], all) && Within(y[1..], all)
  {
    hide Apart, Run, Chain, Output, Disjoint, NoDup, Within;
    Heads(x, p, y, q);
    TakeFirst(o, x, y, all);
    rest := q.next;
    newList := Emit(list, tail, q, o, x, p, y[1..], rest);
  }

  /** The inner loop: merges the run of `psize` elements at `p` with at most `qsize` elements at `q`. */
  method MergeRuns(
      cmp: Compare, p0: Node?, q0: Node?, psize0: nat, qsize0: nat, list0: Node?, tail0: Node?,
      ghost o: seq<Node>, ghost a: seq<Node>, ghost b: seq<Node>, ghost all: set<Node>)
    returns (list: Node?, tail: Node?, q: Node?)
    requires |a| == psize0 && Apart(o, a, b) && Run(a, p0) && Chain(b, q0) && Output(o, list0, tail0)
    requires Within(o, all) && Within(a, all) && Within(b, all)
    modifies all`next, all`prev
    ensures var m := Min(qsize0, |b|);
            && Output(o + Merge(cmp, a, b[..m]), list, tail) && Chain(b[m..], q)
            && Apart(o + Merge(cmp, a, b[..m]), [], b[m..])
            && Within(o + Merge(cmp, a, b[..m]), all) && Within(b[m..], all)
  {
    hide Merge, Apart, Run, Chain, Output, Disjoint, NoDup, Within, Remains;
    var p, psize, qsize := p0, psize0, qsize0;
    list, tail, q := list0, tail0, q0;
    ghost var out: seq<Node>, x: seq<Node>, y: seq<Node> := o, a, b;
    ghost var m := Min(qsize0, |b|);
    ghost var goal := o + Merge(cmp, a, b[..m]);
    RemainsStart(cmp, o, a, b, m);
    Heads(x, p, y, q);
    while psize > 0 || (qsize > 0 && q != null)
      invariant |x| == psize && Apart(out, x, y) && Run(x, p) && Chain(y, q) && Output(out, list, tail)
      invariant Within(out, all) && Within(x, all) && Within(y, all)
      invariant q == null <==> y == []
      invariant Remains(cmp, out, x, y, Min(qsize, |y|), goal, b[m..])
      decreases psize + |y|
    {
      Heads(x, p, y, q);
      var fromP := if psize == 0 then false else if qsize == 0 || q == null then true else cmp(p.key, q.key) <= 0;
      RemainsTake(cmp, out, x, y, Min(qsize, |y|), goal, b[m..], fromP);
      if fromP {
        var e := p;
        psize := psize - 1;
        p, list := TakeP(e, list, tail, out, x, y, q, all);
        tail, out, x := e, out + [e], x[1..];
      } else {
        var e := q;
        qsize := qsize - 1;
        q, list := TakeQ(e, list, tail, out, x, y, p, all);
        tail, out, y := e, out + [e], y[1..];
      }
      Heads(x, p, y, q);
    }
    RemainsNothing(cmp, out, x, y, goal, b[m..]);
  }

  /** With `k` elements of `y` still to be merged the output will be `goal`, and `rest` comes behind them. */
  ghost predicate Remains(cmp: Compare, out: seq<Node>, x: seq<Node>, y: seq<Node>, k: nat, goal: seq<Node>, rest: seq<Node>) {
    k <= |y| && out + Merge(cmp, x, y[..k]) == goal && y[k..] == rest
  }

  lemma RemainsStart(cmp: Compare, o: seq<Node>, a: seq<Node>, b: seq<Node>, m: nat)
    requires m <= |b|
    ensures Remains(cmp, o, a, b, m, o + Merge(cmp, a, b[..m]), b[m..])
  {}

  lemma RemainsTake(cmp: Compare, out: seq<Node>, x: seq<Node>, y: seq<Node>, k: nat, goal: seq<Node>, rest: seq<Node>, fromX: bool)
    requires Remains(cmp, out, x, y, k, goal, rest) && (fromX ==> x != []) && (!fromX ==> k > 0)
    requires x != [] && k > 0 ==> fromX == Le(cmp, x[0], y[0])
    ensures fromX ==> Remains(cmp, out + [x[0]], x[1..], y, k, goal, rest)
    ensures !fromX ==> Remains(cmp, out + [y[0]], x, y[1..], k - 1, goal, rest)
  {
    hide Merge;
    MergeTake(cmp, x, y, k, fromX);
    if fromX {
      Assoc(out, x[0], Merge(cmp, x[1..], y[..k]));
    } else {
      Assoc(out, y[0], Merge(cmp, x, y[1..][..k - 1]));
    }
  }

  lemma RemainsNothing(cmp: Compare, out: seq<Node>, x: seq<Node>, y: seq<Node>, goal: seq<Node>, rest: seq<Node>)
    requires x == [] && Remains(cmp, out, x, y, 0, goal, rest)
    ensures out == goal && y == rest
  {
    assert y[..0] == [] && Merge(cmp, x, y[..0]) == [];
  }

  lemma Assoc(o: seq<Node>, e: Node, r: seq<Node>)
    ensures o + ([e] + r) == (o + [e]) + r
  {}

  ghost predicate Within(s: seq<Node>, all: set<Node>) {
    forall i :: 0 <= i < |s| ==> s[i] in all
  }

  lemma MergeTake(cmp: Compare, x: seq<Node>, y: seq<Node>, m: nat, fromX: bool)
    requires m <= |y| && (fromX ==> x != []) && (!fromX ==> m > 0)
    requires x != [] && m > 0 ==> fromX == Le(cmp, x[0], y[0])
    ensures fromX ==> Merge(cmp, x, y[..m]) == [x[0]] + Merge(cmp, x[1..], y[..m])
    ensures !fromX ==> Merge(cmp, x, y[..m]) == [y[0]] + Merge(cmp, x, y[1..][..m - 1]) && y[1..][m - 1..] == y[m..]
  {
    if m > 0 {
      assert y[..m][1..] == y[1..][..m - 1];
      assert y[..m] == [y[0]] + y[1..][..m - 1];
    }
    if fromX && m == 0 {
      assert x == [x[0]] + x[1..];
      assert Merge(cmp, x[1..], []) == x[1..];
    }
  }

  // ---- passes ----

  /** Steps over at most `insize` elements of the list, to where the second run starts. */
  method StepOver(p: Node, insize: nat, ghost s: seq<Node>) returns (q: Node?, psize: nat)
    requires s != [] && Chain(s, p) && insize > 0
    ensures psize == Min(insize, |s|) && Chain(s[psize..], q)
  {
    q, psize := p, 0;
    var i := 0;
    while i < insize
      invariant 0 <= i <= insize && i < |s| ==> q == s[i]
      invariant 0 <= i == psize <= Min(insize, |s|) && (i < insize ==> i < |s|)
      invariant psize < |s| ==> q == s[psize]
      invariant psize == |s| ==> q == null
    {
      psize := psize + 1;
      q := q.next;
      if q == null {
        break;
      }
      i := i + 1;
    }
  }

  lemma ChainSplit(s: seq<Node>, p: Node?, m: nat)
    requires Chain(s, p) && 0 < m <= |s|
    ensures Run(s[..m], p)
  {}

  lemma ApartSplit(o: seq<Node>, s: seq<Node>, m: nat, all: set<Node>)
    requires Apart(o, [], s) && m <= |s| && Within(s, all)
    ensures Apart(o, s[..m], s[m..]) && Within(s[..m], all) && Within(s[m..], all)
  {}

  /** One pass over the whole list; the result's last next link is closed. */
  method SortPass(cmp: Compare, head: Node?, insize: nat, ghost s: seq<Node>, ghost all: set<Node>)
    returns (list: Node?, tail: Node?, nmerges: nat)
    requires insize > 0 && Chain(s, head) && NoDup(s) && Within(s, all)
    modifies all`next, all`prev
    ensures var t := Pass(cmp, s, insize);
            && Output(t, list, tail) && Chain(t, list) && NoDup(t) && Within(t, all)
            && nmerges == Merges(|s|, insize)
  {
    hide Apart, Run, Chain, Output, Disjoint, NoDup, Within, Merge, Pass, Merges;
    var p := head;
    list, tail, nmerges := null, null, 0;
    ghost var o: seq<Node>, rest: seq<Node> := [], s;
    StartPass(s, all);
    assert [] + Pass(cmp, s, insize) == Pass(cmp, s, insize);
    Heads([], p, rest, p);
    while p != null
      invariant Chain(rest, p) && Output(o, list, tail) && Apart(o, [], rest)
      invariant Within(o, all) && Within(rest, all) && (p == null <==> rest == [])
      invariant o + Pass(cmp, rest, insize) == Pass(cmp, s, insize)
      invariant nmerges + Merges(|rest|, insize) == Merges(|s|, insize)
      decreases |rest|
    {
      nmerges := nmerges + 1;
      Heads([], p, rest, p);
      var q, psize := StepOver(p, insize, rest);
      ChainSplit(rest, p, psize);
      ApartSplit(o, rest, psize, all);
      ghost var a, b := rest[..psize], rest[psize..];
      ghost var m := Min(insize, |b|);
      list, tail, p := MergeRuns(cmp, p, q, psize, insize, list, tail, o, a, b, all);
      ghost var merged, after := Merge(cmp, a, b[..m]), b[m..];
      PassStep(cmp, rest, insize);
      assert o + (merged + Pass(cmp, after, insize)) == o + merged + Pass(cmp, after, insize);
      o, rest := o + merged, after;
      Heads([], p, rest, p);
    }
    NothingLeft(cmp, rest, insize);
    assert o + [] == o;
    EndPass(o, rest, list, tail, all);
    Close(list, tail, o);
  }

  lemma NothingLeft(cmp: Compare, rest: seq<Node>, k: nat)
    requires k > 0 && rest == []
    ensures Pass(cmp, rest, k) == [] && Merges(|rest|, k) == 0
  {}

  lemma StartPass(s: seq<Node>, all: set<Node>)
    requires NoDup(s) && Within(s, all)
    ensures Apart([], [], s) && Output([], null, null) && Within([], all) && Run([], null)
  {}

  lemma PassStep(cmp: Compare, rest: seq<Node>, k: nat)
    requires k > 0 && rest != []
    ensures var psize := Min(k, |rest|);
            var b := rest[psize..];
            var m := Min(k, |b|);
            && Pass(cmp, rest, k) == Merge(cmp, rest[..psize], b[..m]) + Pass(cmp, b[m..], k)
            && Merges(|rest|, k) == 1 + Merges(|b[m..]|, k) && |b[m..]| < |rest|
  {
    var m, n := Min(k, |rest|), Min(2 * k, |rest|);
    var b := rest[m..];
    assert b[..Min(k, |b|)] == rest[m..n] && b[Min(k, |b|)..] == rest[n..];
  }

  lemma EndPass(o: seq<Node>, rest: seq<Node>, list: Node?, tail: Node?, all: set<Node>)
    requires Apart(o, [], rest) && Output(o, list, tail) && Within(o, all)
    ensures NoDup(o) && forall n :: n in o ==> n in all
  {}

  /** Ends the list at its last element, if it has one. */
  method Close(list: Node?, tail: Node?, ghost o: seq<Node>)
    requires NoDup(o) && Output(o, list, tail)
    modifies o`next
    ensures Output(o, list, tail) && Chain(o, list)
  {
    if tail != null {
      tail.next := null;
    }
  }
}
