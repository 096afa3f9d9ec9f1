/**
  Which connections get a slot: what the accept thread has seen when it refuses one, and what the accept
  thread and a feed thread do when no other thread is inside a lock.
 */
module PoolAdmission {
  import opened Bytes
  import opened ClientPool
  import opened PoolInvariant
  import opened PoolTheorems

  // ---- over whole runs ----

  /** At the end of the run the accept thread is inside slot `j`, for connection `k`, and finds it taken. */
  ghost predicate FoundTaken(s: State, run: seq<Action>, j: nat, k: nat, f: Fds) {
    match Exec(s, run)
    case None => false
    case Some(s') => s'.acc == Holds(j, k, f) && j < |s'.slots| && Taken(s'.slots[j])
  }

  /** Action `m` of the run is that of a feed thread which clears slot `j` on its way out. */
  ghost predicate Clears(s: State, run: seq<Action>, m: nat, j: nat) {
    && m < |run| && run[m].DoFeedStep?
    && match Exec(s, run[..m])
       case None => false
       case Some(s') => run[m].t < |s'.feeds| && s'.feeds[run[m].t] == Feed(j, Closed)
  }

  /** The accept thread is looking for a slot for connection `k`. */
  predicate Scanning(acc: AcceptPc, k: nat, f: Fds) {
    (acc.Wants? || acc.Holds?) && acc.k == k && acc.f == f
  }

  /** Connection `k` is still to come, or the accept thread is looking for its slot. */
  predicate MayScan(s: State, k: nat, f: Fds) {
    |s.sessions| <= k || Scanning(s.acc, k, f)
  }

  /** How many slots it has been through. */
  function Passed(s: State, k: nat, f: Fds): nat {
    if Scanning(s.acc, k, f) then s.acc.i else 0
  }

  lemma SessionsKept(s: State, a: Action)
    requires Next(s, a).Some?
    ensures |s.sessions| <= |Next(s, a).value.sessions|
  {}

  /** One step of any thread: the scan goes on where it is, or one slot further if that slot is taken. */
  lemma ScanStep(s: State, a: Action, k: nat, f: Fds)
    requires Next(s, a).Some?
    ensures var s' := Next(s, a).value;
            && (MayScan(s', k, f) ==> MayScan(s, k, f))
            && (MayScan(s', k, f) && Passed(s', k, f) != Passed(s, k, f) ==>
                  && Passed(s', k, f) == Passed(s, k, f) + 1
                  && s.acc == Holds(Passed(s, k, f), k, f) && s.acc.i < |s.slots| && Taken(s.slots[s.acc.i]))
  {
    hide Taken, Stray, Due, Written, ServedBy;
    SessionsKept(s, a);
  }

  lemma ExecFirst(s: State, run: seq<Action>)
    requires run != [] && Exec(s, run).Some?
    ensures Next(s, run[0]).Some? && Exec(Next(s, run[0]).value, run[1..]) == Exec(s, run)
  {}

  lemma ExecPrefix(s: State, run: seq<Action>, m: nat)
    requires run != [] && m < |run| && Next(s, run[0]).Some?
    ensures Exec(s, run[..m + 1]) == Exec(Next(s, run[0]).value, run[1..][..m])
  {
    assert run[..m + 1][1..] == run[1..][..m];
  }

  lemma {:induction false} ScanOver(s: State, run: seq<Action>, k: nat, f: Fds)
    requires Exec(s, run).Some? && MayScan(Exec(s, run).value, k, f)
    ensures MayScan(s, k, f)
    decreases |run|
  {
    hide MayScan, Next;
    if run == [] {
    } else {
      ExecFirst(s, run);
      ScanOver(Next(s, run[0]).value, run[1..], k, f);
      ScanStep(s, run[0], k, f);
    }
  }

  /** Every slot that the scan has passed was taken at the moment it was looked at. */
  lemma {:induction false} PassedTaken(s: State, run: seq<Action>, k: nat, f: Fds, j: nat) returns (m: nat)
    requires Exec(s, run).Some? && MayScan(Exec(s, run).value, k, f)
    requires Passed(s, k, f) <= j < Passed(Exec(s, run).value, k, f)
    ensures m <= |run| && FoundTaken(s, run[..m], j, k, f)
    decreases |run|
  {
    hide MayScan, Passed, Next, FoundTaken;
    var s1 := Next(s, run[0]).value;
    ExecFirst(s, run);
    ScanOver(s1, run[1..], k, f);
    ScanStep(s, run[0], k, f);
    if j < Passed(s1, k, f) {
      m := 0;
      FoundAtOnce(s, run, j, k, f);
    } else {
      var m1 := PassedTaken(s1, run[1..], k, f, j);
      m := m1 + 1;
      FoundLater(s, run, m1, j, k, f);
    }
  }

  lemma FoundAtOnce(s: State, run: seq<Action>, j: nat, k: nat, f: Fds)
    requires s.acc == Holds(j, k, f) && j < |s.slots| && Taken(s.slots[j])
    ensures FoundTaken(s, run[..0], j, k, f)
  {}

  lemma FoundLater(s: State, run: seq<Action>, m: nat, j: nat, k: nat, f: Fds)
    requires run != [] && Next(s, run[0]).Some? && m < |run| && FoundTaken(Next(s, run[0]).value, run[1..][..m], j, k, f)
    ensures FoundTaken(s, run[..m + 1], j, k, f)
  {
    hide Next;
    ExecPrefix(s, run, m);
  }

  /** A slot is given up by its feed thread only. */
  lemma ClearStep(s: State, a: Action, j: nat)
    requires Next(s, a).Some? && j < |s.slots| && Taken(s.slots[j]) && Shaped(s)
    ensures var s' := Next(s, a).value;
            j < |s'.slots| && (Taken(s'.slots[j]) || (a.DoFeedStep? && a.t < |s.feeds| && s.feeds[a.t] == Feed(j, Closed)))
  {
    hide Stray, Due, Written, ServedBy;
  }

  lemma {:induction false} StaysTaken(s: State, run: seq<Action>, j: nat) returns (m: nat)
    requires Exec(s, run).Some? && j < |s.slots| && Taken(s.slots[j]) && Shaped(s)
    ensures var s' := Exec(s, run).value; j < |s'.slots| && (Taken(s'.slots[j]) || Clears(s, run, m, j))
    decreases |run|
  {
    hide Next, Shaped, Taken;
    if run == [] {
      m := 0;
    } else {
      ExecFirst(s, run);
      ClearStep(s, run[0], j);
      SlotsKept(s, run[0]);
      var s1 := Next(s, run[0]).value;
      if Taken(s1.slots[j]) {
        ShapedStep(s, run[0]);
        var m1 := StaysTaken(s1, run[1..], j);
        m := m1 + 1;
        ClearsLater(s, run, m1, j);
      } else {
        m := 0;
        assert run[..0] == [];
        SlotsKeptBy(s1, run[1..]);
      }
    }
  }

  lemma SlotsKept(s: State, a: Action)
    requires Next(s, a).Some?
    ensures |Next(s, a).value.slots| == |s.slots|
  {}

  lemma {:induction false} SlotsKeptBy(s: State, run: seq<Action>)
    requires Exec(s, run).Some?
    ensures |Exec(s, run).value.slots| == |s.slots|
    decreases |run|
  {
    hide Next;
    if run == [] {
    } else {
      SlotsKept(s, run[0]);
      ExecFirst(s, run);
      SlotsKeptBy(Next(s, run[0]).value, run[1..]);
    }
  }

  lemma ClearsLater(s: State, run: seq<Action>, m: nat, j: nat)
    requires run != [] && Next(s, run[0]).Some?
    ensures Clears(Next(s, run[0]).value, run[1..], m, j) ==> Clears(s, run, m + 1, j)
  {
    hide Next;
    if m < |run| - 1 {
      ExecPrefix(s, run, m);
    }
  }

  lemma {:induction false} ExecSplit(s: State, run: seq<Action>, m: nat)
    requires m <= |run| && Exec(s, run).Some?
    ensures Exec(s, run[..m]).Some? && Exec(Exec(s, run[..m]).value, run[m..]) == Exec(s, run)
    decreases |run|
  {
    hide Next, Exec;
    if m == 0 {
      EmptyRun(s);
      assert run[..0] == [] && run[0..] == run;
    } else {
      ExecFirst(s, run);
      ExecPrefix(s, run, m - 1);
      ExecSplit(Next(s, run[0]).value, run[1..], m - 1);
      assert run[1..][m - 1..] == run[m..];
    }
  }

  lemma EmptyRun(s: State)
    ensures Exec(s, []) == Some(s)
  {}

  lemma ClearsInRest(s: State, run: seq<Action>, m: nat, d: nat, j: nat)
    requires m <= |run| && Exec(s, run).Some? && Exec(s, run[..m]).Some? && Clears(Exec(s, run[..m]).value, run[m..], d, j)
    ensures m + d < |run| && Clears(s, run, m + d, j)
  {
    hide Exec, Next;
    ExecSplit(s, run, m + d);
    ExecSplit(s, run[..m + d], m);
    assert run[..m + d][..m] == run[..m] && run[..m + d][m..] == run[m..][..d];
  }

  /** Only an accept thread that has been through all slots refuses. */
  lemma RefusesAtEnd(s: State, a: Action)
    requires Reachable(s) && Next(s, a).Some?
    ensures Next(s, a).value.refused == s.refused + (if a.DoAcceptStep? && s.acc.Wants? && s.acc.i == |s.slots| then 1 else 0)
  {
    hide Stray, Due, Written, ServedBy, Taken;
    ReachableGood(s);
  }

  /**
    Every run of any threads that brings connection `k` to slot `i`: each slot before it was taken when the
    accept thread was inside its lock, and is taken now unless its feed thread has cleared it since. So a
    connection is refused only if at no slot it came to a client was missing.
   */
  lemma TakenWhenPassed(n: nat, members: nat, run: seq<Action>, k: nat, f: Fds, j: nat)
    requires Exec(Init(n, members), run).Some? && Exec(Init(n, members), run).value.acc.Wants?
    requires var acc := Exec(Init(n, members), run).value.acc; acc.k == k && acc.f == f && j < acc.i
    ensures exists m :: 0 <= m <= |run| && FoundTaken(Init(n, members), run[..m], j, k, f) && KeptSince(n, members, run, m, j)
  {
    hide FoundTaken, Next, Clears, Shaped;
    var s0 := Init(n, members);
    var m := PassedTaken(s0, run, k, f, j);
    FoundSlot(s0, run[..m], j, k, f);
    var s := Exec(s0, run[..m]).value;
    ExecSplit(s0, run, m);
    assert Reaches(n, members, run[..m], s);
    ReachableGood(s);
    var d := StaysTaken(s, run[m..], j);
    if !Taken(Exec(s0, run).value.slots[j]) {
      ClearsInRest(s0, run, m, d, j);
    }
  }

  /** The slot is taken at the end of the run, or a feed thread has cleared it from action `m` on. */
  ghost predicate KeptSince(n: nat, members: nat, run: seq<Action>, m: nat, j: nat) {
    match Exec(Init(n, members), run)
    case None => false
    case Some(s) => j < |s.slots| && (Taken(s.slots[j]) || exists c :: m <= c < |run| && Clears(Init(n, members), run, c, j))
  }

  lemma FoundSlot(s: State, run: seq<Action>, j: nat, k: nat, f: Fds)
    requires FoundTaken(s, run, j, k, f)
    ensures Exec(s, run).Some?
    ensures var s' := Exec(s, run).value; s'.acc == Holds(j, k, f) && j < |s'.slots| && Taken(s'.slots[j])
  {}

  // ---- threads on their own ----

  /** `n` steps of the accept thread and no other. */
  function Accepts(n: nat): (run: seq<Action>)
    ensures |run| == n
  {
    seq(n, _ => DoAcceptStep)
  }

  lemma AcceptsFirst(s: State, n: nat)
    requires n > 0
    ensures Exec(s, Accepts(n)) == match AcceptStep(s) { case None => None case Some(s') => Exec(s', Accepts(n - 1)) }
  {
    hide AcceptStep;
    assert Accepts(n)[1..] == Accepts(n - 1);
  }

  /** All locks that the accept thread can come to are free, and its connection is known. */
  ghost predicate Undisturbed(s: State, i: nat, k: nat, f: Fds) {
    && s.acc == Wants(i, k, f) && i <= |s.slots| == |s.slotLocks| == |s.owner| && k < |s.sessions|
    && s.clientLock == None && forall l :: i <= l < |s.slots| ==> s.slotLocks[l] == None
  }

  /** A taken slot is passed in two steps, which leave everything as it was. */
  lemma PassTaken(s: State, i: nat, k: nat, f: Fds, n: nat)
    requires Undisturbed(s, i, k, f) && i < |s.slots| && Taken(s.slots[i]) && n >= 2
    ensures Exec(s, Accepts(n)) == Exec(s.(acc := Wants(i + 1, k, f)), Accepts(n - 2))
    ensures Undisturbed(s.(acc := Wants(i + 1, k, f)), i + 1, k, f)
  {
    hide Exec;
    AcceptsFirst(s, n);
    var s1 := AcceptStep(s).value;
    AcceptsFirst(s1, n - 1);
    assert s.slotLocks[i := Some(Acceptor)][i := None] == s.slotLocks;
    assert AcceptStep(s1) == Some(s.(acc := Wants(i + 1, k, f)));
  }

  /** The state in which connection `k` has got slot `j`, its feed thread started and all locks free again. */
  function Admitted(s: State, j: nat, k: nat, f: Fds): State
    requires j < |s.slots| && j < |s.owner| && k < |s.sessions|
  {
    s.(slots := s.slots[j := Slot(f.sock, f.write, f.read)],
       owner := s.owner[j := Fed(k, |s.feeds|)],
       feeds := s.feeds + [Feed(j, Feeding)],
       sessions := s.sessions[k := s.sessions[k].(start := Due(s.disp, |s.log|, j))],
       clientsNumber := s.clientsNumber + 1,
       acc := Listening)
  }

  /** The state in which connection `k` is refused: the text is sent, the socket closed, no slot has changed. */
  function Refused(s: State, k: nat, f: Fds): State
    requires k < |s.sessions|
  {
    s.(sessions := s.sessions[k := s.sessions[k].(wire := s.sessions[k].wire + [Refusal])],
       fds := s.fds - {f.sock}, strays := s.strays + Stray(s.fds, f.sock, Sock(k)), refused := s.refused + 1, acc := Listening)
  }

  /** The state behind the second step: the slot is filled, its lock still held. */
  function Filling(s: State, i: nat, k: nat, f: Fds): State
    requires i < |s.slots| == |s.slotLocks| == |s.owner| && k < |s.sessions|
  {
    s.(slots := s.slots[i := Slot(f.sock, f.write, f.read)],
       owner := s.owner[i := Accepting(k)],
       sessions := s.sessions[k := s.sessions[k].(start := Due(s.disp, |s.log|, i))],
       slotLocks := s.slotLocks[i := Some(Acceptor)],
       acc := Filled(i))
  }

  lemma TakeSlot(s: State, i: nat, k: nat, f: Fds, n: nat)
    requires Undisturbed(s, i, k, f) && i < |s.slots| && !Taken(s.slots[i]) && n >= 2
    ensures Exec(s, Accepts(n)) == Exec(Filling(s, i, k, f), Accepts(n - 2))
  {
    hide Exec, Due;
    AcceptsFirst(s, n);
    AcceptsFirst(AcceptStep(s).value, n - 1);
  }

  /** From there: the client is counted, the lock let go, the feed thread started. */
  lemma CountAndSpawn(s: State, i: nat, k: nat)
    requires s.acc == Filled(i) && i < |s.slotLocks| && i < |s.owner| && s.owner[i] == Accepting(k) && s.clientLock == None
    ensures Exec(s, Accepts(5)) == Some(s.(
              clientsNumber := s.clientsNumber + 1, slotLocks := s.slotLocks[i := None],
              feeds := s.feeds + [Feed(i, Feeding)], owner := s.owner[i := Fed(k, |s.feeds|)], acc := Listening))
  {
    hide Exec;
    AcceptsFirst(s, 5);
    var s1 := AcceptStep(s).value;
    AcceptsFirst(s1, 4);
    var s2 := AcceptStep(s1).value;
    AcceptsFirst(s2, 3);
    var s3 := AcceptStep(s2).value;
    AcceptsFirst(s3, 2);
    var s4 := AcceptStep(s3).value;
    AcceptsFirst(s4, 1);
    NoActions(AcceptStep(s4).value);
  }

  /** A free slot is taken in seven steps. */
  lemma TakeFree(s: State, i: nat, k: nat, f: Fds)
    requires Undisturbed(s, i, k, f) && i < |s.slots| && !Taken(s.slots[i])
    ensures Exec(s, Accepts(7)) == Some(Admitted(s, i, k, f))
  {
    hide Exec, Due, Accepts, Taken;
    TakeSlot(s, i, k, f, 7);
    CountAndSpawn(Filling(s, i, k, f), i, k);
    assert s.slotLocks[i := Some(Acceptor)][i := None] == s.slotLocks;
    assert s.owner[i := Accepting(k)][i := Fed(k, |s.feeds|)] == s.owner[i := Fed(k, |s.feeds|)];
  }

  lemma NoActions(s: State)
    ensures Exec(s, Accepts(0)) == Some(s)
  {}

  /** The first free slot from `i` on is `j`, or there is none and `j` is the number of slots. */
  ghost predicate FirstFree(slots: seq<Slot>, i: nat, j: nat) {
    i <= j <= |slots| && (forall l :: i <= l < j ==> Taken(slots[l])) && (j < |slots| ==> !Taken(slots[j]))
  }

  /**
    The accept thread alone, while no lock is held: the connection gets the first free slot and a feed
    thread, and is refused if and only if there is none.
   */
  lemma {:induction false} AcceptAlone(s: State, i: nat, j: nat, k: nat, f: Fds)
    requires Undisturbed(s, i, k, f) && FirstFree(s.slots, i, j)
    ensures j < |s.slots| ==> Exec(s, Accepts(2 * (j - i) + 7)) == Some(Admitted(s, j, k, f))
    ensures j == |s.slots| ==> Exec(s, Accepts(2 * (j - i) + 1)) == Some(Refused(s, k, f))
    decreases j - i
  {
    hide Exec, AcceptStep, Undisturbed, Taken;
    if i < j {
      var n := 2 * (j - i) + if j < |s.slots| then 7 else 1;
      StillThere(s, i, k, f);
      PassTaken(s, i, k, f, n);
      AcceptAlone(s.(acc := Wants(i + 1, k, f)), i + 1, j, k, f);
    } else if j < |s.slots| {
      StillThere(s, i, k, f);
      TakeFree(s, i, k, f);
    } else {
      RefuseAtEnd(s, i, k, f);
    }
  }

  /**
    In a reachable state, with a connection just accepted and no lock held, the steps of the accept thread lead
    back to its listening, with a refusal if and only if every slot is taken.
   */
  lemma RefusedIffFull(s: State, k: nat, f: Fds) returns (r: nat)
    requires Reachable(s) && s.acc == Wants(0, k, f) && s.clientLock == None
    requires forall l :: 0 <= l < |s.slotLocks| ==> s.slotLocks[l] == None
    ensures Exec(s, Accepts(r)).Some? && Exec(s, Accepts(r)).value.acc.Listening?
    ensures Exec(s, Accepts(r)).value.refused > s.refused <==> forall l :: 0 <= l < |s.slots| ==> Taken(s.slots[l])
  {
    hide Exec, Taken, Undisturbed;
    AtRest(s, k, f);
    var j := FreeFrom(s.slots, 0);
    AcceptAlone(s, 0, j, k, f);
    r := 2 * j + if j < |s.slots| then 7 else 1;
  }

  lemma AtRest(s: State, k: nat, f: Fds)
    requires Reachable(s) && s.acc == Wants(0, k, f) && s.clientLock == None
    requires forall l :: 0 <= l < |s.slotLocks| ==> s.slotLocks[l] == None
    ensures Undisturbed(s, 0, k, f)
  {
    ReachableGood(s);
  }

  lemma {:induction false} FreeFrom(slots: seq<Slot>, i: nat) returns (j: nat)
    requires i <= |slots|
    ensures FirstFree(slots, i, j)
    decreases |slots| - i
  {
    if i == |slots| || !Taken(slots[i]) {
      j := i;
    } else {
      j := FreeFrom(slots, i + 1);
    }
  }

  lemma StillThere(s: State, i: nat, k: nat, f: Fds)
    requires Undisturbed(s, i, k, f)
    ensures s.acc == Wants(i, k, f) && i <= |s.slots| == |s.slotLocks| == |s.owner| && k < |s.sessions|
  {}

  lemma RefuseAtEnd(s: State, i: nat, k: nat, f: Fds)
    requires Undisturbed(s, i, k, f) && i == |s.slots|
    ensures Exec(s, Accepts(1)) == Some(Refused(s, k, f))
  {
    hide Exec;
    AcceptsFirst(s, 1);
    NoActions(Refused(s, k, f));
  }

  /** `n` steps of feed thread `t` and no other. */
  function Leaves(t: nat, n: nat): (run: seq<Action>)
    ensures |run| == n
  {
    seq(n, _ => DoFeedStep(t))
  }

  lemma LeavesFirst(s: State, t: nat, n: nat)
    requires n > 0
    ensures Exec(s, Leaves(t, n)) == match FeedStep(s, t) { case None => None case Some(s') => Exec(s', Leaves(t, n - 1)) }
  {
    hide FeedStep;
    assert Leaves(t, n)[1..] == Leaves(t, n - 1);
  }

  /** The state in which feed thread `t` has unregistered its client: slot free, three descriptors closed, thread gone. */
  function Left(s: State, t: nat): State
    requires t < |s.feeds| && s.feeds[t].slot < |s.slots| && s.feeds[t].slot < |s.owner|
  {
    var i := s.feeds[t].slot;
    s.(slots := s.slots[i := Slot(-1, -1, -1)], owner := s.owner[i := Nobody], clientsNumber := s.clientsNumber - 1,
       fds := s.fds - {s.slots[i].writeFd, s.slots[i].readFd, s.slots[i].socketFd},
       feeds := s.feeds[t := Feed(i, Gone)])
  }

  lemma ClosesOwn(s: State, s1: State, s2: State, t: nat)
    requires Reachable(s) && Next(s, DoFeedStep(t)) == Some(s1) && Next(s1, DoFeedStep(t)) == Some(s2)
    requires Next(s2, DoFeedStep(t)).Some?
    ensures Next(s2, DoFeedStep(t)).value.strays == s.strays
  {
    hide FeedStep, Reachable;
    ReachableNext(s, DoFeedStep(t));
    ReachableNext(s1, DoFeedStep(t));
    ReachableNext(s2, DoFeedStep(t));
    NoStrayAccess(s);
    NoStrayAccess(Next(s2, DoFeedStep(t)).value);
  }

  /** The first four steps: the lock of the slot is taken, the descriptors are closed, the slot is cleared. */
  lemma LeaveSlot(s: State, t: nat, n: nat)
    requires Reachable(s) && t < |s.feeds| && s.feeds[t].pc.Feeding? && n >= 4
    requires s.feeds[t].slot < |s.slotLocks| && s.slotLocks[s.feeds[t].slot] == None
    ensures var i := s.feeds[t].slot;
            && i < |s.slots| == |s.slotLocks| == |s.owner|
            && Exec(s, Leaves(t, n)) == Exec(Left(s, t).(
                 clientsNumber := s.clientsNumber, feeds := s.feeds[t := Feed(i, Cleared)],
                 slotLocks := s.slotLocks[i := Some(FeedThread(t))]), Leaves(t, n - 4))
  {
    hide Exec, Stray, ServedBy;
    ShapedNow(s);
    LeavesFirst(s, t, n);
    var s1 := FeedStep(s, t).value;
    LeavesFirst(s1, t, n - 1);
    var s2 := FeedStep(s1, t).value;
    LeavesFirst(s2, t, n - 2);
    var s3 := FeedStep(s2, t).value;
    ClosesOwn(s, s1, s2, t);
    LeavesFirst(s3, t, n - 3);
    var s4 := FeedStep(s3, t).value;
    assert s4.fds == Left(s, t).fds;
    assert s4.feeds == s.feeds[t := Feed(s.feeds[t].slot, Cleared)];
  }

  lemma ShapedNow(s: State)
    requires Reachable(s)
    ensures Shaped(s)
  {
    ReachableGood(s);
  }

  /** The last four: the client is counted off, the lock of the slot let go, the thread ends. */
  lemma LeaveCount(s: State, t: nat)
    requires t < |s.feeds| && s.feeds[t].pc.Cleared? && s.feeds[t].slot < |s.slots| == |s.slotLocks| == |s.owner|
    requires s.clientLock == None
    ensures var i := s.feeds[t].slot;
            Exec(s, Leaves(t, 4)) == Some(s.(
              clientsNumber := s.clientsNumber - 1, feeds := s.feeds[t := Feed(i, Gone)], slotLocks := s.slotLocks[i := None]))
  {
    hide Exec, Stray, ServedBy, Taken, Leaves;
    LeavesFirst(s, t, 4);
    var s1 := FeedStep(s, t).value;
    LeavesFirst(s1, t, 3);
    var s2 := FeedStep(s1, t).value;
    LeavesFirst(s2, t, 2);
    var s3 := FeedStep(s2, t).value;
    LeavesFirst(s3, t, 1);
    assert s3.feeds == s.feeds[t := Feed(s.feeds[t].slot, Freeing)];
    var s4 := FeedStep(s3, t).value;
    assert s4.feeds == s.feeds[t := Feed(s.feeds[t].slot, Gone)];
    EmptyRun(s4);
  }

  /** A feed thread alone, on its way out while no lock is held, frees its slot in eight steps. */
  lemma LeaveAlone(s: State, t: nat)
    requires Reachable(s) && t < |s.feeds| && s.feeds[t].pc.Feeding? && s.clientLock == None
    requires s.feeds[t].slot < |s.slotLocks| && s.slotLocks[s.feeds[t].slot] == None
    ensures s.feeds[t].slot < |s.slots| && s.feeds[t].slot < |s.owner| && Exec(s, Leaves(t, 8)) == Some(Left(s, t))
  {
    hide Exec, Reachable, Leaves;
    LeaveSlot(s, t, 8);
    var i := s.feeds[t].slot;
    var mid := Left(s, t).(clientsNumber := s.clientsNumber, feeds := s.feeds[t := Feed(i, Cleared)],
                           slotLocks := s.slotLocks[i := Some(FeedThread(t))]);
    LeaveCount(mid, t);
    assert mid.feeds[t := Feed(i, Gone)] == s.feeds[t := Feed(i, Gone)];
    assert s.slotLocks[i := Some(FeedThread(t))][i := None] == s.slotLocks;
  }
}
