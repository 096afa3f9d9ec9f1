/** The results about the client pool: they hold in every state that any run from the start reaches. */
module PoolTheorems {
  import opened Bytes
  import opened ClientPool
  import opened PoolInvariant
  import opened PoolDelivery

  /** Three descriptors per taken slot, three on the way in, and two that every refused connection leaves open. */
  ghost predicate Descriptors(s: State) {
    |s.fds| == 3 * Occupied(s.slots) - 3 * CountFeeds(s.feeds, PcClosed) + (if InFlight(s.acc) then 3 else 0) + 2 * s.refused
  }

  /** Everything that holds in all reachable states. */
  ghost predicate Good(s: State) {
    && Shaped(s) && SlotLocked(s) && ClientLocked(s) && ConnectLocked(s)
    && AllOwned(s) && Counts(s) && AllFiled(s) && CheckedTaken(s) && AllServed(s)
    && s.strays == 0 && Descriptors(s)
  }

  lemma InitGood(n: nat, members: nat)
    ensures Good(Init(n, members))
  {
    InitLocked(n, members);
    NoneTaken(Init(n, members).slots);
  }

  lemma {:induction false} NoneTaken(slots: seq<Slot>)
    requires forall i :: 0 <= i < |slots| ==> !Taken(slots[i])
    ensures Occupied(slots) == 0
    decreases |slots|
  {
    if slots == [] {
    } else {
      NoneTaken(slots[..|slots| - 1]);
    }
  }

  /** The three closes of unregister_client find three open descriptors. */
  lemma CloseEffect(s: State, t: nat)
    requires Shaped(s) && AllOwned(s) && AllFiled(s) && t < |s.feeds| && s.feeds[t].pc.HasSlot? && FeedStep(s, t).Some?
    ensures var s' := FeedStep(s, t).value;
            && |s'.fds| == |s.fds| - 3 && s'.strays == s.strays && s'.feeds == s.feeds[t := s.feeds[t].(pc := Closed)]
            && s'.slots == s.slots && s'.acc == s.acc && s'.refused == s.refused
  {
    hide Owned, Filed;
    FeedOpen(s, t);
    FiledClose(s.slots, s.owner, s.acc, s.feeds, s.fds, |s.sessions|, t);
  }

  lemma NoStrayStep(s: State, a: Action)
    requires Shaped(s) && SlotLocked(s) && CheckedTaken(s) && AllOwned(s) && AllFiled(s) && AllServed(s) && Next(s, a).Some?
    ensures Next(s, a).value.strays == s.strays
  {
    hide Owned, Filed, Served, SlotLocked, CheckedTaken;
    match a
    case DoAcceptStep => RefusedOpen(s);
    case DoFeedData(t, n) => ServedFeedData(s, t, n);
    case DoFeedAnswer(t) => ServedFeedAnswer(s, t);
    case DoFeedStep(t) =>
      if s.feeds[t].pc.HasSlot? {
        CloseEffect(s, t);
      }
    case DoDispatchStep => ServedDispatchStep(s);
    case _ =>
  }

  lemma RefusedOpen(s: State)
    requires AllFiled(s)
    ensures s.acc.Wants? ==> s.acc.f.sock in s.fds && s.fds[s.acc.f.sock] == Sock(s.acc.k)
  {}

  lemma Added(fds: map<int, File>, fd: int, file: File)
    requires fd !in fds
    ensures |fds[fd := file]| == |fds| + 1
  {
    assert fds[fd := file].Keys == fds.Keys + {fd};
  }

  lemma DescriptorsStep(s: State, a: Action)
    requires Shaped(s) && AllOwned(s) && AllFiled(s) && Descriptors(s) && Next(s, a).Some?
    ensures Descriptors(Next(s, a).value)
  {
    hide Shaped, Owned, Filed, Occupied, CountFeeds;
    match a
    case DoAccept(f) =>
      var k := |s.sessions|;
      Added(s.fds, f.sock, Sock(k));
      Added(s.fds[f.sock := Sock(k)], f.write, PipeOut(k));
      Added(s.fds[f.sock := Sock(k)][f.write := PipeOut(k)], f.read, PipeIn(k));
    case DoAcceptStep => DescriptorsAcceptStep(s);
    case DoFeedStep(t) => DescriptorsFeedStep(s, t);
    case _ =>
  }

  lemma DescriptorsAcceptStep(s: State)
    requires Shaped(s) && AllOwned(s) && AllFiled(s) && Descriptors(s) && AcceptStep(s).Some?
    ensures Descriptors(AcceptStep(s).value)
  {
    hide Owned, Filed, Occupied, CountFeeds;
    RefusedOpen(s);
    match s.acc
    case Wants(i, k, f) => Smaller(s.fds, f.sock);
    case Holds(i, k, f) => OccupiedUpdate(s.slots, i, Slot(f.sock, f.write, f.read));
    case Spawning(i) => CountAppend(s.feeds, PcClosed, Feed(i, Feeding));
    case _ =>
  }

  lemma DescriptorsFeedStep(s: State, t: nat)
    requires Shaped(s) && AllOwned(s) && AllFiled(s) && Descriptors(s) && FeedStep(s, t).Some?
    ensures Descriptors(FeedStep(s, t).value)
  {
    hide Owned, Filed, Occupied, CountFeeds;
    if s.feeds[t].pc.HasSlot? {
      DescriptorsClose(s, t);
    } else {
      CountUpdate(s.feeds, PcClosed, t, FeedStep(s, t).value.feeds[t]);
      if s.feeds[t].pc.Closed? {
        OwnsTaken(s, t);
        OccupiedUpdate(s.slots, s.feeds[t].slot, FREE);
      }
    }
  }

  lemma DescriptorsClose(s: State, t: nat)
    requires Shaped(s) && AllOwned(s) && AllFiled(s) && Descriptors(s) && FeedStep(s, t).Some?
    requires t < |s.feeds| && s.feeds[t].pc.HasSlot?
    ensures Descriptors(FeedStep(s, t).value)
  {
    hide Owned, Filed, Occupied, CountFeeds, FeedStep;
    CloseEffect(s, t);
    CountUpdate(s.feeds, PcClosed, t, s.feeds[t].(pc := Closed));
  }

  /** As long as a feed thread serves its slot, the slot is taken and nobody else serves it. */
  lemma OwnsTaken(s: State, t: nat)
    requires AllOwned(s) && t < |s.feeds| && s.feeds[t].slot < |s.slots| && FeedOwns(s.feeds[t], s.feeds[t].slot)
    ensures Taken(s.slots[s.feeds[t].slot]) && !AccOwns(s.acc, s.feeds[t].slot)
    ensures forall u :: 0 <= u < |s.feeds| && u != t ==> !FeedOwns(s.feeds[u], s.feeds[t].slot)
  {}

  lemma GoodStep(s: State, a: Action)
    requires Good(s) && Next(s, a).Some?
    ensures Good(Next(s, a).value)
  {
    hide Shaped, SlotLocked, ClientLocked, ConnectLocked, AllOwned, Counts, AllFiled, CheckedTaken, AllServed, Descriptors, Next;
    ShapedStep(s, a);
    SlotLockedStep(s, a);
    ClientLockedStep(s, a);
    ConnectLockedStep(s, a);
    OwnedStep(s, a);
    CountsStep(s, a);
    FiledStep(s, a);
    CheckedTakenStep(s, a);
    ServedStep(s, a);
    NoStrayStep(s, a);
    DescriptorsStep(s, a);
  }

  lemma {:induction false} GoodRun(s: State, run: seq<Action>)
    requires Good(s) && Exec(s, run).Some?
    ensures Good(Exec(s, run).value)
    decreases |run|
  {
    hide Good, Next;
    if run == [] {
    } else {
      GoodStep(s, run[0]);
      GoodRun(Next(s, run[0]).value, run[1..]);
    }
  }

  /** Some run of some pool ends in `s`. */
  ghost predicate Reachable(s: State) {
    exists n, members, run :: Reaches(n, members, run, s)
  }

  ghost predicate Reaches(n: nat, members: nat, run: seq<Action>, s: State) {
    Exec(Init(n, members), run) == Some(s)
  }

  lemma ReachableGood(s: State)
    requires Reachable(s)
    ensures Good(s)
  {
    var n, members, run :| Reaches(n, members, run, s);
    InitGood(n, members);
    GoodRun(Init(n, members), run);
  }

  // ---- delivery ----

  /**
    In every interleaving, what is put into a client's pipe is a contiguous piece of the dispatcher's log, and the
    bytes from the pipe among what its socket gets are a prefix of that piece, whatever is answered in between.
   */
  lemma GapFreeDelivery(s: State, k: nat, pointer: nat)
    requires Reachable(s) && k < |s.sessions| && 0 < pointer <= |MSG_REFUSED|
    ensures var x := s.sessions[k];
            && x.start + |x.got| <= |s.log| && x.got == s.log[x.start..x.start + |x.got|]
            && Forwarded(x.wire) <= Concat(s.log[x.start..x.start + |x.got|])
            && (OnSocket(x.wire, pointer) == Forwarded(x.wire) <==> Answer !in x.wire && Refusal !in x.wire)
  {
    ReachableGood(s);
    assert Gapless(s.sessions[k], s.log);
    SocketBytes(s.sessions[k].wire, pointer);
  }

  /**
    The bytes that the socket gets. Of the text of a refusal these are as many as a pointer has: the size that
    is passed is that of the variable, not that of the text.
   */
  function OnSocket(wire: seq<Sent>, pointer: nat): bytes
    requires pointer <= |MSG_REFUSED|
  {
    if wire == [] then []
    else
      OnSocket(wire[..|wire| - 1], pointer)
      + match wire[|wire| - 1]
        case Data(data) => data
        case Answer => MSG_ERROR
        case Refusal => MSG_REFUSED[..pointer]
  }

  /** The socket gets what came from the pipe and nothing else exactly as long as nothing was answered or refused. */
  lemma {:induction false} SocketBytes(wire: seq<Sent>, pointer: nat)
    requires 0 < pointer <= |MSG_REFUSED|
    ensures if Answer in wire || Refusal in wire then |OnSocket(wire, pointer)| > |Forwarded(wire)|
            else OnSocket(wire, pointer) == Forwarded(wire)
    decreases |wire|
  {
    if wire == [] {
    } else {
      var init, last := wire[..|wire| - 1], wire[|wire| - 1];
      SocketBytes(init, pointer);
      assert wire == init + [last];
    }
  }

  lemma {:induction false} ExecAppend(s: State, run: seq<Action>, a: Action)
    requires Exec(s, run).Some?
    ensures Exec(s, run + [a]) == Next(Exec(s, run).value, a)
    decreases |run|
  {
    hide Next;
    if run == [] {
      assert (run + [a])[1..] == [];
    } else {
      assert (run + [a])[1..] == run[1..] + [a];
      ExecAppend(Next(s, run[0]).value, run[1..], a);
    }
  }

  lemma ReachableNext(s: State, a: Action)
    requires Reachable(s) && Next(s, a).Some?
    ensures Reachable(Next(s, a).value)
  {
    hide Next, Exec;
    var n, members, run :| Reaches(n, members, run, s);
    assert Exec(Init(n, members), run) == Some(s);
    ExecAppend(Init(n, members), run, a);
    assert Reaches(n, members, run + [a], Next(s, a).value);
  }

  /** A client that is registered and sends something gets an answer that no chunk contains. */
  lemma AnswerReachable()
    ensures exists s :: Reachable(s) && |s.sessions| == 1 && s.sessions[0].wire == [Answer]
  {
    hide Reachable, Exec;
    var f := Fds(3, 4, 5);
    var s0 := Init(1, 0);
    InitReachable(1, 0);
    ReachableNext(s0, DoAccept(f));
    var s1 := Next(s0, DoAccept(f)).value;
    ReachableNext(s1, DoAcceptStep);
    var s2 := Next(s1, DoAcceptStep).value;
    ReachableNext(s2, DoAcceptStep);
    var s3 := Next(s2, DoAcceptStep).value;
    ReachableNext(s3, DoAcceptStep);
    var s4 := Next(s3, DoAcceptStep).value;
    ReachableNext(s4, DoAcceptStep);
    var s5 := Next(s4, DoAcceptStep).value;
    ReachableNext(s5, DoAcceptStep);
    var s6 := Next(s5, DoAcceptStep).value;
    ReachableNext(s6, DoAcceptStep);
    var s7 := Next(s6, DoAcceptStep).value;
    ReachableNext(s7, DoAcceptStep);
    var s8 := Next(s7, DoAcceptStep).value;
    ReachableNext(s8, DoFeedAnswer(0));
    assert Next(s8, DoFeedAnswer(0)).value.sessions[0].wire == [Answer];
  }

  lemma InitReachable(n: nat, members: nat)
    ensures Reachable(Init(n, members))
  {
    assert Reaches(n, members, [], Init(n, members));
  }

  predicate Rounding(d: DispatchPc) {
    d.AtSlot? || d.InSlot? || d.Checked? || d.Unlocking?
  }

  /** Between rounds, every registered client has every chunk since it was registered. */
  lemma UpToDate(s: State, i: nat)
    requires Reachable(s) && i < |s.slots| && Taken(s.slots[i]) && !Rounding(s.disp)
    ensures i < |s.owner| && !s.owner[i].Nobody? && s.owner[i].k < |s.sessions|
    ensures var x := s.sessions[s.owner[i].k]; x.start <= |s.log| && x.got == s.log[x.start..]
  {
    ReachableGood(s);
    assert Gapless(s.sessions[s.owner[i].k], s.log);
  }

  /** No thread ever reads, writes or closes a descriptor that is closed or belongs to another client. */
  lemma NoStrayAccess(s: State)
    requires Reachable(s)
    ensures s.strays == 0
  {
    ReachableGood(s);
  }

  // ---- accounting ----

  /** While no slot lock is held, clients_number is the number of taken slots; it never wraps below zero. */
  lemma ClientsNumber(s: State)
    requires Reachable(s)
    ensures (forall i :: 0 <= i < |s.slotLocks| ==> s.slotLocks[i] == None) ==> s.clientsNumber == Occupied(s.slots)
    ensures s.clientsNumber >= 0
    ensures forall t :: 0 <= t < |s.feeds| && s.feeds[t].pc.Uncounting? ==> s.clientsNumber > 0
  {
    hide Occupied, CountFeeds;
    ReachableGood(s);
    if s.acc.Filled? || s.acc.Counting? {
      assert AccOwns(s.acc, s.acc.i);
      SomeOccupied(s.slots, s.acc.i);
      assert s.slotLocks[s.acc.i] == Some(Acceptor) <==> HoldsSlot(s, Acceptor, s.acc.i);
    }
    forall t | 0 <= t < |s.feeds| && s.feeds[t].pc.Uncounting? ensures s.clientsNumber > 0 {
      SomePending(s.feeds, t);
    }
    if forall i :: 0 <= i < |s.slotLocks| ==> s.slotLocks[i] == None {
      forall t | 0 <= t < |s.feeds| ensures !PcPending(s.feeds[t].pc) {
        var i := s.feeds[t].slot;
        assert s.slotLocks[i] == Some(FeedThread(t)) <==> HoldsSlot(s, FeedThread(t), i);
      }
      CountNone(s.feeds, PcPending);
    }
  }

  lemma SomeOccupied(slots: seq<Slot>, i: nat)
    requires i < |slots| && Taken(slots[i])
    ensures Occupied(slots) > 0
  {
    OccupiedUpdate(slots, i, FREE);
  }

  lemma SomePending(feeds: seq<Feed>, t: nat)
    requires t < |feeds| && PcPending(feeds[t].pc)
    ensures CountFeeds(feeds, PcPending) > 0
  {
    CountUpdate(feeds, PcPending, t, feeds[t].(pc := Gone));
  }

  /** The accept thread is about to start the feed thread of slot `i`, or feed thread `t` serves it. */
  ghost predicate Serves(s: State, th: Thread, i: nat) {
    match th
    case Acceptor => AccOwns(s.acc, i)
    case FeedThread(t) => t < |s.feeds| && FeedOwns(s.feeds[t], i)
    case _ => false
  }

  /** A taken slot has exactly one feed thread, started or about to be; a free one has none. */
  lemma OneFeedPerClient(s: State, i: nat)
    requires Reachable(s) && i < |s.slots|
    ensures Taken(s.slots[i]) <==> exists th :: Serves(s, th, i)
    ensures forall th, other :: Serves(s, th, i) && Serves(s, other, i) ==> th == other
  {
    ReachableGood(s);
    assert Serves(s, Acceptor, i) <==> s.owner[i].Accepting?;
    if s.owner[i].Fed? {
      assert Serves(s, FeedThread(s.owner[i].t), i);
    }
  }

  /** A thread that unregisters finds its slot taken by its own client: no client is unregistered twice. */
  lemma UnregisteredOnce(s: State, t: nat)
    requires Reachable(s) && t < |s.feeds| && s.feeds[t].pc.HasSlot?
    ensures var i := s.feeds[t].slot;
            && i < |s.slots| && i < |s.owner| && s.owner[i].Fed? && s.owner[i].t == t
            && OpenAt(s.fds, s.slots[i].socketFd, s.slots[i].writeFd, s.slots[i].readFd, s.owner[i].k)
  {
    ReachableGood(s);
    FeedOpen(s, t);
    assert FeedOwns(s.feeds[t], s.feeds[t].slot);
  }

  /** At rest, exactly the two ends of the pipe of every refused connection are open beyond the clients' own. */
  lemma RefusedLeak(s: State)
    requires Reachable(s) && s.acc.Listening? && forall i :: 0 <= i < |s.slotLocks| ==> s.slotLocks[i] == None
    ensures |s.fds| == 3 * Occupied(s.slots) + 2 * s.refused
  {
    hide Occupied, CountFeeds;
    ReachableGood(s);
    forall t | 0 <= t < |s.feeds| ensures !PcClosed(s.feeds[t].pc) {
      var i := s.feeds[t].slot;
      assert s.slotLocks[i] == Some(FeedThread(t)) <==> HoldsSlot(s, FeedThread(t), i);
    }
    CountNone(s.feeds, PcClosed);
  }

  /** A pool that is full refuses, here one without slots: the session got the refusal, and its pipe stays open. */
  lemma RefusedReachable()
    ensures exists s :: Reachable(s) && s.acc.Listening? && s.refused == 1 && Occupied(s.slots) == 0
                        && s.fds.Values == {PipeOut(0), PipeIn(0)} && s.sessions == [Session(0, [], [], [Refusal])]
  {
    hide Reachable, Exec;
    var f := Fds(3, 4, 5);
    var s0 := Init(0, 0);
    InitReachable(0, 0);
    ReachableNext(s0, DoAccept(f));
    var s1 := Next(s0, DoAccept(f)).value;
    ReachableNext(s1, DoAcceptStep);
    var s2 := Next(s1, DoAcceptStep).value;
    assert s2.fds == map[4 := PipeOut(0), 5 := PipeIn(0)];
    assert s2.fds[4] in s2.fds.Values && s2.fds[5] in s2.fds.Values;
    assert s1.sessions == [Session(0, [], [], [])] && [] + [Refusal] == [Refusal];
    assert s2.sessions == [Session(0, [], [], [Refusal])];
  }
}
