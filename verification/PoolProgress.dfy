/** The locks of devdrvd are taken in the order connect_lock, one slot lock, client_lock: no wait cycle. */
module PoolProgress {
  import opened Bytes
  import opened ClientPool
  import opened PoolInvariant
  import opened PoolTheorems

  datatype Lock = ConnectLock | SlotLock(i: nat) | ClientLock

  function Rank(l: Lock): nat {
    match l
    case ConnectLock => 0
    case SlotLock(_) => 1
    case ClientLock => 2
  }

  /** The lock the thread asks for next, if that is what it does next. */
  function Wanted(s: State, th: Thread): Option<Lock> {
    match th
    case Acceptor =>
      if s.acc.Wants? && s.acc.i < |s.slots| then Some(SlotLock(s.acc.i))
      else if s.acc.Filled? then Some(ClientLock) else None
    case FeedThread(t) =>
      if t < |s.feeds| && s.feeds[t].pc.WantsSlot? then Some(SlotLock(s.feeds[t].slot))
      else if t < |s.feeds| && s.feeds[t].pc.Cleared? then Some(ClientLock) else None
    case Dispatcher =>
      if s.disp.WantsConnect? then Some(ConnectLock)
      else if s.disp.AtSlot? && s.disp.i < |s.slots| then Some(SlotLock(s.disp.i)) else None
    case Connector(c) =>
      if c < |s.connectors| && (s.connectors[c].Starting? || s.connectors[c].Waiting?) then Some(ConnectLock) else None
  }

  function Holder(s: State, l: Lock): Option<Thread> {
    match l
    case ConnectLock => s.connectLock
    case SlotLock(i) => if i < |s.slotLocks| then s.slotLocks[i] else None
    case ClientLock => s.clientLock
  }

  /** `a` asks for a lock that `b` holds. */
  predicate WaitsFor(s: State, a: Thread, b: Thread) {
    Wanted(s, a).Some? && Holder(s, Wanted(s, a).value) == Some(b)
  }

  /** Whoever holds a lock asks only for locks of a higher rank. */
  lemma LockOrder(s: State, th: Thread, l: Lock)
    requires Good(s) && Holder(s, l) == Some(th) && Wanted(s, th).Some?
    ensures Rank(l) < Rank(Wanted(s, th).value)
  {
    HolderInside(s, th, l);
  }

  predicate Inside(s: State, th: Thread, l: Lock) {
    match l
    case ConnectLock => HoldsConnect(s, th)
    case SlotLock(i) => HoldsSlot(s, th, i)
    case ClientLock => HoldsClient(s, th)
  }

  lemma HolderInside(s: State, th: Thread, l: Lock)
    requires Good(s) && Holder(s, l) == Some(th)
    ensures Inside(s, th, l)
  {
    match l
    case ConnectLock => assert s.connectLock == Some(th) <==> HoldsConnect(s, th);
    case SlotLock(i) => assert s.slotLocks[i] == Some(th) <==> HoldsSlot(s, th, i);
    case ClientLock => assert s.clientLock == Some(th) <==> HoldsClient(s, th);
  }

  /** A chain of threads each of which waits for the next. */
  ghost predicate WaitChain(s: State, ths: seq<Thread>) {
    forall j :: 0 <= j < |ths| - 1 ==> WaitsFor(s, ths[j], ths[j + 1])
  }

  lemma {:induction false} RankGrows(s: State, ths: seq<Thread>)
    requires Good(s) && WaitChain(s, ths) && |ths| > 0 && Wanted(s, ths[|ths| - 1]).Some? && Wanted(s, ths[0]).Some?
    ensures Rank(Wanted(s, ths[0]).value) + |ths| - 1 <= Rank(Wanted(s, ths[|ths| - 1]).value)
    decreases |ths|
  {
    if |ths| == 1 {
    } else {
      var init := ths[..|ths| - 1];
      assert WaitsFor(s, ths[|ths| - 2], ths[|ths| - 1]);
      RankGrows(s, init);
      LockOrder(s, ths[|ths| - 1], Wanted(s, ths[|ths| - 2]).value);
    }
  }

  /** In no reachable state do threads wait for each other in a circle. */
  lemma NoWaitCycle(s: State, ths: seq<Thread>)
    requires Reachable(s) && WaitChain(s, ths) && |ths| > 1
    ensures ths[0] != ths[|ths| - 1]
  {
    ReachableGood(s);
    assert WaitsFor(s, ths[0], ths[1]);
    if ths[0] == ths[|ths| - 1] {
      RankGrows(s, ths);
    }
  }

  /** The thread at the end of the chain of waiting that starts at `th`. */
  function Runner(s: State, th: Thread, fuel: nat): Thread
    decreases fuel
  {
    if fuel == 0 || Wanted(s, th) == None || Holder(s, Wanted(s, th).value) == None then th
    else Runner(s, Holder(s, Wanted(s, th).value).value, fuel - 1)
  }

  /** The next step of the thread itself. */
  function OwnStep(th: Thread): Action {
    match th
    case Acceptor => DoAcceptStep
    case FeedThread(t) => DoFeedStep(t)
    case Dispatcher => DoDispatchStep
    case Connector(c) => DoConnectStep(c, false)
  }

  /** A thread that holds a lock and waits for none can take its next step, unless the dispatcher is stranded. */
  lemma HolderRuns(s: State, th: Thread, l: Lock)
    requires Good(s) && Holder(s, l) == Some(th) && Wanted(s, th) == None
    ensures Next(s, OwnStep(th)).Some? || (th == Dispatcher && s.disp.Stranded? && l == ConnectLock)
  {
    HolderInside(s, th, l);
    AcceptHolds(s);
  }

  lemma AcceptHolds(s: State)
    requires Good(s)
    ensures s.acc.Holds? ==> s.acc.k < |s.sessions| && s.acc.i < |s.slots| == |s.owner| == |s.slotLocks|
    ensures s.acc.Spawning? ==> s.acc.i < |s.owner| && s.owner[s.acc.i].Accepting?
  {
    assert s.acc.Spawning? ==> AccOwns(s.acc, s.acc.i);
  }

  lemma FreeRuns(s: State, th: Thread)
    requires Good(s) && Wanted(s, th).Some? && Holder(s, Wanted(s, th).value) == None
    ensures Next(s, OwnStep(th)).Some?
  {}

  lemma {:induction false} RunnerRuns(s: State, th: Thread, fuel: nat)
    requires Good(s) && Wanted(s, th).Some? && Rank(Wanted(s, th).value) + fuel >= 3
    ensures Next(s, OwnStep(Runner(s, th, fuel))).Some? || (s.disp.Stranded? && Wanted(s, th) == Some(ConnectLock))
    decreases fuel
  {
    hide Good, Next, HoldsConnect, HoldsSlot, HoldsClient;
    var l := Wanted(s, th).value;
    if Holder(s, l) == None {
      FreeRuns(s, th);
    } else {
      var h := Holder(s, l).value;
      if Wanted(s, h) == None {
        HolderRuns(s, h, l);
      } else {
        LockOrder(s, h, l);
        RunnerRuns(s, h, fuel - 1);
      }
    }
  }

  /**
    Whoever waits can be let in: the thread at the end of its chain of waiting can take a step. The
    one exception is a wait for connect_lock after the shutdown signal left the lock taken.
   */
  lemma NoDeadlock(s: State, th: Thread)
    requires Reachable(s) && Wanted(s, th).Some?
    ensures Next(s, OwnStep(Runner(s, th, 3))).Some? <==> !(s.disp.Stranded? && Wanted(s, th) == Some(ConnectLock))
  {
    hide Good;
    ReachableGood(s);
    RunnerRuns(s, th, 3);
    if s.disp.Stranded? && Wanted(s, th) == Some(ConnectLock) {
      StrandedHolds(s);
      assert Runner(s, th, 3) == Dispatcher;
    }
  }

  lemma StrandedHolds(s: State)
    requires Good(s) && s.disp.Stranded?
    ensures s.connectLock == Some(Dispatcher)
  {
    assert s.connectLock == Some(Dispatcher) <==> HoldsConnect(s, Dispatcher);
  }

  /** Once the dispatcher has left the loop with connect_lock, a connect thread that waits for it waits forever. */
  lemma StrandedForever(s: State, run: seq<Action>, c: nat)
    requires Reachable(s) && s.disp.Stranded? && WaitsFor(s, Connector(c), Dispatcher) && Exec(s, run).Some?
    ensures var s' := Exec(s, run).value; s'.disp.Stranded? && WaitsFor(s', Connector(c), Dispatcher)
  {
    ReachableGood(s);
    StrandedHolds(s);
    forall d | 0 <= d < |s.connectors| ensures !s.connectors[d].Resetting? && !s.connectors[d].Connecting? {
      assert s.connectLock == Some(Connector(d)) <==> HoldsConnect(s, Connector(d));
    }
    StrandedRun(s, run, c);
  }

  /** No connect thread is inside the lock. */
  ghost predicate NoneInside(s: State) {
    forall d :: 0 <= d < |s.connectors| ==> !s.connectors[d].Resetting? && !s.connectors[d].Connecting?
  }

  lemma {:induction false} StrandedRun(s: State, run: seq<Action>, c: nat)
    requires s.disp.Stranded? && WaitsFor(s, Connector(c), Dispatcher) && Exec(s, run).Some? && NoneInside(s)
    ensures var s' := Exec(s, run).value; s'.disp.Stranded? && WaitsFor(s', Connector(c), Dispatcher)
    decreases |run|
  {
    hide Next, WaitsFor, NoneInside;
    if run == [] {
    } else {
      StrandedStep(s, run[0], c);
      StrandedRun(Next(s, run[0]).value, run[1..], c);
    }
  }

  lemma StrandedStep(s: State, a: Action, c: nat)
    requires s.disp.Stranded? && WaitsFor(s, Connector(c), Dispatcher) && Next(s, a).Some? && NoneInside(s)
    ensures var s' := Next(s, a).value; s'.disp.Stranded? && WaitsFor(s', Connector(c), Dispatcher) && NoneInside(s')
  {
    assert s.connectLock == Some(Dispatcher);
    assert Next(s, a).value.connectors == s.connectors && Next(s, a).value.connectLock == s.connectLock;
  }

  /** It does happen: the shutdown signal comes while the dispatcher waits for data and a connect thread for the lock. */
  lemma StrandedReachable()
    ensures exists s :: Reachable(s) && s.disp.Stranded? && WaitsFor(s, Connector(0), Dispatcher)
  {
    hide Reachable, Exec;
    var s0 := Init(0, 1);
    InitReachable(0, 1);
    ReachableNext(s0, DoDispatchStep);
    var s1 := Next(s0, DoDispatchStep).value;
    ReachableNext(s1, DoDispatchStep);
    var s2 := Next(s1, DoDispatchStep).value;
    ReachableNext(s2, DoStrand);
    var s3 := Next(s2, DoStrand).value;
    assert WaitsFor(s3, Connector(0), Dispatcher);
  }
}
