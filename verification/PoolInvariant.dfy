/** What every step of the client pool keeps, and what holds in every reachable state. */
module PoolInvariant {
  import opened Bytes
  import opened ClientPool

  // ---- locks ----

  /** The accept thread is inside the lock of slot `i`. */
  predicate AccIn(acc: AcceptPc, i: nat) {
    match acc
    case Holds(j, _, _) => i == j
    case Filled(j) => i == j
    case Counting(j) => i == j
    case Counted(j) => i == j
    case Releasing(j) => i == j
    case _ => false
  }

  predicate FeedIn(f: Feed, i: nat) {
    f.slot == i && !f.pc.Feeding? && !f.pc.WantsSlot? && !f.pc.Gone?
  }

  predicate DispIn(d: DispatchPc, i: nat) {
    (d.InSlot? || d.Checked? || d.Unlocking?) && d.i == i
  }

  predicate HoldsSlot(s: State, th: Thread, i: nat) {
    match th
    case Acceptor => AccIn(s.acc, i)
    case FeedThread(t) => t < |s.feeds| && FeedIn(s.feeds[t], i)
    case Dispatcher => DispIn(s.disp, i)
    case Connector(_) => false
  }

  predicate HoldsClient(s: State, th: Thread) {
    match th
    case Acceptor => s.acc.Counting? || s.acc.Counted?
    case FeedThread(t) => t < |s.feeds| && (s.feeds[t].pc.Uncounting? || s.feeds[t].pc.Uncounted?)
    case _ => false
  }

  predicate HoldsConnect(s: State, th: Thread) {
    match th
    case Dispatcher => !s.disp.Idle? && !s.disp.WantsConnect?
    case Connector(c) => c < |s.connectors| && (s.connectors[c].Resetting? || s.connectors[c].Connecting?)
    case _ => false
  }

  /** Slot numbers are in range, and each lock names exactly the thread that is inside it. */
  ghost predicate Shaped(s: State) {
    && |s.slotLocks| == |s.slots| == |s.owner|
    && (forall t :: 0 <= t < |s.feeds| ==> s.feeds[t].slot < |s.slots|)
    && (s.acc.Wants? ==> s.acc.i <= |s.slots|)
    && (s.acc.Wants? || s.acc.Holds? ==> s.acc.f.sock >= 0)
    && (!s.acc.Listening? && !s.acc.Wants? ==> s.acc.i < |s.slots|)
    && (s.disp.AtSlot? ==> s.disp.i <= |s.slots|)
    && (s.disp.InSlot? || s.disp.Checked? || s.disp.Unlocking? ==> s.disp.i < |s.slots|)
    && (s.disp.AtSlot? || s.disp.InSlot? || s.disp.Checked? || s.disp.Unlocking? ==> s.log != [])
  }

  ghost predicate SlotLocked(s: State) {
    forall i, th {:trigger HoldsSlot(s, th, i)} :: 0 <= i < |s.slotLocks| ==> (s.slotLocks[i] == Some(th) <==> HoldsSlot(s, th, i))
  }

  ghost predicate ClientLocked(s: State) {
    forall th {:trigger HoldsClient(s, th)} :: s.clientLock == Some(th) <==> HoldsClient(s, th)
  }

  ghost predicate ConnectLocked(s: State) {
    forall th {:trigger HoldsConnect(s, th)} :: s.connectLock == Some(th) <==> HoldsConnect(s, th)
  }

  // ---- owners ----

  /** The accept thread has put a client in slot `i` and not yet started its feed thread. */
  predicate AccOwns(acc: AcceptPc, i: nat) {
    match acc
    case Filled(j) => i == j
    case Counting(j) => i == j
    case Counted(j) => i == j
    case Releasing(j) => i == j
    case Spawning(j) => i == j
    case _ => false
  }

  /** The feed thread serves slot `i` and has not cleared it yet. */
  predicate FeedOwns(f: Feed, i: nat) {
    f.slot == i && (f.pc.Feeding? || f.pc.WantsSlot? || f.pc.HasSlot? || f.pc.Closed?)
  }

  /** A slot is taken exactly as long as one thread is responsible for its client. */
  ghost predicate Owned(slots: seq<Slot>, owner: seq<Owner>, acc: AcceptPc, feeds: seq<Feed>) {
    && |owner| == |slots|
    && (forall i :: 0 <= i < |slots| ==> (Taken(slots[i]) <==> !owner[i].Nobody?))
    && (forall i :: 0 <= i < |slots| ==> (owner[i].Accepting? <==> AccOwns(acc, i)))
    && (forall i, t :: 0 <= i < |slots| && 0 <= t < |feeds| ==>
          (FeedOwns(feeds[t], i) <==> owner[i].Fed? && owner[i].t == t))
    && (forall i :: 0 <= i < |slots| && owner[i].Fed? ==> owner[i].t < |feeds|)
  }

  ghost predicate Locked(s: State) {
    Shaped(s) && SlotLocked(s) && ClientLocked(s) && ConnectLocked(s)
  }

  lemma InitLocked(n: nat, members: nat)
    ensures Locked(Init(n, members))
  {}

  /** The thread that takes the step. */
  function Actor(a: Action): Thread {
    match a
    case DoAccept(_) => Acceptor
    case DoAcceptStep => Acceptor
    case DoFeedData(t, _) => FeedThread(t)
    case DoFeedAnswer(t) => FeedThread(t)
    case DoFeedStep(t) => FeedThread(t)
    case DoConnectStep(c, _) => Connector(c)
    case _ => Dispatcher
  }

  lemma ShapedStep(s: State, a: Action)
    requires Shaped(s) && Next(s, a).Some?
    ensures Shaped(Next(s, a).value)
  {
    hide Shaped;
    match a
    case DoAcceptStep => ShapedAcceptStep(s);
    case DoFeedStep(t) => ShapedFeedStep(s, t);
    case _ => ShapedOther(s, a);
  }

  lemma ShapedAcceptStep(s: State)
    requires Shaped(s) && AcceptStep(s).Some?
    ensures Shaped(AcceptStep(s).value)
  {}

  lemma ShapedFeedStep(s: State, t: nat)
    requires Shaped(s) && FeedStep(s, t).Some?
    ensures Shaped(FeedStep(s, t).value)
  {}

  lemma ShapedOther(s: State, a: Action)
    requires Shaped(s) && Next(s, a).Some? && !a.DoAcceptStep? && !a.DoFeedStep?
    ensures Shaped(Next(s, a).value)
  {}

  lemma ClientLockedStep(s: State, a: Action)
    requires Shaped(s) && ClientLocked(s) && Next(s, a).Some?
    ensures ClientLocked(Next(s, a).value)
  {
    var s' := Next(s, a).value;
    hide Shaped, AcceptStep, FeedStep, ClientLocked;
    match a
    case DoAccept(_) => ClientLockedElsewhere(s, s');
    case DoAcceptStep => ClientLockedAcceptStep(s);
    case DoFeedStep(t) => ClientLockedFeedStep(s, t);
    case _ => ClientLockedElsewhere(s, s');
  }

  lemma ClientLockedElsewhere(s: State, s': State)
    requires ClientLocked(s) && s'.clientLock == s.clientLock && s'.feeds == s.feeds
    requires HoldsClient(s, Acceptor) <==> HoldsClient(s', Acceptor)
    ensures ClientLocked(s')
  {
    forall th ensures s'.clientLock == Some(th) <==> HoldsClient(s', th) {
      assert s.clientLock == Some(th) <==> HoldsClient(s, th);
    }
  }

  lemma ClientLockedAcceptStep(s: State)
    requires Shaped(s) && ClientLocked(s) && AcceptStep(s).Some?
    ensures ClientLocked(AcceptStep(s).value)
  {
    hide Shaped;
    var s' := AcceptStep(s).value;
    assert s.clientLock == Some(Acceptor) <==> HoldsClient(s, Acceptor);
    forall th ensures s'.clientLock == Some(th) <==> HoldsClient(s', th) {
      assert s.clientLock == Some(th) <==> HoldsClient(s, th);
    }
  }

  /** Where a feed thread goes from one place to the next. */
  function NextPc(pc: FeedPc): FeedPc {
    match pc
    case Feeding => WantsSlot
    case WantsSlot => HasSlot
    case HasSlot => Closed
    case Closed => Cleared
    case Cleared => Uncounting
    case Uncounting => Uncounted
    case Uncounted => Freeing
    case Freeing => Gone
    case Gone => Gone
  }

  /** What the step of a feed thread does to the locks. */
  lemma FeedEffect(s: State, t: nat)
    requires Shaped(s) && FeedStep(s, t).Some?
    ensures t < |s.feeds| && s.feeds[t].slot < |s.slotLocks| && !s.feeds[t].pc.Gone?
    ensures var s', f, me := FeedStep(s, t).value, s.feeds[t], Some(FeedThread(t));
            && s'.feeds == s.feeds[t := f.(pc := NextPc(f.pc))] && s'.acc == s.acc && s'.disp == s.disp
            && (f.pc.Cleared? ==> s.clientLock == None) && (f.pc.WantsSlot? ==> s.slotLocks[f.slot] == None)
            && s'.clientLock == (if f.pc.Cleared? then me else if f.pc.Uncounted? then None else s.clientLock)
            && s'.slotLocks == if f.pc.WantsSlot? then s.slotLocks[f.slot := me]
                               else if f.pc.Freeing? then s.slotLocks[f.slot := None] else s.slotLocks
  {}

  lemma ClientLockedFeedStep(s: State, t: nat)
    requires Shaped(s) && ClientLocked(s) && FeedStep(s, t).Some?
    ensures ClientLocked(FeedStep(s, t).value)
  {
    hide Shaped, FeedStep;
    FeedEffect(s, t);
    var s' := FeedStep(s, t).value;
    assert s.clientLock == Some(FeedThread(t)) <==> HoldsClient(s, FeedThread(t));
    forall th ensures s'.clientLock == Some(th) <==> HoldsClient(s', th) {
      assert s.clientLock == Some(th) <==> HoldsClient(s, th);
    }
  }

  lemma ConnectLockedStep(s: State, a: Action)
    requires Shaped(s) && ConnectLocked(s) && Next(s, a).Some?
    ensures ConnectLocked(Next(s, a).value)
  {
    var s' := Next(s, a).value;
    hide Shaped, ConnectLocked;
    match a
    case DoDispatchStep => ConnectLockedDispatchStep(s);
    case DoConnectStep(c, again) => ConnectLockedConnectStep(s, c, again);
    case _ => ConnectLockedElsewhere(s, s');
  }

  lemma ConnectLockedElsewhere(s: State, s': State)
    requires ConnectLocked(s) && s'.connectLock == s.connectLock
    requires HoldsConnect(s, Dispatcher) <==> HoldsConnect(s', Dispatcher)
    requires s'.connectors == s.connectors || s'.connectors == s.connectors + [Starting]
    ensures ConnectLocked(s')
  {
    forall th ensures s'.connectLock == Some(th) <==> HoldsConnect(s', th) {
      assert s.connectLock == Some(th) <==> HoldsConnect(s, th);
    }
  }

  lemma ConnectLockedDispatchStep(s: State)
    requires Shaped(s) && ConnectLocked(s) && DispatchStep(s).Some?
    ensures ConnectLocked(DispatchStep(s).value)
  {
    hide Shaped;
    var s' := DispatchStep(s).value;
    assert s.connectLock == Some(Dispatcher) <==> HoldsConnect(s, Dispatcher);
    forall th ensures s'.connectLock == Some(th) <==> HoldsConnect(s', th) {
      assert s.connectLock == Some(th) <==> HoldsConnect(s, th);
    }
  }

  lemma ConnectLockedConnectStep(s: State, c: nat, again: bool)
    requires ConnectLocked(s) && ConnectStep(s, c, again).Some?
    ensures ConnectLocked(ConnectStep(s, c, again).value)
  {
    var s' := ConnectStep(s, c, again).value;
    assert s.connectLock == Some(Connector(c)) <==> HoldsConnect(s, Connector(c));
    forall th ensures s'.connectLock == Some(th) <==> HoldsConnect(s', th) {
      assert s.connectLock == Some(th) <==> HoldsConnect(s, th);
    }
  }

  lemma SlotLockedStep(s: State, a: Action)
    requires Shaped(s) && SlotLocked(s) && Next(s, a).Some?
    ensures SlotLocked(Next(s, a).value)
  {
    var s', me := Next(s, a).value, Actor(a);
    hide Shaped, AcceptStep, FeedStep, DispatchStep, SlotLocked;
    match a
    case DoAcceptStep => SlotLockedAcceptStep(s);
    case DoFeedStep(t) => SlotLockedFeedStep(s, t);
    case DoDispatchStep => SlotLockedDispatchStep(s);
    case _ => SlotLockedElsewhere(s, s');
  }

  lemma SlotLockedElsewhere(s: State, s': State)
    requires SlotLocked(s) && s'.slotLocks == s.slotLocks && s'.feeds == s.feeds
    requires forall i :: (AccIn(s.acc, i) <==> AccIn(s'.acc, i)) && (DispIn(s.disp, i) <==> DispIn(s'.disp, i))
    ensures SlotLocked(s')
  {
    forall i, th | 0 <= i < |s.slotLocks| ensures s'.slotLocks[i] == Some(th) <==> HoldsSlot(s', th, i) {
      assert s.slotLocks[i] == Some(th) <==> HoldsSlot(s, th, i);
    }
  }

  lemma SlotLockedAcceptStep(s: State)
    requires Shaped(s) && SlotLocked(s) && AcceptStep(s).Some?
    ensures SlotLocked(AcceptStep(s).value)
  {
    var s' := AcceptStep(s).value;
    forall i, th | 0 <= i < |s.slotLocks| ensures s'.slotLocks[i] == Some(th) <==> HoldsSlot(s', th, i) {
      assert s.slotLocks[i] == Some(th) <==> HoldsSlot(s, th, i);
      assert s.slotLocks[i] == Some(Acceptor) <==> HoldsSlot(s, Acceptor, i);
    }
  }

  lemma SlotLockedFeedStep(s: State, t: nat)
    requires Shaped(s) && SlotLocked(s) && FeedStep(s, t).Some?
    ensures SlotLocked(FeedStep(s, t).value)
  {
    hide Shaped, FeedStep;
    FeedEffect(s, t);
    var s' := FeedStep(s, t).value;
    forall i, th | 0 <= i < |s.slotLocks| ensures s'.slotLocks[i] == Some(th) <==> HoldsSlot(s', th, i) {
      assert s.slotLocks[i] == Some(th) <==> HoldsSlot(s, th, i);
      assert s.slotLocks[i] == Some(FeedThread(t)) <==> HoldsSlot(s, FeedThread(t), i);
    }
  }

  lemma SlotLockedDispatchStep(s: State)
    requires Shaped(s) && SlotLocked(s) && DispatchStep(s).Some?
    ensures SlotLocked(DispatchStep(s).value)
  {
    var s' := DispatchStep(s).value;
    forall i, th | 0 <= i < |s.slotLocks| ensures s'.slotLocks[i] == Some(th) <==> HoldsSlot(s', th, i) {
      assert s.slotLocks[i] == Some(th) <==> HoldsSlot(s, th, i);
      assert s.slotLocks[i] == Some(Dispatcher) <==> HoldsSlot(s, Dispatcher, i);
    }
  }

  ghost predicate AllOwned(s: State) {
    Owned(s.slots, s.owner, s.acc, s.feeds)
  }

  lemma OwnedStep(s: State, a: Action)
    requires Shaped(s) && AllOwned(s) && Next(s, a).Some?
    ensures AllOwned(Next(s, a).value)
  {
    hide Owned;
    match a
    case DoAccept(f) => OwnedElsewhere(s.slots, s.owner, s.acc, Next(s, a).value.acc, s.feeds);
    case DoAcceptStep => OwnedAcceptStep(s);
    case DoFeedStep(t) => OwnedFeedStep(s, t);
    case _ =>
  }

  lemma OwnedElsewhere(slots: seq<Slot>, owner: seq<Owner>, acc: AcceptPc, acc': AcceptPc, feeds: seq<Feed>)
    requires Owned(slots, owner, acc, feeds) && forall i :: 0 <= i < |slots| ==> (AccOwns(acc, i) <==> AccOwns(acc', i))
    ensures Owned(slots, owner, acc', feeds)
  {}

  lemma OwnedAcceptStep(s: State)
    requires Shaped(s) && AllOwned(s) && AcceptStep(s).Some?
    ensures AllOwned(AcceptStep(s).value)
  {
    hide Owned;
    var s' := AcceptStep(s).value;
    match s.acc
    case Holds(i, k, f) =>
      if !Taken(s.slots[i]) {
        OwnedFill(s.slots, s.owner, s.acc, s.feeds, i, k, f);
      } else {
        OwnedElsewhere(s.slots, s.owner, s.acc, s'.acc, s.feeds);
      }
    case Spawning(i) => OwnedSpawn(s.slots, s.owner, s.feeds, i);
    case _ => OwnedElsewhere(s.slots, s.owner, s.acc, s'.acc, s.feeds);
  }

  lemma OwnedFill(slots: seq<Slot>, owner: seq<Owner>, acc: AcceptPc, feeds: seq<Feed>, i: nat, k: nat, f: Fds)
    requires Owned(slots, owner, acc, feeds) && acc == Holds(i, k, f) && i < |slots| && !Taken(slots[i]) && f.sock >= 0
    ensures Owned(slots[i := Slot(f.sock, f.write, f.read)], owner[i := Accepting(k)], Filled(i), feeds)
  {}

  lemma OwnedSpawn(slots: seq<Slot>, owner: seq<Owner>, feeds: seq<Feed>, i: nat)
    requires Owned(slots, owner, Spawning(i), feeds) && i < |slots| && owner[i].Accepting?
    ensures Owned(slots, owner[i := Fed(owner[i].k, |feeds|)], Listening, feeds + [Feed(i, Feeding)])
  {}

  lemma OwnedFeedStep(s: State, t: nat)
    requires Shaped(s) && AllOwned(s) && FeedStep(s, t).Some?
    ensures AllOwned(FeedStep(s, t).value)
  {
    hide Owned;
    var s' := FeedStep(s, t).value;
    if s.feeds[t].pc.Closed? {
      OwnedClear(s.slots, s.owner, s.acc, s.feeds, t);
    } else {
      OwnedOn(s.slots, s.owner, s.acc, s.feeds, t, s'.feeds[t].pc);
    }
  }

  lemma OwnedOn(slots: seq<Slot>, owner: seq<Owner>, acc: AcceptPc, feeds: seq<Feed>, t: nat, pc: FeedPc)
    requires Owned(slots, owner, acc, feeds) && t < |feeds|
    requires forall i :: FeedOwns(feeds[t], i) <==> FeedOwns(feeds[t].(pc := pc), i)
    ensures Owned(slots, owner, acc, feeds[t := feeds[t].(pc := pc)])
  {}

  lemma OwnedClear(slots: seq<Slot>, owner: seq<Owner>, acc: AcceptPc, feeds: seq<Feed>, t: nat)
    requires Owned(slots, owner, acc, feeds) && t < |feeds| && feeds[t].pc.Closed? && feeds[t].slot < |slots|
    ensures Owned(slots[feeds[t].slot := FREE], owner[feeds[t].slot := Nobody], acc, feeds[t := feeds[t].(pc := Cleared)])
  {
    var i := feeds[t].slot;
    assert FeedOwns(feeds[t], i);
    var owner', feeds' := owner[i := Nobody], feeds[t := feeds[t].(pc := Cleared)];
    assert owner[i].Fed? && owner[i].t == t && !AccOwns(acc, i);
    forall j, u | 0 <= j < |slots| && 0 <= u < |feeds|
      ensures FeedOwns(feeds'[u], j) <==> owner'[j].Fed? && owner'[j].t == u
    {
      assert FeedOwns(feeds[u], j) <==> owner[j].Fed? && owner[j].t == u;
    }
  }

  // ---- counting ----

  function Occupied(slots: seq<Slot>): nat {
    if slots == [] then 0 else
      var last := |slots| - 1;
      Occupied(slots[..last]) + if Taken(slots[last]) then 1 else 0
  }

  /** The accept thread has filled a slot and not yet counted it. */
  function AccPending(acc: AcceptPc): nat {
    if acc.Filled? || acc.Counting? then 1 else 0
  }

  /** The feed thread has cleared its slot and not yet uncounted it. */
  predicate PcPending(pc: FeedPc) {
    pc.Cleared? || pc.Uncounting?
  }

  predicate PcClosed(pc: FeedPc) {
    pc.Closed?
  }

  function CountFeeds(feeds: seq<Feed>, p: FeedPc -> bool): nat {
    if feeds == [] then 0 else
      var last := |feeds| - 1;
      CountFeeds(feeds[..last], p) + if p(feeds[last].pc) then 1 else 0
  }

  lemma {:induction false} OccupiedUpdate(slots: seq<Slot>, i: nat, x: Slot)
    requires i < |slots|
    ensures Occupied(slots[i := x]) == Occupied(slots) - (if Taken(slots[i]) then 1 else 0) + if Taken(x) then 1 else 0
    decreases |slots|
  {
    var last := |slots| - 1;
    if i < last {
      OccupiedUpdate(slots[..last], i, x);
      assert slots[i := x][..last] == slots[..last][i := x];
    } else {
      assert slots[i := x][..last] == slots[..last];
    }
  }

  lemma {:induction false} CountUpdate(feeds: seq<Feed>, p: FeedPc -> bool, t: nat, f: Feed)
    requires t < |feeds|
    ensures CountFeeds(feeds[t := f], p) == CountFeeds(feeds, p) - (if p(feeds[t].pc) then 1 else 0) + if p(f.pc) then 1 else 0
    decreases |feeds|
  {
    var last := |feeds| - 1;
    if t < last {
      CountUpdate(feeds[..last], p, t, f);
      assert feeds[t := f][..last] == feeds[..last][t := f];
    } else {
      assert feeds[t := f][..last] == feeds[..last];
    }
  }

  lemma CountAppend(feeds: seq<Feed>, p: FeedPc -> bool, f: Feed)
    ensures CountFeeds(feeds + [f], p) == CountFeeds(feeds, p) + if p(f.pc) then 1 else 0
  {
    assert (feeds + [f])[..|feeds|] == feeds;
  }

  lemma {:induction false} CountNone(feeds: seq<Feed>, p: FeedPc -> bool)
    requires forall t :: 0 <= t < |feeds| ==> !p(feeds[t].pc)
    ensures CountFeeds(feeds, p) == 0
    decreases |feeds|
  {
    if feeds == [] {
    } else {
      CountNone(feeds[..|feeds| - 1], p);
    }
  }

  /** clients_number is the number of taken slots, but for the updates in flight. */
  ghost predicate Counts(s: State) {
    s.clientsNumber == Occupied(s.slots) - AccPending(s.acc) + CountFeeds(s.feeds, PcPending)
  }

  lemma CountsStep(s: State, a: Action)
    requires Shaped(s) && Counts(s) && Next(s, a).Some?
    requires AllOwned(s)
    ensures Counts(Next(s, a).value)
  {
    hide Shaped, Occupied, CountFeeds, AllOwned;
    match a
    case DoAcceptStep => CountsAcceptStep(s);
    case DoFeedStep(t) => CountsFeedStep(s, t);
    case _ =>
  }

  lemma CountsAcceptStep(s: State)
    requires Shaped(s) && Counts(s) && AcceptStep(s).Some?
    ensures Counts(AcceptStep(s).value)
  {
    hide Occupied, CountFeeds;
    match s.acc
    case Holds(i, k, f) => OccupiedUpdate(s.slots, i, Slot(f.sock, f.write, f.read));
    case Spawning(i) => CountAppend(s.feeds, PcPending, Feed(i, Feeding));
    case _ =>
  }

  lemma CountsFeedStep(s: State, t: nat)
    requires Shaped(s) && Counts(s) && AllOwned(s) && FeedStep(s, t).Some?
    ensures Counts(FeedStep(s, t).value)
  {
    hide Occupied, CountFeeds;
    var f := s.feeds[t];
    CountUpdate(s.feeds, PcPending, t, FeedStep(s, t).value.feeds[t]);
    if f.pc.Closed? {
      assert FeedOwns(f, f.slot);
      OccupiedUpdate(s.slots, f.slot, FREE);
    }
  }
}
