/** What the clients get: descriptors stay open while they are used, and chunks arrive without gap. */
module PoolDelivery {
  import opened Bytes
  import opened ClientPool
  import opened PoolInvariant

  // ---- descriptors ----

  predicate OpenAt(fds: map<int, File>, sock: int, write: int, read: int, k: nat) {
    && sock in fds && fds[sock] == Sock(k)
    && write in fds && fds[write] == PipeOut(k)
    && read in fds && fds[read] == PipeIn(k)
  }

  /** The feed thread of the slot has closed the descriptors and not yet cleared the slot. */
  predicate Shut(o: Owner, feeds: seq<Feed>) {
    o.Fed? && o.t < |feeds| && feeds[o.t].pc.Closed?
  }

  predicate InFlight(acc: AcceptPc) {
    acc.Wants? || acc.Holds?
  }

  /** The descriptors of every served slot are open and belong to the session of the slot alone. */
  ghost predicate Filed(slots: seq<Slot>, owner: seq<Owner>, acc: AcceptPc, feeds: seq<Feed>, fds: map<int, File>, n: nat) {
    && |owner| == |slots|
    && (forall i :: 0 <= i < |slots| && !owner[i].Nobody? ==> owner[i].k < n)
    && (forall i :: 0 <= i < |slots| && !owner[i].Nobody? && !Shut(owner[i], feeds) ==>
          OpenAt(fds, slots[i].socketFd, slots[i].writeFd, slots[i].readFd, owner[i].k))
    && (forall i, j :: 0 <= i < j < |slots| && !owner[i].Nobody? && !owner[j].Nobody? ==> owner[i].k != owner[j].k)
    && (InFlight(acc) ==>
          && acc.k < n && OpenAt(fds, acc.f.sock, acc.f.write, acc.f.read, acc.k)
          && forall i :: 0 <= i < |slots| && !owner[i].Nobody? ==> owner[i].k != acc.k)
  }

  ghost predicate AllFiled(s: State) {
    Filed(s.slots, s.owner, s.acc, s.feeds, s.fds, |s.sessions|)
  }

  lemma FiledElsewhere(slots: seq<Slot>, owner: seq<Owner>, acc: AcceptPc, acc': AcceptPc, feeds: seq<Feed>, fds: map<int, File>, n: nat)
    requires Filed(slots, owner, acc, feeds, fds, n)
    requires InFlight(acc') ==> InFlight(acc) && acc.k == acc'.k && acc.f == acc'.f
    ensures Filed(slots, owner, acc', feeds, fds, n)
  {}

  lemma FiledAccept(slots: seq<Slot>, owner: seq<Owner>, feeds: seq<Feed>, fds: map<int, File>, n: nat, f: Fds)
    requires Filed(slots, owner, Listening, feeds, fds, n)
    requires f.sock !in fds && f.write !in fds && f.read !in fds && f.sock != f.write && f.sock != f.read && f.write != f.read
    ensures Filed(slots, owner, Wants(0, n, f), feeds, fds[f.sock := Sock(n)][f.write := PipeOut(n)][f.read := PipeIn(n)], n + 1)
  {}

  /** Only the socket of a refused connection is closed. */
  lemma FiledRefuse(slots: seq<Slot>, owner: seq<Owner>, acc: AcceptPc, feeds: seq<Feed>, fds: map<int, File>, n: nat)
    requires Filed(slots, owner, acc, feeds, fds, n) && acc.Wants?
    ensures Filed(slots, owner, Listening, feeds, fds - {acc.f.sock}, n)
  {}

  lemma FiledFill(slots: seq<Slot>, owner: seq<Owner>, feeds: seq<Feed>, fds: map<int, File>, n: nat, i: nat, k: nat, f: Fds)
    requires Filed(slots, owner, Holds(i, k, f), feeds, fds, n) && i < |slots| && owner[i].Nobody?
    ensures Filed(slots[i := Slot(f.sock, f.write, f.read)], owner[i := Accepting(k)], Filled(i), feeds, fds, n)
  {}

  lemma FiledSpawn(slots: seq<Slot>, owner: seq<Owner>, feeds: seq<Feed>, fds: map<int, File>, n: nat, i: nat)
    requires Filed(slots, owner, Spawning(i), feeds, fds, n) && i < |slots| && owner[i].Accepting?
    requires forall j :: 0 <= j < |slots| && owner[j].Fed? ==> owner[j].t < |feeds|
    ensures Filed(slots, owner[i := Fed(owner[i].k, |feeds|)], Listening, feeds + [Feed(i, Feeding)], fds, n)
  {}

  lemma FiledOn(slots: seq<Slot>, owner: seq<Owner>, acc: AcceptPc, feeds: seq<Feed>, fds: map<int, File>, n: nat, t: nat, pc: FeedPc)
    requires Filed(slots, owner, acc, feeds, fds, n) && t < |feeds|
    requires !feeds[t].pc.Closed? && !pc.Closed?
    ensures Filed(slots, owner, acc, feeds[t := feeds[t].(pc := pc)], fds, n)
  {}

  lemma FiledClose(slots: seq<Slot>, owner: seq<Owner>, acc: AcceptPc, feeds: seq<Feed>, fds: map<int, File>, n: nat, t: nat)
    requires Filed(slots, owner, acc, feeds, fds, n) && Owned(slots, owner, acc, feeds)
    requires t < |feeds| && feeds[t].slot < |slots| && feeds[t].pc.HasSlot?
    ensures var x := slots[feeds[t].slot];
            && Filed(slots, owner, acc, feeds[t := feeds[t].(pc := Closed)], fds - {x.writeFd} - {x.readFd} - {x.socketFd}, n)
            && x.writeFd in fds && x.readFd in fds - {x.writeFd} && x.socketFd in fds - {x.writeFd} - {x.readFd}
            && |fds - {x.writeFd} - {x.readFd} - {x.socketFd}| == |fds| - 3
  {
    hide Filed, Owned, OpenAt;
    var i := feeds[t].slot;
    HeldOpen(slots, owner, acc, feeds, fds, n, t);
    ThreeClosed(fds, slots[i].socketFd, slots[i].writeFd, slots[i].readFd, owner[i].k);
    FiledShut(slots, owner, acc, feeds, fds, n, t);
  }

  lemma HeldOpen(slots: seq<Slot>, owner: seq<Owner>, acc: AcceptPc, feeds: seq<Feed>, fds: map<int, File>, n: nat, t: nat)
    requires Filed(slots, owner, acc, feeds, fds, n) && Owned(slots, owner, acc, feeds)
    requires t < |feeds| && feeds[t].slot < |slots| && feeds[t].pc.HasSlot?
    ensures var i := feeds[t].slot;
            && i < |owner| == |slots| && owner[i].Fed? && owner[i].t == t
            && OpenAt(fds, slots[i].socketFd, slots[i].writeFd, slots[i].readFd, owner[i].k)
  {
    hide OpenAt;
    assert FeedOwns(feeds[t], feeds[t].slot);
    assert !Shut(owner[feeds[t].slot], feeds);
  }

  lemma ThreeClosed(fds: map<int, File>, sock: int, write: int, read: int, k: nat)
    requires OpenAt(fds, sock, write, read, k)
    ensures write in fds && read in fds - {write} && sock in fds - {write} - {read}
    ensures |fds - {write} - {read} - {sock}| == |fds| - 3
  {
    Smaller(fds, write);
    Smaller(fds - {write}, read);
    Smaller(fds - {write} - {read}, sock);
  }

  /** The files of one session are not those of another. */
  lemma FiledShut(slots: seq<Slot>, owner: seq<Owner>, acc: AcceptPc, feeds: seq<Feed>, fds: map<int, File>, n: nat, t: nat)
    requires Filed(slots, owner, acc, feeds, fds, n) && t < |feeds| && feeds[t].slot < |slots| == |owner|
    requires var i := feeds[t].slot;
             && owner[i].Fed? && owner[i].t == t
             && OpenAt(fds, slots[i].socketFd, slots[i].writeFd, slots[i].readFd, owner[i].k)
    ensures var x := slots[feeds[t].slot];
            Filed(slots, owner, acc, feeds[t := feeds[t].(pc := Closed)], fds - {x.writeFd} - {x.readFd} - {x.socketFd}, n)
  {}

  lemma Smaller(fds: map<int, File>, fd: int)
    requires fd in fds
    ensures |fds - {fd}| == |fds| - 1
  {
    assert (fds - {fd}).Keys == fds.Keys - {fd};
  }

  lemma FiledClear(slots: seq<Slot>, owner: seq<Owner>, acc: AcceptPc, feeds: seq<Feed>, fds: map<int, File>, n: nat, t: nat)
    requires Filed(slots, owner, acc, feeds, fds, n) && Owned(slots, owner, acc, feeds)
    requires t < |feeds| && feeds[t].slot < |slots| && feeds[t].pc.Closed?
    ensures Filed(slots[feeds[t].slot := FREE], owner[feeds[t].slot := Nobody], acc, feeds[t := feeds[t].(pc := Cleared)], fds, n)
  {
    assert FeedOwns(feeds[t], feeds[t].slot);
  }

  /** At `Checked`, the slot is taken and its descriptors are open: check and write share the lock. */
  ghost predicate CheckedTaken(s: State) {
    s.disp.Checked? && s.disp.i < |s.slots| ==> Taken(s.slots[s.disp.i])
  }

  lemma CheckedTakenStep(s: State, a: Action)
    requires Shaped(s) && SlotLocked(s) && CheckedTaken(s) && Next(s, a).Some?
    ensures CheckedTaken(Next(s, a).value)
  {
    var s', me := Next(s, a).value, Actor(a);
    if s.disp.Checked? {
      var i := s.disp.i;
      assert s.slotLocks[i] == Some(Dispatcher) <==> HoldsSlot(s, Dispatcher, i);
      assert s.slotLocks[i] == Some(me) <==> HoldsSlot(s, me, i);
    }
  }

  /** At `Checked`, nobody has closed the descriptors of the slot. */
  lemma CheckedOpen(s: State)
    requires Shaped(s) && SlotLocked(s) && CheckedTaken(s) && AllOwned(s) && AllFiled(s) && s.disp.Checked?
    ensures var i := s.disp.i;
            && i < |s.slots| && !s.owner[i].Nobody? && s.owner[i].k < |s.sessions|
            && s.slots[i].writeFd in s.fds && s.fds[s.slots[i].writeFd] == PipeOut(s.owner[i].k)
  {
    var i := s.disp.i;
    assert s.slotLocks[i] == Some(Dispatcher) <==> HoldsSlot(s, Dispatcher, i);
    var o := s.owner[i];
    assert o.Fed? ==> (s.slotLocks[i] == Some(FeedThread(o.t)) <==> HoldsSlot(s, FeedThread(o.t), i));
    assert !Shut(o, s.feeds);
  }

  lemma FiledStep(s: State, a: Action)
    requires Shaped(s) && AllOwned(s) && AllFiled(s) && Next(s, a).Some?
    ensures AllFiled(Next(s, a).value)
  {
    hide Shaped, Owned, Filed;
    match a
    case DoAccept(f) => FiledAccept(s.slots, s.owner, s.feeds, s.fds, |s.sessions|, f);
    case DoAcceptStep => FiledAcceptStep(s);
    case DoFeedStep(t) => FiledFeedStep(s, t);
    case _ =>
  }

  lemma FiledAcceptStep(s: State)
    requires Shaped(s) && AllOwned(s) && AllFiled(s) && AcceptStep(s).Some?
    ensures AllFiled(AcceptStep(s).value)
  {
    hide Filed;
    var s' := AcceptStep(s).value;
    var n := |s.sessions|;
    match s.acc
    case Wants(i, k, f) =>
      if i < |s.slots| {
        FiledElsewhere(s.slots, s.owner, s.acc, s'.acc, s.feeds, s.fds, n);
      } else {
        FiledRefuse(s.slots, s.owner, s.acc, s.feeds, s.fds, n);
      }
    case Holds(i, k, f) =>
      if Taken(s.slots[i]) {
        FiledElsewhere(s.slots, s.owner, s.acc, s'.acc, s.feeds, s.fds, n);
      } else {
        FiledFill(s.slots, s.owner, s.feeds, s.fds, n, i, k, f);
      }
    case Spawning(i) => FiledSpawn(s.slots, s.owner, s.feeds, s.fds, n, i);
    case Listening =>
    case _ => FiledElsewhere(s.slots, s.owner, s.acc, s'.acc, s.feeds, s.fds, n);
  }

  lemma FiledFeedStep(s: State, t: nat)
    requires Shaped(s) && AllOwned(s) && AllFiled(s) && FeedStep(s, t).Some?
    ensures AllFiled(FeedStep(s, t).value)
  {
    hide Filed, Owned;
    var n := |s.sessions|;
    match s.feeds[t].pc
    case HasSlot => FiledClose(s.slots, s.owner, s.acc, s.feeds, s.fds, n, t);
    case Closed => FiledClear(s.slots, s.owner, s.acc, s.feeds, s.fds, n, t);
    case Gone =>
    case _ => FiledOn(s.slots, s.owner, s.acc, s.feeds, s.fds, n, t, FeedStep(s, t).value.feeds[t].pc);
  }

  // ---- sessions ----

  function Concat(chunks: seq<bytes>): bytes {
    if chunks == [] then [] else Concat(chunks[..|chunks| - 1]) + chunks[|chunks| - 1]
  }

  /** The bytes from the pipe among what was written to the socket. */
  function Forwarded(wire: seq<Sent>): bytes {
    if wire == [] then []
    else
      var last := wire[|wire| - 1];
      Forwarded(wire[..|wire| - 1]) + if last.Data? then last.data else []
  }

  /** What the session got is a contiguous piece of the log, and all of it went to the socket or waits in the pipe. */
  ghost predicate Gapless(x: Session, log: seq<bytes>) {
    && x.start + |x.got| <= |log|
    && x.got == log[x.start..x.start + |x.got|]
    && Concat(x.got) == Forwarded(x.wire) + x.pipe
  }

  /** Every client that is being served has been given everything that was due to it. */
  ghost predicate Served(owner: seq<Owner>, acc: AcceptPc, disp: DispatchPc, sessions: seq<Session>, log: seq<bytes>) {
    && (forall k :: 0 <= k < |sessions| ==> Gapless(sessions[k], log))
    && (forall i :: 0 <= i < |owner| && !owner[i].Nobody? && owner[i].k < |sessions| ==>
          sessions[owner[i].k].start + |sessions[owner[i].k].got| == Due(disp, |log|, i))
    && (InFlight(acc) && acc.k < |sessions| ==> sessions[acc.k] == Session(0, [], [], []))
  }

  ghost predicate AllServed(s: State) {
    Served(s.owner, s.acc, s.disp, s.sessions, s.log)
  }

  lemma ServedStep(s: State, a: Action)
    requires Shaped(s) && SlotLocked(s) && CheckedTaken(s) && AllOwned(s) && AllFiled(s) && AllServed(s) && Next(s, a).Some?
    ensures AllServed(Next(s, a).value)
  {
    hide Shaped, SlotLocked, CheckedTaken, Owned, Filed, Served;
    var s' := Next(s, a).value;
    match a
    case DoAccept(f) =>
      OwnersKnown(s);
      ServedAccept(s.owner, s.disp, s.sessions, s.log, f);
    case DoAcceptStep => ServedAcceptStep(s);
    case DoFeedData(t, n) => ServedFeedData(s, t, n);
    case DoFeedAnswer(t) => ServedFeedAnswer(s, t);
    case DoFeedStep(t) => ServedFeedStep(s, t);
    case DoRead(chunk) => ServedRead(s.owner, s.acc, s.sessions, s.log, chunk);
    case DoDispatchStep => ServedDispatchStep(s);
    case DoStrand => ServedTurn(s.owner, s.acc, s.disp, s'.disp, s.sessions, s.log);
    case _ =>
  }

  lemma OwnersKnown(s: State)
    requires AllFiled(s)
    ensures |s.owner| == |s.slots| && forall i :: 0 <= i < |s.owner| && !s.owner[i].Nobody? ==> s.owner[i].k < |s.sessions|
  {}

  lemma ServedAccept(owner: seq<Owner>, disp: DispatchPc, sessions: seq<Session>, log: seq<bytes>, f: Fds)
    requires Served(owner, Listening, disp, sessions, log)
    requires forall i :: 0 <= i < |owner| && !owner[i].Nobody? ==> owner[i].k < |sessions|
    ensures Served(owner, Wants(0, |sessions|, f), disp, sessions + [Session(0, [], [], [])], log)
  {}

  lemma ServedRead(owner: seq<Owner>, acc: AcceptPc, sessions: seq<Session>, log: seq<bytes>, chunk: bytes)
    requires Served(owner, acc, HasConnect, sessions, log)
    ensures Served(owner, acc, AtSlot(0), sessions, log + [chunk])
  {
    forall k | 0 <= k < |sessions| ensures Gapless(sessions[k], log + [chunk]) {
      var x := sessions[k];
      assert Gapless(x, log);
      assert (log + [chunk])[x.start..x.start + |x.got|] == log[x.start..x.start + |x.got|];
    }
  }

  /** The dispatcher moves on, and nothing is due to the clients that was not due before. */
  lemma ServedTurn(owner: seq<Owner>, acc: AcceptPc, disp: DispatchPc, disp': DispatchPc, sessions: seq<Session>, log: seq<bytes>)
    requires Served(owner, acc, disp, sessions, log)
    requires forall i :: 0 <= i < |owner| && !owner[i].Nobody? ==> Due(disp, |log|, i) == Due(disp', |log|, i)
    ensures Served(owner, acc, disp', sessions, log)
  {
    hide Gapless;
  }

  lemma ServedAcceptStep(s: State)
    requires Shaped(s) && AllOwned(s) && AllFiled(s) && AllServed(s) && AcceptStep(s).Some?
    ensures AllServed(AcceptStep(s).value)
  {
    hide Served;
    var s' := AcceptStep(s).value;
    match s.acc
    case Wants(i, k, f) =>
      ServedElsewhere(s.owner, s.acc, s'.acc, s.disp, s.sessions, s.log);
      if i == |s.slots| {
        ServedSent(s.owner, Listening, s.disp, s.sessions, s.log, k, Refusal);
      }
    case Holds(i, k, f) =>
      if Taken(s.slots[i]) {
        ServedElsewhere(s.owner, s.acc, s'.acc, s.disp, s.sessions, s.log);
      } else {
        ServedFill(s.owner, s.disp, s.sessions, s.log, i, k, f);
      }
    case Spawning(i) =>
      ServedElsewhere(s.owner, s.acc, s'.acc, s.disp, s.sessions, s.log);
      ServedHandover(s.owner, s'.acc, s.disp, s.sessions, s.log, i, s'.owner[i]);
    case Listening =>
    case _ => ServedElsewhere(s.owner, s.acc, s'.acc, s.disp, s.sessions, s.log);
  }

  lemma ServedElsewhere(owner: seq<Owner>, acc: AcceptPc, acc': AcceptPc, disp: DispatchPc, sessions: seq<Session>, log: seq<bytes>)
    requires Served(owner, acc, disp, sessions, log) && (InFlight(acc') ==> InFlight(acc) && acc.k == acc'.k)
    ensures Served(owner, acc', disp, sessions, log)
  {
    hide Gapless;
  }

  lemma ServedFill(owner: seq<Owner>, disp: DispatchPc, sessions: seq<Session>, log: seq<bytes>, i: nat, k: nat, f: Fds)
    requires Served(owner, Holds(i, k, f), disp, sessions, log) && i < |owner| && k < |sessions|
    requires forall j :: 0 <= j < |owner| && !owner[j].Nobody? ==> owner[j].k != k
    ensures Served(owner[i := Accepting(k)], Filled(i), disp,
                   sessions[k := sessions[k].(start := Due(disp, |log|, i))], log)
  {
    hide Gapless;
    GaplessStart(Due(disp, |log|, i), log);
  }

  /** A session starts with nothing due to it. */
  lemma GaplessStart(start: nat, log: seq<bytes>)
    requires start <= |log|
    ensures Gapless(Session(start, [], [], []), log)
  {}

  lemma ServedHandover(owner: seq<Owner>, acc: AcceptPc, disp: DispatchPc, sessions: seq<Session>, log: seq<bytes>, i: nat, o: Owner)
    requires Served(owner, acc, disp, sessions, log) && i < |owner|
    requires o.Nobody? || (!owner[i].Nobody? && o.k == owner[i].k)
    ensures Served(owner[i := o], acc, disp, sessions, log)
  {
    hide Gapless;
  }

  /** A feed thread that serves its slot finds the descriptors of its own session there. */
  lemma FeedOpen(s: State, t: nat)
    requires Shaped(s) && AllOwned(s) && AllFiled(s) && t < |s.feeds| && (s.feeds[t].pc.Feeding? || s.feeds[t].pc.HasSlot?)
    ensures var i := s.feeds[t].slot;
            && i < |s.owner| && i < |s.slots| && s.owner[i].Fed? && s.owner[i].t == t && s.owner[i].k < |s.sessions|
            && OpenAt(s.fds, s.slots[i].socketFd, s.slots[i].writeFd, s.slots[i].readFd, s.owner[i].k)
  {
    assert FeedOwns(s.feeds[t], s.feeds[t].slot);
    assert !Shut(s.owner[s.feeds[t].slot], s.feeds);
  }

  lemma ServedFeedData(s: State, t: nat, n: nat)
    requires Shaped(s) && AllOwned(s) && AllFiled(s) && AllServed(s) && FeedData(s, t, n).Some?
    ensures AllServed(FeedData(s, t, n).value) && FeedData(s, t, n).value.strays == s.strays
  {
    hide Owned, Served;
    FeedOpen(s, t);
    var k := s.owner[s.feeds[t].slot].k;
    var x := s.sessions[k];
    ServedForward(s.owner, s.acc, s.disp, s.sessions, s.log, k, n);
    assert FeedData(s, t, n).value.sessions == s.sessions[k := x.(pipe := x.pipe[n..], wire := x.wire + [Data(x.pipe[..n])])];
  }

  lemma ServedFeedAnswer(s: State, t: nat)
    requires Shaped(s) && AllOwned(s) && AllFiled(s) && AllServed(s) && FeedAnswer(s, t).Some?
    ensures AllServed(FeedAnswer(s, t).value) && FeedAnswer(s, t).value.strays == s.strays
  {
    hide Owned, Served;
    FeedOpen(s, t);
    ServedSent(s.owner, s.acc, s.disp, s.sessions, s.log, s.owner[s.feeds[t].slot].k, Answer);
  }

  lemma ServedForward(owner: seq<Owner>, acc: AcceptPc, disp: DispatchPc, sessions: seq<Session>, log: seq<bytes>, k: nat, n: nat)
    requires Served(owner, acc, disp, sessions, log) && k < |sessions| && n <= |sessions[k].pipe|
    requires InFlight(acc) ==> acc.k != k
    ensures var x := sessions[k];
            Served(owner, acc, disp, sessions[k := x.(pipe := x.pipe[n..], wire := x.wire + [Data(x.pipe[..n])])], log)
  {
    var x := sessions[k];
    var y := x.(pipe := x.pipe[n..], wire := x.wire + [Data(x.pipe[..n])]);
    assert Gapless(x, log);
    assert y.wire[..|x.wire|] == x.wire && y.wire[|x.wire|] == Data(x.pipe[..n]);
    assert Forwarded(x.wire) + x.pipe == Forwarded(y.wire) + y.pipe;
    assert Gapless(y, log);
  }

  /** The socket gets something that is not from the pipe. */
  lemma ServedSent(owner: seq<Owner>, acc: AcceptPc, disp: DispatchPc, sessions: seq<Session>, log: seq<bytes>, k: nat, e: Sent)
    requires Served(owner, acc, disp, sessions, log) && k < |sessions| && (InFlight(acc) ==> acc.k != k) && !e.Data?
    ensures Served(owner, acc, disp, sessions[k := sessions[k].(wire := sessions[k].wire + [e])], log)
  {
    var x := sessions[k];
    var y := x.(wire := x.wire + [e]);
    assert Gapless(x, log);
    assert y.wire[..|x.wire|] == x.wire && y.wire[|x.wire|] == e;
    assert Gapless(y, log);
  }

  lemma ServedFeedStep(s: State, t: nat)
    requires Shaped(s) && AllOwned(s) && AllServed(s) && FeedStep(s, t).Some?
    ensures AllServed(FeedStep(s, t).value)
  {
    hide Owned, Served;
    if s.feeds[t].pc.Closed? {
      ServedHandover(s.owner, s.acc, s.disp, s.sessions, s.log, s.feeds[t].slot, Nobody);
    }
  }

  lemma ServedDispatchStep(s: State)
    requires Shaped(s) && SlotLocked(s) && CheckedTaken(s) && AllOwned(s) && AllFiled(s) && AllServed(s) && DispatchStep(s).Some?
    ensures AllServed(DispatchStep(s).value) && DispatchStep(s).value.strays == s.strays
  {
    hide Served, SlotLocked;
    var s' := DispatchStep(s).value;
    if s.disp.Checked? {
      CheckedOpen(s);
      var i := s.disp.i;
      ServedWrite(s.owner, s.acc, s.disp, s.sessions, s.log, i, s.owner[i].k);
    } else {
      ServedTurn(s.owner, s.acc, s.disp, s'.disp, s.sessions, s.log);
    }
  }

  lemma ServedWrite(owner: seq<Owner>, acc: AcceptPc, disp: DispatchPc, sessions: seq<Session>, log: seq<bytes>, i: nat, k: nat)
    requires Served(owner, acc, disp, sessions, log) && disp == Checked(i) && log != []
    requires i < |owner| && !owner[i].Nobody? && owner[i].k == k < |sessions| && (InFlight(acc) ==> acc.k != k)
    requires forall j :: 0 <= j < |owner| && j != i && !owner[j].Nobody? ==> owner[j].k != k
    ensures var x, chunk := sessions[k], log[|log| - 1];
            Served(owner, acc, Unlocking(i), sessions[k := x.(got := x.got + [chunk], pipe := x.pipe + chunk)], log)
  {
    hide Gapless;
    GaplessWrite(sessions[k], log);
  }

  /** The next chunk of the log goes into the pipe. */
  lemma GaplessWrite(x: Session, log: seq<bytes>)
    requires Gapless(x, log) && x.start + |x.got| == |log| - 1
    ensures var chunk := log[|log| - 1]; Gapless(x.(got := x.got + [chunk], pipe := x.pipe + chunk), log)
  {
    var chunk := log[|log| - 1];
    var y := x.(got := x.got + [chunk], pipe := x.pipe + chunk);
    assert y.got[..|x.got|] == x.got;
    assert Concat(y.got) == Forwarded(y.wire) + y.pipe;
    assert y.got == log[y.start..y.start + |y.got|];
  }
}
