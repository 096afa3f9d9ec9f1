/**
  The client pool of devdrvd as a state machine of atomic steps: the accept thread registers clients
  in slots, one feed thread per client forwards its pipe to its socket and unregisters it, the
  dispatcher copies every chunk into the pipe of every occupied slot, and connect threads compete with
  the dispatcher for connect_lock. Any number of slots, any interleaving. Descriptor numbers are
  chosen by the kernel and reused after close.
 */
module ClientPool {
  import opened Bytes

  datatype Thread = Acceptor | FeedThread(t: nat) | Dispatcher | Connector(c: nat)

  /** What a descriptor refers to: the socket or one end of the pipe of session `k`. */
  datatype File = Sock(k: nat) | PipeIn(k: nat) | PipeOut(k: nat)

  datatype Fds = Fds(sock: int, write: int, read: int)

  datatype Slot = Slot(socketFd: int, writeFd: int, readFd: int)

  /** Where the accept thread is in runcontrol and register_client. */
  datatype AcceptPc =
    | Listening
    | Wants(i: nat, k: nat, f: Fds)
    | Holds(i: nat, k: nat, f: Fds)
    | Filled(i: nat)
    | Counting(i: nat)
    | Counted(i: nat)
    | Releasing(i: nat)
    | Spawning(i: nat)

  /** Where a feed thread is in packet_feed and unregister_client. */
  datatype FeedPc = Feeding | WantsSlot | HasSlot | Closed | Cleared | Uncounting | Uncounted | Freeing | Gone

  datatype Feed = Feed(slot: nat, pc: FeedPc)

  /** Where the dispatcher is in the main loop; `Stranded` is the way out that keeps connect_lock. */
  datatype DispatchPc =
    | Idle
    | WantsConnect
    | HasConnect
    | AtSlot(i: nat)
    | InSlot(i: nat)
    | Checked(i: nat)
    | Unlocking(i: nat)
    | Stranded

  /** Where a connect thread is: it takes connect_lock once to reset its member and again for every attempt. */
  datatype ConnectPc = Starting | Resetting | Waiting | Connecting | Ended

  /** One write to a socket: bytes from the pipe, the answer to bytes from the client, or the text of a refusal. */
  datatype Sent = Data(data: bytes) | Answer | Refusal

  /**
    One connection: the log position from which on chunks are due to it, the chunks written to its
    pipe, what the pipe holds, and what was written to the socket.
   */
  datatype Session = Session(start: nat, got: seq<bytes>, pipe: bytes, wire: seq<Sent>)

  /** Who will unregister the client of a slot. */
  datatype Owner = Nobody | Accepting(k: nat) | Fed(k: nat, t: nat)

  datatype State = State(
    slots: seq<Slot>,
    clientsNumber: int,
    connectLock: Option<Thread>,
    slotLocks: seq<Option<Thread>>,
    clientLock: Option<Thread>,
    acc: AcceptPc,
    feeds: seq<Feed>,
    disp: DispatchPc,
    connectors: seq<ConnectPc>,
    fds: map<int, File>,
    sessions: seq<Session>,
    log: seq<bytes>,
    strays: nat,
    refused: nat,
    owner: seq<Owner>)

  const FREE := Slot(-1, -1, -1)

  const FEED_BUFFER := 1024

  /** "Unknown command recieved." and a line feed. */
  const MSG_ERROR: bytes := [
    0x55, 0x6e, 0x6b, 0x6e, 0x6f, 0x77, 0x6e, 0x20, 0x63, 0x6f, 0x6d, 0x6d, 0x61,
    0x6e, 0x64, 0x20, 0x72, 0x65, 0x63, 0x69, 0x65, 0x76, 0x65, 0x64, 0x2e, 0x0a]

  /** "Maximum client size exceeded", a carriage return and a line feed. */
  const MSG_REFUSED: bytes := [
    0x4d, 0x61, 0x78, 0x69, 0x6d, 0x75, 0x6d, 0x20, 0x63, 0x6c,
    0x69, 0x65, 0x6e, 0x74, 0x20, 0x73, 0x69, 0x7a, 0x65, 0x20,
    0x65, 0x78, 0x63, 0x65, 0x65, 0x64, 0x65, 0x64, 0x0d, 0x0a]

  predicate Taken(s: Slot) {
    s.socketFd != -1
  }

  /** main before the loop: a pool of `n` slots, and a connect thread for each of `members` device daemons. */
  function Init(n: nat, members: nat): State {
    State(seq(n, _ => FREE), 0, None, seq(n, _ => None), None, Listening, [], Idle, seq(members, _ => Starting),
          map[], [], [], 0, 0, seq(n, _ => Nobody))
  }

  /** How many of the `n` chunks of the log have been offered to slot `i`: the last one goes round. */
  function Due(disp: DispatchPc, n: nat, i: nat): (d: nat)
    ensures d <= n
  {
    match disp
    case AtSlot(j) => if j <= i && n > 0 then n - 1 else n
    case InSlot(j) => if j <= i && n > 0 then n - 1 else n
    case Checked(j) => if j <= i && n > 0 then n - 1 else n
    case Unlocking(j) => if j < i && n > 0 then n - 1 else n
    case _ => n
  }

  // ---- the accept thread ----

  /** accept and pipe2: three new descriptors. */
  function Accept(s: State, f: Fds): Option<State> {
    if s.acc.Listening? && f.sock >= 0 && f.write >= 0 && f.read >= 0
       && f.sock != f.write && f.sock != f.read && f.write != f.read
       && f.sock !in s.fds && f.write !in s.fds && f.read !in s.fds
    then
      var k := |s.sessions|;
      Some(s.(fds := s.fds[f.sock := Sock(k)][f.write := PipeOut(k)][f.read := PipeIn(k)],
              sessions := s.sessions + [Session(0, [], [], [])],
              acc := Wants(0, k, f)))
    else None
  }

  /** The next step of register_client, or of its caller when the pool was full. */
  function AcceptStep(s: State): Option<State> {
    match s.acc
    case Listening => None
    case Wants(i, k, f) =>
      if i < |s.slots| && i < |s.slotLocks| then
        if s.slotLocks[i] == None then
          Some(s.(slotLocks := s.slotLocks[i := Some(Acceptor)], acc := Holds(i, k, f)))
        else None
      else if k < |s.sessions| then
        Some(s.(sessions := s.sessions[k := s.sessions[k].(wire := s.sessions[k].wire + [Refusal])],
                fds := s.fds - {f.sock}, strays := s.strays + Stray(s.fds, f.sock, Sock(k)),
                refused := s.refused + 1, acc := Listening))
      else None
    case Holds(i, k, f) =>
      if i < |s.slots| && i < |s.slotLocks| && i < |s.owner| && k < |s.sessions| then
        if Taken(s.slots[i]) then
          Some(s.(slotLocks := s.slotLocks[i := None], acc := Wants(i + 1, k, f)))
        else
          Some(s.(slots := s.slots[i := Slot(f.sock, f.write, f.read)],
                  owner := s.owner[i := Accepting(k)],
                  sessions := s.sessions[k := s.sessions[k].(start := Due(s.disp, |s.log|, i))],
                  acc := Filled(i)))
      else None
    case Filled(i) =>
      if s.clientLock == None then Some(s.(clientLock := Some(Acceptor), acc := Counting(i))) else None
    case Counting(i) => Some(s.(clientsNumber := s.clientsNumber + 1, acc := Counted(i)))
    case Counted(i) => Some(s.(clientLock := None, acc := Releasing(i)))
    case Releasing(i) =>
      if i < |s.slotLocks| then Some(s.(slotLocks := s.slotLocks[i := None], acc := Spawning(i))) else None
    case Spawning(i) =>
      if i < |s.owner| && s.owner[i].Accepting? then
        Some(s.(feeds := s.feeds + [Feed(i, Feeding)], owner := s.owner[i := Fed(s.owner[i].k, |s.feeds|)], acc := Listening))
      else None
  }

  /** An access is a stray one unless the number is open and is the file that is meant, of the session that is meant. */
  function Stray(fds: map<int, File>, fd: int, file: File): nat {
    if fd in fds && fds[fd] == file then 0 else 1
  }

  /** The session that a feed thread serves: that of its slot, if it is the thread of the slot; else one that has no files. */
  function ServedBy(s: State, t: nat): nat
    requires t < |s.feeds|
  {
    var i := s.feeds[t].slot;
    if i < |s.owner| && s.owner[i].Fed? && s.owner[i].t == t then s.owner[i].k else |s.sessions|
  }

  /** The session of a slot; one that has no files if nobody is in it. */
  function SessionIn(s: State, i: nat): nat {
    if i < |s.owner| && !s.owner[i].Nobody? then s.owner[i].k else |s.sessions|
  }

  // ---- feed threads ----

  function SetFeed(s: State, t: nat, pc: FeedPc): State
    requires t < |s.feeds|
  {
    s.(feeds := s.feeds[t := s.feeds[t].(pc := pc)])
  }

  /** One read from the pipe of the slot, written to the socket of the slot. */
  function FeedData(s: State, t: nat, n: nat): Option<State> {
    if t < |s.feeds| && s.feeds[t].pc.Feeding? && s.feeds[t].slot < |s.slots| && 0 < n <= FEED_BUFFER then
      var slot, own := s.slots[s.feeds[t].slot], ServedBy(s, t);
      var strays := s.strays + Stray(s.fds, slot.readFd, PipeIn(own)) + Stray(s.fds, slot.socketFd, Sock(own));
      if slot.readFd in s.fds && s.fds[slot.readFd].PipeIn? && slot.socketFd in s.fds && s.fds[slot.socketFd].Sock? then
        var k, to := s.fds[slot.readFd].k, s.fds[slot.socketFd].k;
        if k < |s.sessions| && to < |s.sessions| && n <= |s.sessions[k].pipe| then
          var data := s.sessions[k].pipe[..n];
          var read := s.sessions[k := s.sessions[k].(pipe := s.sessions[k].pipe[n..])];
          Some(s.(sessions := read[to := read[to].(wire := read[to].wire + [Data(data)])], strays := strays))
        else None
      else Some(s.(strays := strays))
    else None
  }

  /** The client has sent something: it is read from the socket of the slot and answered there, whatever it is. */
  function FeedAnswer(s: State, t: nat): Option<State> {
    if t < |s.feeds| && s.feeds[t].pc.Feeding? && s.feeds[t].slot < |s.slots| then
      var fd := s.slots[s.feeds[t].slot].socketFd;
      var strays := s.strays + Stray(s.fds, fd, Sock(ServedBy(s, t)));
      if fd in s.fds && s.fds[fd].Sock? then
        var k := s.fds[fd].k;
        if k < |s.sessions| then
          Some(s.(sessions := s.sessions[k := s.sessions[k].(wire := s.sessions[k].wire + [Answer])], strays := strays))
        else None
      else Some(s.(strays := strays))
    else None
  }

  /** The next step on the way out of packet_feed: unregister_client. */
  function FeedStep(s: State, t: nat): Option<State> {
    if t < |s.feeds| && s.feeds[t].slot < |s.slots| == |s.slotLocks| == |s.owner| then
      var i := s.feeds[t].slot;
      var me := Some(FeedThread(t));
      match s.feeds[t].pc
      case Feeding => Some(SetFeed(s, t, WantsSlot))
      case WantsSlot =>
        if s.slotLocks[i] == None then Some(SetFeed(s, t, HasSlot).(slotLocks := s.slotLocks[i := me])) else None
      case HasSlot =>
        var slot, own := s.slots[i], ServedBy(s, t);
        Some(SetFeed(s, t, Closed).(
          fds := s.fds - {slot.writeFd} - {slot.readFd} - {slot.socketFd},
          strays := s.strays + Stray(s.fds, slot.writeFd, PipeOut(own))
                    + Stray(s.fds - {slot.writeFd}, slot.readFd, PipeIn(own))
                    + Stray(s.fds - {slot.writeFd} - {slot.readFd}, slot.socketFd, Sock(own))))
      case Closed => Some(SetFeed(s, t, Cleared).(slots := s.slots[i := FREE], owner := s.owner[i := Nobody]))
      case Cleared =>
        if s.clientLock == None then Some(SetFeed(s, t, Uncounting).(clientLock := me)) else None
      case Uncounting => Some(SetFeed(s, t, Uncounted).(clientsNumber := s.clientsNumber - 1))
      case Uncounted => Some(SetFeed(s, t, Freeing).(clientLock := None))
      case Freeing => Some(SetFeed(s, t, Gone).(slotLocks := s.slotLocks[i := None]))
      case Gone => None
    else None
  }

  // ---- the dispatcher ----

  /** A chunk has been read from a device daemon; it goes to the slots in turn. */
  function Read(s: State, chunk: bytes): Option<State> {
    if s.disp.HasConnect? then Some(s.(log := s.log + [chunk], disp := AtSlot(0))) else None
  }

  function DispatchStep(s: State): Option<State> {
    match s.disp
    case Idle => Some(s.(disp := WantsConnect))
    case WantsConnect =>
      if s.connectLock == None then Some(s.(connectLock := Some(Dispatcher), disp := HasConnect)) else None
    case HasConnect => Some(s.(connectLock := None, disp := Idle))
    case AtSlot(i) =>
      if i < |s.slots| && i < |s.slotLocks| then
        if s.slotLocks[i] == None then Some(s.(slotLocks := s.slotLocks[i := Some(Dispatcher)], disp := InSlot(i))) else None
      else Some(s.(disp := HasConnect))
    case InSlot(i) =>
      if i < |s.slots| then Some(s.(disp := if Taken(s.slots[i]) then Checked(i) else Unlocking(i))) else None
    case Checked(i) =>
      if i < |s.slots| && s.log != [] then
        Some(s.(sessions := Written(s.sessions, s.fds, s.slots[i].writeFd, s.log[|s.log| - 1]),
                strays := s.strays + Stray(s.fds, s.slots[i].writeFd, PipeOut(SessionIn(s, i))),
                disp := Unlocking(i)))
      else None
    case Unlocking(i) =>
      if i < |s.slotLocks| then Some(s.(slotLocks := s.slotLocks[i := None], disp := AtSlot(i + 1))) else None
    case Stranded => None
  }

  /** The descriptor is the open write end of a pipe. */
  predicate Writable(sessions: seq<Session>, fds: map<int, File>, fd: int) {
    fd in fds && fds[fd].PipeOut? && fds[fd].k < |sessions|
  }

  function Written(sessions: seq<Session>, fds: map<int, File>, fd: int, chunk: bytes): seq<Session> {
    if Writable(sessions, fds, fd) then
      var x := sessions[fds[fd].k];
      sessions[fds[fd].k := x.(got := x.got + [chunk], pipe := x.pipe + chunk)]
    else sessions
  }

  /** A shutdown signal interrupts the select: the loop is left without unlocking. */
  function Strand(s: State): Option<State> {
    if s.disp.HasConnect? then Some(s.(disp := Stranded)) else None
  }

  /** A device connection broke: a connect thread is started. */
  function Reconnect(s: State): Option<State> {
    if s.disp.HasConnect? then Some(s.(connectors := s.connectors + [Starting])) else None
  }

  /** The next step of a connect thread; after an attempt that failed it may try again. */
  function ConnectStep(s: State, c: nat, again: bool): Option<State> {
    if c < |s.connectors| then
      match s.connectors[c]
      case Starting => TakeConnect(s, c, Resetting)
      case Resetting => Some(s.(connectLock := None, connectors := s.connectors[c := Waiting]))
      case Waiting => TakeConnect(s, c, Connecting)
      case Connecting => Some(s.(connectLock := None, connectors := s.connectors[c := if again then Waiting else Ended]))
      case Ended => None
    else None
  }

  function TakeConnect(s: State, c: nat, pc: ConnectPc): Option<State>
    requires c < |s.connectors|
  {
    if s.connectLock == None then Some(s.(connectLock := Some(Connector(c)), connectors := s.connectors[c := pc])) else None
  }

  // ---- all steps ----

  datatype Action =
    | DoAccept(f: Fds)
    | DoAcceptStep
    | DoFeedData(t: nat, n: nat)
    | DoFeedAnswer(t: nat)
    | DoFeedStep(t: nat)
    | DoRead(chunk: bytes)
    | DoDispatchStep
    | DoStrand
    | DoReconnect
    | DoConnectStep(c: nat, again: bool)

  /** The state after the action, if it can happen now. */
  function Next(s: State, a: Action): Option<State> {
    match a
    case DoAccept(f) => Accept(s, f)
    case DoAcceptStep => AcceptStep(s)
    case DoFeedData(t, n) => FeedData(s, t, n)
    case DoFeedAnswer(t) => FeedAnswer(s, t)
    case DoFeedStep(t) => FeedStep(s, t)
    case DoRead(chunk) => Read(s, chunk)
    case DoDispatchStep => DispatchStep(s)
    case DoStrand => Strand(s)
    case DoReconnect => Reconnect(s)
    case DoConnectStep(c, again) => ConnectStep(s, c, again)
  }

  /** The state after a whole run, if every action of it can happen. */
  function Exec(s: State, run: seq<Action>): Option<State>
    decreases |run|
  {
    if run == [] then Some(s)
    else
      match Next(s, run[0])
      case None => None
      case Some(s') => Exec(s', run[1..])
  }
}
