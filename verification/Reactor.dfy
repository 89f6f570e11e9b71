/** The hand-off between the event loop and the business threads: per-connection response queues, an
    eventfd that announces them, and the sweep that empties them (posix_epoll_event_loop.cpp,
    reactor_mail_box.cpp, connect_context.cpp). A step is one section under the mailbox mutex, one
    access to the eventfd, or work that only the event loop sees; steps interleave in any order. */
module Reactor {
  import opened Options
  import opened Bytes

  /** The largest value an eventfd counter holds. */
  const EVENT_MAX: nat := 0xffff_ffff_ffff_fffe

  /** A byte of a response, marked with the peer whose request it answers. */
  datatype Octet = Octet(value: Byte, origin: nat)

  datatype Frame = Frame(connectId: nat, data: seq<Octet>)

  /** A frame received from a peer, on its way to the business threads. */
  datatype Request = Request(connectId: nat, data: seq<Byte>, origin: nat)

  /** What the loop keeps for one descriptor. peer and sent record who is at the other end and what the
      socket has accepted for it. */
  datatype Connection = Connection(
    id: nat,
    writeBuffer: seq<Octet>,
    wantsWrite: bool,
    peer: nat,
    sent: seq<Octet>)

  datatype Loop =
    | Polling
    | Draining
    | Sweeping(todo: set<nat>)
    | Popping(fd: nat, frames: seq<Frame>, todo: set<nat>)
    | Writing(fd: nat, frames: seq<Frame>, todo: set<nat>)

  datatype Worker = Resting | Serving(request: Request) | Notifying

  /** peers has one entry for every connection ever accepted, at its id; its length is the connection
      counter. pushed records, per id, all bytes ever put into its queue. */
  datatype State = State(
    connections: map<nat, Connection>,
    queues: map<nat, seq<Frame>>,
    events: nat,
    loop: Loop,
    toServer: seq<Request>,
    workers: seq<Worker>,
    peers: seq<nat>,
    pushed: map<nat, seq<Octet>>)

  datatype Action =
    | Accept(fd: nat, peer: nat)
    | Remove(fd: nat)
    | Receive(fd: nat, payloads: seq<seq<Byte>>)
    | EventReadable
    | ReadEvent
    | SocketWritable(fd: nat)
    | SweepTo(fd: nat)
    | PopFrame
    | WriteOut(accepted: nat)
    | TakeRequest(worker: nat)
    | DropRequest(worker: nat)
    | Reply(worker: nat, payload: seq<Byte>)
    | Notify(worker: nat)

  // ---------------------------------------------------------------- one step

  function Stamp(payload: seq<Byte>, origin: nat): (data: seq<Octet>)
    ensures |data| == |payload|
    ensures forall k :: 0 <= k < |data| ==> data[k] == Octet(payload[k], origin)
  {
    seq(|payload|, k requires 0 <= k < |payload| => Octet(payload[k], origin))
  }

  function Requests(c: Connection, payloads: seq<seq<Byte>>): (r: seq<Request>)
    ensures |r| == |payloads|
    ensures forall k :: 0 <= k < |r| ==> r[k] == Request(c.id, payloads[k], c.peer)
  {
    seq(|payloads|, k requires 0 <= k < |payloads| => Request(c.id, payloads[k], c.peer))
  }

  function DataOf(frames: seq<Frame>): seq<Octet> {
    if frames == [] then [] else DataOf(frames[..|frames| - 1]) + frames[|frames| - 1].data
  }

  /** What follows a flushed connection: the rest of the sweep, or polling again. */
  function After(todo: set<nat>): Loop {
    if todo == {} then Polling else Sweeping(todo)
  }

  /** write(): appends the frames to the pending bytes, hands a prefix to the socket, and asks for
      EPOLLOUT exactly while bytes remain. */
  function Flushed(c: Connection, frames: seq<Frame>, accepted: nat): Connection
    requires accepted <= |c.writeBuffer + DataOf(frames)|
  {
    var pending := c.writeBuffer + DataOf(frames);
    c.(writeBuffer := pending[accepted..],
       wantsWrite := pending[accepted..] != [],
       sent := c.sent + pending[..accepted])
  }

  function Next(s: State, a: Action): Option<State> {
    match a
    case Accept(fd, peer) =>
      // the operating system hands out a descriptor that no open connection holds
      if s.loop.Polling? && fd !in s.connections then
        var id := |s.peers|;
        Some(s.(connections := s.connections[fd := Connection(id, [], false, peer, [])],
                queues := s.queues[id := []], pushed := s.pushed[id := []], peers := s.peers + [peer]))
      else None
    case Remove(fd) =>
      if s.loop.Polling? && fd in s.connections then
        Some(s.(connections := s.connections - {fd}, queues := s.queues - {s.connections[fd].id}))
      else None
    case Receive(fd, payloads) =>
      if s.loop.Polling? && fd in s.connections then
        Some(s.(toServer := s.toServer + Requests(s.connections[fd], payloads)))
      else None
    case EventReadable =>
      if s.loop.Polling? && s.events > 0 then Some(s.(loop := Draining)) else None
    case ReadEvent =>
      if s.loop.Draining? then
        Some(if s.events > 0 then s.(events := 0) else s.(loop := After(s.connections.Keys)))
      else None
    case SocketWritable(fd) =>
      if s.loop.Polling? && fd in s.connections && s.connections[fd].wantsWrite then
        Some(s.(loop := Popping(fd, [], {})))
      else None
    case SweepTo(fd) =>
      if s.loop.Sweeping? && fd in s.loop.todo then Some(s.(loop := Popping(fd, [], s.loop.todo - {fd}))) else None
    case PopFrame =>
      if s.loop.Popping? && s.loop.fd in s.connections then Some(Popped(s)) else None
    case WriteOut(accepted) =>
      if s.loop.Writing? && s.loop.fd in s.connections
         && accepted <= |s.connections[s.loop.fd].writeBuffer + DataOf(s.loop.frames)| then
        var fd := s.loop.fd;
        Some(s.(connections := s.connections[fd := Flushed(s.connections[fd], s.loop.frames, accepted)],
                loop := After(s.loop.todo)))
      else None
    case TakeRequest(w) =>
      if w < |s.workers| && s.workers[w].Resting? && s.toServer != [] then
        Some(s.(workers := s.workers[w := Serving(s.toServer[0])], toServer := s.toServer[1..]))
      else None
    case DropRequest(w) =>
      if w < |s.workers| && s.workers[w].Serving? then Some(s.(workers := s.workers[w := Resting])) else None
    case Reply(w, payload) =>
      if w < |s.workers| && s.workers[w].Serving? then Some(Replied(s, w, payload)) else None
    case Notify(w) =>
      if w < |s.workers| && s.workers[w].Notifying? then
        Some(s.(events := if s.events < EVENT_MAX then s.events + 1 else s.events, workers := s.workers[w := Resting]))
      else None
  }

  /** pop_from_to_client_queue inside the flush loop: a frame, or the end of the loop. */
  function Popped(s: State): State
    requires s.loop.Popping? && s.loop.fd in s.connections
  {
    var id := s.connections[s.loop.fd].id;
    if id !in s.queues || s.queues[id] == [] then
      s.(loop := Writing(s.loop.fd, s.loop.frames, s.loop.todo))
    else
      s.(queues := s.queues[id := s.queues[id][1..]],
         loop := Popping(s.loop.fd, s.loop.frames + [s.queues[id][0]], s.loop.todo))
  }

  /** push_to_client_frame: without a queue for the id the response is dropped. */
  function Replied(s: State, w: nat, payload: seq<Byte>): State
    requires w < |s.workers| && s.workers[w].Serving?
  {
    var r := s.workers[w].request;
    if r.connectId !in s.queues then
      s.(workers := s.workers[w := Resting])
    else
      var data := Stamp(payload, r.origin);
      s.(queues := s.queues[r.connectId := s.queues[r.connectId] + [Frame(r.connectId, data)]],
         pushed := s.pushed[r.connectId := (if r.connectId in s.pushed then s.pushed[r.connectId] else []) + data],
         workers := s.workers[w := Notifying])
  }

  function Start(workers: nat): State {
    State(map[], map[], 0, Polling, [], seq(workers, _ => Resting), [], map[])
  }

  function Run(workers: nat, actions: seq<Action>): Option<State> {
    if actions == [] then Some(Start(workers))
    else
      match Run(workers, actions[..|actions| - 1])
      case None => None
      case Some(s) => Next(s, actions[|actions| - 1])
  }

  // ---------------------------------------------------------------- invariants

  predicate AllFrom(data: seq<Octet>, peer: nat) {
    forall k | 0 <= k < |data| :: data[k].origin == peer
  }

  /** The frames taken out of a connection's queue that its flush has still to write. */
  function InFlight(loop: Loop, fd: nat): seq<Octet> {
    if (loop.Popping? || loop.Writing?) && loop.fd == fd then DataOf(loop.frames) else []
  }

  /** Live connections have distinct ids below the counter. */
  ghost predicate IdsOk(s: State) {
    && (forall fd :: fd in s.connections ==>
          && s.connections[fd].id < |s.peers|
          && s.connections[fd].peer == s.peers[s.connections[fd].id])
    && (forall fd, fe :: fd in s.connections && fe in s.connections && s.connections[fd].id == s.connections[fe].id ==>
          fd == fe)
  }

  ghost predicate HasId(connections: map<nat, Connection>, id: nat) {
    exists fd :: fd in connections && connections[fd].id == id
  }

  /** There is a queue for exactly the ids of the live connections. */
  ghost predicate QueuesOk(s: State) {
    && (forall id :: id in s.queues <==> HasId(s.connections, id))
    && (forall id :: id in s.queues ==> id in s.pushed)
  }

  predicate RequestOk(r: Request, peers: seq<nat>) {
    r.connectId < |peers| && r.origin == peers[r.connectId]
  }

  /** Every request carries the id of the connection it came from. */
  predicate RequestsOk(s: State) {
    && (forall k | 0 <= k < |s.toServer| :: RequestOk(s.toServer[k], s.peers))
    && (forall k | 0 <= k < |s.workers| :: s.workers[k].Serving? ==> RequestOk(s.workers[k].request, s.peers))
  }

  /** Whatever has been pushed for a connection is sent, pending, in flight or queued, in that order,
      and all of it answers requests of the peer at that connection. */
  ghost predicate ConnectionOk(c: Connection, queue: seq<Frame>, pushed: seq<Octet>, inFlight: seq<Octet>) {
    && pushed == c.sent + c.writeBuffer + inFlight + DataOf(queue)
    && AllFrom(pushed, c.peer)
    && (c.wantsWrite <==> c.writeBuffer != [])
  }

  ghost predicate BytesOk(s: State)
    requires QueuesOk(s)
  {
    forall fd :: fd in s.connections ==>
      var id := s.connections[fd].id;
      assert HasId(s.connections, id);
      ConnectionOk(s.connections[fd], s.queues[id], s.pushed[id], InFlight(s.loop, fd))
  }

  ghost predicate LoopOk(s: State) {
    match s.loop
    case Polling => true
    case Draining => true
    case Sweeping(todo) => todo != {} && todo <= s.connections.Keys
    case Popping(fd, _, todo) => fd in s.connections && todo <= s.connections.Keys - {fd}
    case Writing(fd, _, todo) => fd in s.connections && todo <= s.connections.Keys - {fd}
  }

  /** The sweep will still empty the queue of this connection. */
  predicate WillBeSwept(s: State, fd: nat) {
    match s.loop
    case Polling => false
    case Draining => true
    case Sweeping(todo) => fd in todo
    case Popping(current, _, todo) => fd == current || fd in todo
    case Writing(_, _, todo) => fd in todo
  }

  predicate SomeoneNotifies(s: State) {
    exists w | 0 <= w < |s.workers| :: s.workers[w].Notifying?
  }

  /** A queued response is never left without anybody on the way to it. */
  ghost predicate WakeupOk(s: State) {
    forall fd :: fd in s.connections && s.connections[fd].id in s.queues && s.queues[s.connections[fd].id] != [] ==>
      s.events > 0 || SomeoneNotifies(s) || WillBeSwept(s, fd)
  }

  ghost predicate Inv(s: State) {
    IdsOk(s) && QueuesOk(s) && RequestsOk(s) && BytesOk(s) && LoopOk(s) && WakeupOk(s)
  }

  // ---------------------------------------------------------------- every step keeps them

  lemma {:induction false} DataAppend(frames: seq<Frame>, more: seq<Frame>)
    ensures DataOf(frames + more) == DataOf(frames) + DataOf(more)
  {
    if more == [] {
      assert frames + more == frames;
    } else {
      var n := |more| - 1;
      DataAppend(frames, more[..n]);
      assert (frames + more)[..|frames + more| - 1] == frames + more[..n];
    }
  }

  lemma DataOfOne(f: Frame)
    ensures DataOf([f]) == f.data
  {
    assert [f][..0] == [];
  }

  lemma StepKeepsIds(s: State, a: Action)
    requires IdsOk(s) && Next(s, a).Some?
    ensures IdsOk(Next(s, a).value)
  {
    hide Stamp, Requests, DataOf, After;
  }

  lemma StepKeepsRequests(s: State, a: Action)
    requires IdsOk(s) && RequestsOk(s) && Next(s, a).Some?
    ensures RequestsOk(Next(s, a).value)
  {
  }

  lemma StepKeepsLoop(s: State, a: Action)
    requires LoopOk(s) && Next(s, a).Some?
    ensures LoopOk(Next(s, a).value)
  {
  }

  lemma StepKeepsQueues(s: State, a: Action)
    requires IdsOk(s) && QueuesOk(s) && RequestsOk(s) && Next(s, a).Some?
    ensures QueuesOk(Next(s, a).value)
  {
    match a
    case Accept(fd, peer) => AcceptKeepsQueues(s, fd, peer);
    case Remove(fd) => RemoveKeepsQueues(s, fd);
    case WriteOut(accepted) => WriteKeepsQueues(s, accepted);
    case _ =>
  }

  lemma AcceptKeepsQueues(s: State, fd: nat, peer: nat)
    requires QueuesOk(s) && Next(s, Accept(fd, peer)).Some?
    ensures QueuesOk(Next(s, Accept(fd, peer)).value)
  {
    hide HasId;
    var s' := Next(s, Accept(fd, peer)).value;
    forall id ensures HasId(s'.connections, id) <==> HasId(s.connections, id) || id == |s.peers| {
      SameIds(s.connections, s'.connections, fd, id);
    }
  }

  lemma RemoveKeepsQueues(s: State, fd: nat)
    requires IdsOk(s) && QueuesOk(s) && Next(s, Remove(fd)).Some?
    ensures QueuesOk(Next(s, Remove(fd)).value)
  {
    var s' := Next(s, Remove(fd)).value;
    forall id ensures HasId(s'.connections, id) <==> HasId(s.connections, id) && id != s.connections[fd].id {
      SameIds(s.connections, s'.connections, fd, id);
    }
  }

  lemma WriteKeepsQueues(s: State, accepted: nat)
    requires QueuesOk(s) && Next(s, WriteOut(accepted)).Some?
    ensures QueuesOk(Next(s, WriteOut(accepted)).value)
  {
    hide HasId;
    var s' := Next(s, WriteOut(accepted)).value;
    forall id ensures HasId(s'.connections, id) <==> HasId(s.connections, id) {
      SameIds(s.connections, s'.connections, s.loop.fd, id);
    }
  }

  /** Connections that differ only at fd have the same ids, but for those at fd. */
  lemma SameIds(before: map<nat, Connection>, after: map<nat, Connection>, fd: nat, id: nat)
    requires forall fe :: fe != fd ==> (fe in before <==> fe in after)
    requires forall fe :: fe != fd && fe in before ==> before[fe] == after[fe]
    ensures HasId(after, id) ==> HasId(before, id) || (fd in after && after[fd].id == id)
    ensures HasId(before, id) ==> HasId(after, id) || (fd in before && before[fd].id == id)
    ensures fd in after && after[fd].id == id ==> HasId(after, id)
    ensures fd in before && before[fd].id == id ==> HasId(before, id)
  {
    if HasId(after, id) {
      var fe :| fe in after && after[fe].id == id;
      assert fe != fd ==> fe in before;
    }
    if HasId(before, id) {
      var fe :| fe in before && before[fe].id == id;
      assert fe != fd ==> fe in after;
    }
  }

  lemma IdsLive(s: State, fd: nat)
    requires QueuesOk(s) && fd in s.connections
    ensures s.connections[fd].id in s.queues && s.connections[fd].id in s.pushed
  {
    assert HasId(s.connections, s.connections[fd].id);
  }

  ghost predicate OkAt(s: State, fd: nat) {
    fd in s.connections ==>
      var c := s.connections[fd];
      c.id in s.queues && c.id in s.pushed && ConnectionOk(c, s.queues[c.id], s.pushed[c.id], InFlight(s.loop, fd))
  }

  lemma Regroup(sent: seq<Octet>, buffer: seq<Octet>, inFlight: seq<Octet>, first: seq<Octet>, rest: seq<Octet>)
    ensures sent + buffer + inFlight + (first + rest) == sent + buffer + (inFlight + first) + rest
  {
  }

  lemma PoppedIsOk(s: State)
    requires QueuesOk(s) && s.loop.Popping? && s.loop.fd in s.connections && OkAt(s, s.loop.fd)
    ensures OkAt(Popped(s), s.loop.fd)
  {
    hide DataOf, AllFrom, QueuesOk;
    var c := s.connections[s.loop.fd];
    if s.queues[c.id] != [] {
      var f, rest := s.queues[c.id][0], s.queues[c.id][1..];
      assert s.queues[c.id] == [f] + rest;
      DataAppend([f], rest);
      DataAppend(s.loop.frames, [f]);
      DataOfOne(f);
      Regroup(c.sent, c.writeBuffer, DataOf(s.loop.frames), f.data, DataOf(rest));
    }
  }

  lemma MovePrefix(sent: seq<Octet>, pending: seq<Octet>, accepted: nat, rest: seq<Octet>)
    requires accepted <= |pending|
    ensures sent + pending + rest == (sent + pending[..accepted]) + pending[accepted..] + [] + rest
  {
  }

  lemma {:induction false} FlushedIsOk(c: Connection, frames: seq<Frame>, accepted: nat, queue: seq<Frame>,
                                       pushed: seq<Octet>)
    requires ConnectionOk(c, queue, pushed, DataOf(frames)) && accepted <= |c.writeBuffer + DataOf(frames)|
    ensures ConnectionOk(Flushed(c, frames, accepted), queue, pushed, [])
  {
    hide DataOf, AllFrom;
    var pending := c.writeBuffer + DataOf(frames);
    assert c.sent + c.writeBuffer + DataOf(frames) == c.sent + pending;
    MovePrefix(c.sent, pending, accepted, DataOf(queue));
  }

  lemma RepliedIsOk(c: Connection, queue: seq<Frame>, pushed: seq<Octet>, inFlight: seq<Octet>, f: Frame)
    requires ConnectionOk(c, queue, pushed, inFlight) && AllFrom(f.data, c.peer)
    ensures ConnectionOk(c, queue + [f], pushed + f.data, inFlight)
  {
    DataAppend(queue, [f]);
    DataOfOne(f);
  }

  lemma StepKeepsBytes(s: State, a: Action)
    requires IdsOk(s) && QueuesOk(s) && RequestsOk(s) && LoopOk(s) && BytesOk(s) && Next(s, a).Some?
    ensures QueuesOk(Next(s, a).value) && BytesOk(Next(s, a).value)
  {
    hide ConnectionOk, DataOf;
    StepKeepsQueues(s, a);
    var s' := Next(s, a).value;
    forall fd | fd in s'.connections ensures OkAt(s', fd) {
      if fd in s.connections {
        IdsLive(s, fd);
        assert OkAt(s, fd);
      }
      StepKeepsBytesAt(s, a, fd);
    }
  }

  lemma StepKeepsBytesAt(s: State, a: Action, fd: nat)
    requires IdsOk(s) && QueuesOk(s) && RequestsOk(s) && LoopOk(s) && Next(s, a).Some?
    requires OkAt(s, fd)
    ensures OkAt(Next(s, a).value, fd)
  {
    hide ConnectionOk, DataOf, LoopOk, QueuesOk;
    if a.Accept? {
      AcceptedIsOk(s, a.fd, a.peer, fd);
    } else if a.PopFrame? {
      PoppedKeepsAt(s, fd);
    } else if a.WriteOut? {
      if fd == s.loop.fd && fd in s.connections {
        var c := s.connections[fd];
        FlushedIsOk(c, s.loop.frames, a.accepted, s.queues[c.id], s.pushed[c.id]);
      }
    } else if a.Reply? {
      RepliedKeepsAt(s, a.worker, a.payload, fd);
    } else if a.SocketWritable? || a.SweepTo? {
      NothingInFlight(a.fd);
    }
  }

  lemma NothingInFlight(fd: nat)
    ensures forall todo :: InFlight(Popping(fd, [], todo), fd) == []
  {
  }

  lemma AcceptedIsOk(s: State, newFd: nat, peer: nat, fd: nat)
    requires IdsOk(s) && Next(s, Accept(newFd, peer)).Some? && OkAt(s, fd)
    ensures OkAt(Next(s, Accept(newFd, peer)).value, fd)
  {
  }

  lemma PoppedKeepsAt(s: State, fd: nat)
    requires IdsOk(s) && QueuesOk(s) && s.loop.Popping? && s.loop.fd in s.connections && OkAt(s, fd)
    ensures OkAt(Popped(s), fd)
  {
    hide ConnectionOk, DataOf;
    if fd == s.loop.fd {
      PoppedIsOk(s);
    }
  }

  lemma RepliedKeepsAt(s: State, w: nat, payload: seq<Byte>, fd: nat)
    requires IdsOk(s) && RequestsOk(s) && w < |s.workers| && s.workers[w].Serving? && OkAt(s, fd)
    ensures OkAt(Replied(s, w, payload), fd)
  {
    hide ConnectionOk, DataOf;
    var r := s.workers[w].request;
    if fd in s.connections && s.connections[fd].id == r.connectId {
      var c := s.connections[fd];
      RepliedIsOk(c, s.queues[c.id], s.pushed[c.id], InFlight(s.loop, fd), Frame(c.id, Stamp(payload, r.origin)));
    }
  }

  lemma StepKeepsWakeup(s: State, a: Action)
    requires IdsOk(s) && QueuesOk(s) && LoopOk(s) && WakeupOk(s) && Next(s, a).Some?
    ensures WakeupOk(Next(s, a).value)
  {
    var s' := Next(s, a).value;
    forall fd | fd in s'.connections && s'.connections[fd].id in s'.queues && s'.queues[s'.connections[fd].id] != []
      ensures s'.events > 0 || SomeoneNotifies(s') || WillBeSwept(s', fd)
    {
      if fd in s.connections {
        IdsLive(s, fd);
      }
      StepKeepsWakeupAt(s, a, fd);
    }
  }

  lemma StepKeepsWakeupAt(s: State, a: Action, fd: nat)
    requires IdsOk(s) && LoopOk(s) && Next(s, a).Some?
    requires fd in s.connections ==> s.connections[fd].id in s.queues
    requires fd in s.connections && s.queues[s.connections[fd].id] != [] ==>
               s.events > 0 || SomeoneNotifies(s) || WillBeSwept(s, fd)
    ensures var s' := Next(s, a).value;
            fd in s'.connections && s'.connections[fd].id in s'.queues && s'.queues[s'.connections[fd].id] != [] ==>
              s'.events > 0 || SomeoneNotifies(s') || WillBeSwept(s', fd)
  {
    var s' := Next(s, a).value;
    if SomeoneNotifies(s) {
      var w :| 0 <= w < |s.workers| && s.workers[w].Notifying?;
      assert a.Notify? || s'.workers[w].Notifying?;
    }
    if a.Reply? && a.worker < |s.workers| {
      assert s.workers[a.worker].request.connectId in s.queues ==> s'.workers[a.worker].Notifying?;
    }
  }

  lemma EveryStepKeepsInv(s: State, a: Action)
    requires Inv(s) && Next(s, a).Some?
    ensures Inv(Next(s, a).value)
  {
    hide Next, IdsOk, QueuesOk, RequestsOk, LoopOk, WakeupOk, BytesOk;
    StepKeepsIds(s, a);
    StepKeepsQueues(s, a);
    StepKeepsRequests(s, a);
    StepKeepsLoop(s, a);
    StepKeepsBytes(s, a);
    StepKeepsWakeup(s, a);
  }

  /** In every run, at every point, all of this holds. */
  lemma {:induction false} EveryRunKeepsInv(workers: nat, actions: seq<Action>)
    requires Run(workers, actions).Some?
    ensures Inv(Run(workers, actions).value)
  {
    if actions != [] {
      hide Inv, Next;
      var n := |actions| - 1;
      EveryRunKeepsInv(workers, actions[..n]);
      EveryStepKeepsInv(Run(workers, actions[..n]).value, actions[n]);
    }
  }

  // ---------------------------------------------------------------- what follows for a whole run

  /** Routing: live connections have distinct ids, the queues are exactly theirs, and every byte a
      socket has accepted answers a request of the peer at that very connection, however often its
      descriptor number has been reused. */
  lemma {:induction false} RoutingIsSafe(workers: nat, actions: seq<Action>, fd: nat)
    requires Run(workers, actions).Some? && fd in Run(workers, actions).value.connections
    ensures var s := Run(workers, actions).value;
            var c := s.connections[fd];
            && (forall fe :: fe in s.connections && fe != fd ==> s.connections[fe].id != c.id)
            && (forall id :: id in s.queues <==> HasId(s.connections, id))
            && AllFrom(c.sent, c.peer) && AllFrom(c.writeBuffer, c.peer)
  {
    EveryRunKeepsInv(workers, actions);
    var s := Run(workers, actions).value;
    IdsLive(s, fd);
    SentIsFromPeer(s.connections[fd], s.queues[s.connections[fd].id], s.pushed[s.connections[fd].id],
                   InFlight(s.loop, fd));
  }

  lemma SentIsFromPeer(c: Connection, queue: seq<Frame>, pushed: seq<Octet>, inFlight: seq<Octet>)
    requires ConnectionOk(c, queue, pushed, inFlight)
    ensures AllFrom(c.sent, c.peer) && AllFrom(c.writeBuffer, c.peer)
  {
    forall k | 0 <= k < |c.sent| ensures c.sent[k].origin == c.peer {
      assert pushed[k] == c.sent[k];
    }
    forall k | 0 <= k < |c.writeBuffer| ensures c.writeBuffer[k].origin == c.peer {
      assert pushed[|c.sent| + k] == c.writeBuffer[k];
    }
  }

  /** No stranded response, and no byte lost, repeated or reordered on the way out. */
  lemma {:induction false} NoStrandedResponse(workers: nat, actions: seq<Action>, fd: nat)
    requires Run(workers, actions).Some? && fd in Run(workers, actions).value.connections
    ensures var s := Run(workers, actions).value;
            var c := s.connections[fd];
            && c.id in s.queues && c.id in s.pushed
            && s.pushed[c.id] == c.sent + c.writeBuffer + InFlight(s.loop, fd) + DataOf(s.queues[c.id])
            && (s.queues[c.id] != [] ==> s.events > 0 || SomeoneNotifies(s) || WillBeSwept(s, fd))
            && (c.wantsWrite <==> c.writeBuffer != [])
  {
    EveryRunKeepsInv(workers, actions);
    IdsLive(Run(workers, actions).value, fd);
  }

  /** When the loop has gone back to polling, the eventfd is clear and nobody is about to notify, every
      response has left its queue, and what the socket has not taken is waited for with EPOLLOUT. */
  lemma {:induction false} RestHasNoStrandedResponse(workers: nat, actions: seq<Action>, fd: nat)
    requires Run(workers, actions).Some? && fd in Run(workers, actions).value.connections
    requires var s := Run(workers, actions).value; s.loop.Polling? && s.events == 0 && !SomeoneNotifies(s)
    ensures var s := Run(workers, actions).value;
            var c := s.connections[fd];
            && c.id in s.pushed && s.pushed[c.id] == c.sent + c.writeBuffer
            && (c.wantsWrite <==> c.sent != s.pushed[c.id])
  {
    NoStrandedResponse(workers, actions, fd);
    var s := Run(workers, actions).value;
    var c := s.connections[fd];
    assert s.queues[c.id] == [];
    assert |s.pushed[c.id]| == |c.sent| + |c.writeBuffer|;
  }
}
