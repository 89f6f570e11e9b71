/** What goes through the reactor, told by the actions: every payload received becomes a request, in order,
    and what is pushed for a connection are the payloads of the replies to its requests, in order. */
module ReactorContents {
  import opened Options
  import opened Bytes
  import opened Reactor

  // ---------------------------------------------------------------- connections

  function Accepts(actions: seq<Action>): nat {
    if actions == [] then 0
    else Accepts(actions[..|actions| - 1]) + (if actions[|actions| - 1].Accept? then 1 else 0)
  }

  /** Who holds a descriptor: the id and the peer of the last connection accepted on it, unless that was removed. */
  function Holder(actions: seq<Action>, fd: nat): Option<(nat, nat)> {
    if actions == [] then None
    else
      var init, last := actions[..|actions| - 1], actions[|actions| - 1];
      if last.Accept? && last.fd == fd then Some((Accepts(init), last.peer))
      else if last.Remove? && last.fd == fd then None
      else Holder(init, fd)
  }

  /** Who is at a descriptor, with the id of the connection. */
  function At(s: State, fd: nat): Option<(nat, nat)> {
    if fd in s.connections then Some((s.connections[fd].id, s.connections[fd].peer)) else None
  }

  lemma StepConnects(s: State, a: Action, fd: nat)
    requires Next(s, a).Some?
    ensures var t := Next(s, a).value;
            && |t.peers| == |s.peers| + (if a.Accept? then 1 else 0)
            && At(t, fd)
               == if a.Accept? && a.fd == fd then Some((|s.peers|, a.peer))
                  else if a.Remove? && a.fd == fd then None
                  else At(s, fd)
  {
    hide DataOf, Requests, Stamp;
  }

  /** The connections are those that were accepted and not removed, with the id and the peer that each was given. */
  lemma {:induction false} ConnectionsAreThoseAccepted(workers: nat, actions: seq<Action>, fd: nat)
    requires Run(workers, actions).Some?
    ensures var s := Run(workers, actions).value;
            |s.peers| == Accepts(actions) && At(s, fd) == Holder(actions, fd)
  {
    if actions != [] {
      hide Next, At;
      var n := |actions| - 1;
      ConnectionsAreThoseAccepted(workers, actions[..n], fd);
      StepConnects(Run(workers, actions[..n]).value, actions[n], fd);
    } else {
      assert At(Start(workers), fd) == None;
    }
  }

  /** A new connection starts with nothing queued, buffered or sent, and disturbs no other. */
  lemma AcceptStartsEmpty(s: State, fd: nat, peer: nat)
    requires Next(s, Accept(fd, peer)).Some?
    ensures var t := Next(s, Accept(fd, peer)).value;
            var c := t.connections[fd];
            && c.writeBuffer == [] && c.sent == [] && !c.wantsWrite && t.queues[c.id] == []
            && (forall other | other != fd ::
                  (other in t.connections <==> other in s.connections)
                  && (other in s.connections ==> t.connections[other] == s.connections[other]))
  {
  }

  // ---------------------------------------------------------------- requests

  /** The requests that a peer's payloads are. */
  function AsRequests(payloads: seq<seq<Byte>>, id: nat, peer: nat): seq<Request> {
    if payloads == [] then [] else [Request(id, payloads[0], peer)] + AsRequests(payloads[1..], id, peer)
  }

  /** All requests that have come in. */
  function Arrived(workers: nat, actions: seq<Action>): seq<Request>
    requires Run(workers, actions).Some?
  {
    if actions == [] then []
    else
      var init, last := actions[..|actions| - 1], actions[|actions| - 1];
      var s := Run(workers, init).value;
      Arrived(workers, init)
      + if last.Receive? && last.fd in s.connections then
          AsRequests(last.payloads, s.connections[last.fd].id, s.connections[last.fd].peer)
        else []
  }

  /** The requests that workers have begun to serve. */
  function Begun(workers: nat, actions: seq<Action>): seq<Request>
    requires Run(workers, actions).Some?
  {
    if actions == [] then []
    else
      var init, last := actions[..|actions| - 1], actions[|actions| - 1];
      var s := Run(workers, actions).value;
      Begun(workers, init)
      + if last.TakeRequest? && last.worker < |s.workers| && s.workers[last.worker].Serving? then
          [s.workers[last.worker].request]
        else []
  }

  lemma {:induction false} RequestsAre(c: Connection, payloads: seq<seq<Byte>>)
    ensures Requests(c, payloads) == AsRequests(payloads, c.id, c.peer)
  {
    if payloads != [] {
      RequestsAre(c, payloads[1..]);
      assert Requests(c, payloads)[1..] == Requests(c, payloads[1..]);
    }
  }

  lemma StepKeepsRequestOrder(s: State, a: Action)
    requires Next(s, a).Some?
    ensures var t := Next(s, a).value;
            t.toServer
            == if a.Receive? then
                 s.toServer + AsRequests(a.payloads, s.connections[a.fd].id, s.connections[a.fd].peer)
               else if a.TakeRequest? then s.toServer[1..]
               else s.toServer
    ensures a.Receive? ==> a.fd in s.connections
    ensures var t := Next(s, a).value;
            a.TakeRequest? ==>
              && s.toServer != [] && a.worker < |t.workers|
              && t.workers[a.worker].Serving? && t.workers[a.worker].request == s.toServer[0]
  {
    if a.Receive? {
      RequestsAre(s.connections[a.fd], a.payloads);
    }
  }

  /** Every payload received is a request of its connection and peer; requests are begun in the order in which
      they came in, each once, and the others wait in that order. */
  lemma {:induction false} EveryRequestIsServedInOrder(workers: nat, actions: seq<Action>)
    requires Run(workers, actions).Some?
    ensures Arrived(workers, actions) == Begun(workers, actions) + Run(workers, actions).value.toServer
  {
    if actions != [] {
      var n := |actions| - 1;
      EveryRequestIsServedInOrder(workers, actions[..n]);
      var s := Run(workers, actions[..n]).value;
      StepKeepsRequestOrder(s, actions[n]);
      hide Next, AsRequests;
      var arrived, begun := Arrived(workers, actions[..n]), Begun(workers, actions[..n]);
      if actions[n].TakeRequest? {
        TakenFromQueue(begun, s.toServer);
      } else if actions[n].Receive? {
        var c := s.connections[actions[n].fd];
        AddedToQueue(begun, s.toServer, AsRequests(actions[n].payloads, c.id, c.peer));
      }
    }
  }

  lemma TakenFromQueue<T>(begun: seq<T>, queue: seq<T>)
    requires queue != []
    ensures (begun + [queue[0]]) + queue[1..] == begun + queue
  {
  }

  lemma AddedToQueue<T>(begun: seq<T>, queue: seq<T>, more: seq<T>)
    ensures begun + (queue + more) == (begun + queue) + more
  {
  }

  // ---------------------------------------------------------------- responses

  function Values(octets: seq<Octet>): seq<Byte> {
    seq(|octets|, k requires 0 <= k < |octets| => octets[k].value)
  }

  /** The worker serves a request of the connection, which is still there. */
  predicate Answers(s: State, w: nat, id: nat) {
    && w < |s.workers| && s.workers[w].Serving? && s.workers[w].request.connectId == id
    && exists fd | fd in s.connections :: s.connections[fd].id == id
  }

  /** The payloads of the replies to requests of a connection that was still there, one after the other. */
  function RepliedTo(workers: nat, actions: seq<Action>, id: nat): seq<Byte>
    requires Run(workers, actions).Some?
  {
    if actions == [] then []
    else
      var init, last := actions[..|actions| - 1], actions[|actions| - 1];
      RepliedTo(workers, init, id)
      + if last.Reply? && Answers(Run(workers, init).value, last.worker, id) then last.payload else []
  }

  /** What has been pushed for an id. */
  function PushedFor(s: State, id: nat): seq<Octet> {
    if id in s.pushed then s.pushed[id] else []
  }

  lemma ValuesAppend(a: seq<Octet>, b: seq<Octet>)
    ensures Values(a + b) == Values(a) + Values(b)
  {
  }

  lemma ValuesOfStamp(payload: seq<Byte>, origin: nat)
    ensures Values(Stamp(payload, origin)) == payload
  {
  }

  /** Nothing is known of an id that has not been given out yet. */
  ghost predicate NoneBeyond(s: State) {
    forall id | id in s.pushed :: id < |s.peers|
  }

  lemma StepPushes(s: State, a: Action, id: nat)
    requires Inv(s) && NoneBeyond(s) && Next(s, a).Some?
    ensures NoneBeyond(Next(s, a).value)
    ensures Values(PushedFor(Next(s, a).value, id))
            == Values(PushedFor(s, id)) + if a.Reply? && Answers(s, a.worker, id) then a.payload else []
  {
    hide BytesOk, LoopOk, WakeupOk, DataOf;
    if a.Reply? {
      ReplyPushes(s, a.worker, a.payload, id);
    }
  }

  lemma ReplyPushes(s: State, w: nat, payload: seq<Byte>, id: nat)
    requires IdsOk(s) && QueuesOk(s) && RequestsOk(s) && NoneBeyond(s) && Next(s, Reply(w, payload)).Some?
    ensures NoneBeyond(Next(s, Reply(w, payload)).value)
    ensures Values(PushedFor(Next(s, Reply(w, payload)).value, id))
            == Values(PushedFor(s, id)) + if Answers(s, w, id) then payload else []
  {
    hide DataOf;
    var r := s.workers[w].request;
    assert r.connectId in s.queues <==> HasId(s.connections, r.connectId);
    ValuesOfStamp(payload, r.origin);
    ValuesAppend(PushedFor(s, id), Stamp(payload, r.origin));
  }

  /** In every run the bytes pushed for a connection are the payloads of the replies to its requests, whole, in
      order, and once each. */
  lemma {:induction false} PushedIsReplied(workers: nat, actions: seq<Action>, id: nat)
    requires Run(workers, actions).Some?
    ensures Values(PushedFor(Run(workers, actions).value, id)) == RepliedTo(workers, actions, id)
    ensures NoneBeyond(Run(workers, actions).value)
  {
    if actions != [] {
      hide Next, Inv, NoneBeyond, Answers, Values;
      var n := |actions| - 1;
      PushedIsReplied(workers, actions[..n], id);
      EveryRunKeepsInv(workers, actions[..n]);
      StepPushes(Run(workers, actions[..n]).value, actions[n], id);
    }
  }

  /** What the peer of a live connection has got and what is on the way to it are together the payloads of the
      replies to its requests, in order. */
  lemma {:induction false} SentIsReplied(workers: nat, actions: seq<Action>, fd: nat)
    requires Run(workers, actions).Some? && fd in Run(workers, actions).value.connections
    ensures var s := Run(workers, actions).value;
            var c := s.connections[fd];
            && c.id in s.queues
            && Values(c.sent + c.writeBuffer + InFlight(s.loop, fd) + DataOf(s.queues[c.id]))
               == RepliedTo(workers, actions, c.id)
  {
    hide Run, Values, RepliedTo, DataOf;
    NoStrandedResponse(workers, actions, fd);
    PushedIsReplied(workers, actions, Run(workers, actions).value.connections[fd].id);
  }

  /** A write hands exactly the accepted bytes to the socket; the rest stays buffered, and EPOLLOUT is asked for
      exactly while there is a rest. */
  lemma WriteOutSends(s: State, accepted: nat)
    requires Next(s, WriteOut(accepted)).Some?
    ensures s.loop.Writing? && s.loop.fd in s.connections
    ensures var c, d := s.connections[s.loop.fd], Next(s, WriteOut(accepted)).value.connections[s.loop.fd];
            && |d.sent| == |c.sent| + accepted
            && d.sent + d.writeBuffer == c.sent + (c.writeBuffer + DataOf(s.loop.frames))
            && (d.wantsWrite <==> d.writeBuffer != [])
  {
    hide DataOf;
    var c := s.connections[s.loop.fd];
    var pending := c.writeBuffer + DataOf(s.loop.frames);
    assert pending == pending[..accepted] + pending[accepted..];
  }

  // ---------------------------------------------------------------- the event counter

  /** The notifications since the counter was last read. */
  function Notified(actions: seq<Action>): nat {
    if actions == [] then 0
    else
      var before, last := Notified(actions[..|actions| - 1]), actions[|actions| - 1];
      if last.Notify? then before + 1 else if last.ReadEvent? then 0 else before
  }

  lemma StepCounts(s: State, a: Action)
    requires Next(s, a).Some?
    ensures Next(s, a).value.events
            == if a.Notify? && s.events < 18446744073709551614 then s.events + 1
               else if a.ReadEvent? then 0
               else s.events
  {
    hide DataOf, Requests, Stamp;
  }

  /** The counter holds the notifications since it was last read, up to the 2^64 - 2 that an eventfd can hold. */
  lemma {:induction false} EventsAreCounted(workers: nat, actions: seq<Action>)
    requires Run(workers, actions).Some?
    ensures Run(workers, actions).value.events
            == if Notified(actions) <= 18446744073709551614 then Notified(actions) else 18446744073709551614
  {
    if actions != [] {
      hide Next;
      var n := |actions| - 1;
      EventsAreCounted(workers, actions[..n]);
      StepCounts(Run(workers, actions[..n]).value, actions[n]);
    }
  }

  // ---------------------------------------------------------------- what can happen

  /** When the loop and the workers can act: while it polls, the loop can accept on any free descriptor, remove or
      read any connection, and turn to a positive counter or to a connection that waits to write; a resting worker
      can take a waiting request, a serving one can answer or drop it, a notifying one can notify. */
  lemma PossibleIff(s: State, fd: nat, peer: nat, payloads: seq<seq<Byte>>, w: nat, payload: seq<Byte>)
    ensures Next(s, Accept(fd, peer)).Some? <==> s.loop.Polling? && fd !in s.connections
    ensures Next(s, Remove(fd)).Some? <==> s.loop.Polling? && fd in s.connections
    ensures Next(s, Receive(fd, payloads)).Some? <==> s.loop.Polling? && fd in s.connections
    ensures Next(s, EventReadable).Some? <==> s.loop.Polling? && s.events > 0
    ensures Next(s, SocketWritable(fd)).Some?
            <==> s.loop.Polling? && fd in s.connections && s.connections[fd].wantsWrite
    ensures Next(s, TakeRequest(w)).Some? <==> w < |s.workers| && s.workers[w].Resting? && s.toServer != []
    ensures Next(s, DropRequest(w)).Some? <==> w < |s.workers| && s.workers[w].Serving?
    ensures Next(s, Reply(w, payload)).Some? <==> w < |s.workers| && s.workers[w].Serving?
    ensures Next(s, Notify(w)).Some? <==> w < |s.workers| && s.workers[w].Notifying?
  {
    hide DataOf, Requests, Stamp;
  }
}
