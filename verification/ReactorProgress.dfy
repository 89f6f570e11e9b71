/** From every reachable state the event loop can send what is queued: it takes some notifications of
    workers, and steps of its own with sockets that accept what they are offered. */
module ReactorProgress {
  import opened Options
  import opened Reactor

  function Follow(s: State, actions: seq<Action>): Option<State>
    decreases |actions|
  {
    if actions == [] then Some(s)
    else
      match Next(s, actions[0])
      case None => None
      case Some(t) => Follow(t, actions[1..])
  }

  /** A step of the event loop on its own, or the notification of a worker that has replied. */
  predicate IsDelivery(a: Action) {
    a.EventReadable? || a.ReadEvent? || a.SocketWritable? || a.SweepTo? || a.PopFrame? || a.WriteOut? || a.Notify?
  }

  predicate OnlyDeliveries(actions: seq<Action>) {
    forall k | 0 <= k < |actions| :: IsDelivery(actions[k])
  }

  /** The same connections, with the same responses pushed for them. */
  ghost predicate SameDuties(s: State, t: State) {
    && t.connections.Keys == s.connections.Keys
    && (forall fd | fd in s.connections :: t.connections[fd].id == s.connections[fd].id)
    && t.pushed == s.pushed
  }

  /** The loop is polling with nothing to be told and nothing to be written. */
  ghost predicate IsSettled(s: State) {
    && s.loop.Polling? && s.events == 0 && !SomeoneNotifies(s)
    && forall fd | fd in s.connections :: !s.connections[fd].wantsWrite
  }

  ghost predicate CanSettle(s: State) {
    exists actions ::
      && OnlyDeliveries(actions) && Follow(s, actions).Some?
      && SameDuties(s, Follow(s, actions).value) && Inv(Follow(s, actions).value) && IsSettled(Follow(s, actions).value)
  }

  lemma DeliveryKeepsDuties(s: State, a: Action)
    requires Next(s, a).Some? && IsDelivery(a)
    ensures SameDuties(s, Next(s, a).value)
  {
    hide DataOf;
  }

  lemma {:induction false} StepTowardsSettled(s: State, a: Action)
    requires Next(s, a).Some? && IsDelivery(a) && CanSettle(Next(s, a).value)
    ensures CanSettle(s)
  {
    hide Inv, IsSettled, Next;
    DeliveryKeepsDuties(s, a);
    var t := Next(s, a).value;
    var actions :|
      && OnlyDeliveries(actions) && Follow(t, actions).Some?
      && SameDuties(t, Follow(t, actions).value)
      && Inv(Follow(t, actions).value) && IsSettled(Follow(t, actions).value);
    var all := [a] + actions;
    assert all[1..] == actions;
    assert Follow(s, all) == Follow(t, actions);
    assert OnlyDeliveries(all);
  }

  // ---------------------------------------------------------------- how far it is

  function Notifiers(s: State): set<nat> {
    set w: nat | w < |s.workers| && s.workers[w].Notifying?
  }

  predicate IsInHand(loop: Loop, fd: nat) {
    (loop.Popping? || loop.Writing?) && loop.fd == fd
  }

  /** The connections that wait for EPOLLOUT and that nobody is writing to. */
  function Waiting(s: State): set<nat> {
    set fd | fd in s.connections && s.connections[fd].wantsWrite && !IsInHand(s.loop, fd)
  }

  /** The stage of the loop. A counter that was raised during a sweep starts another one after it. */
  function Stage(s: State): nat {
    match s.loop
    case Polling => if s.events > 0 then 4 else 0
    case Draining => if s.events > 0 then 3 else 2
    case _ => if s.events > 0 then 5 else 1
  }

  function Todo(s: State): set<nat> {
    match s.loop
    case Polling => {}
    case Draining => {}
    case Sweeping(todo) => todo
    case Popping(_, _, todo) => todo
    case Writing(_, _, todo) => todo
  }

  function Part(s: State): nat {
    if s.loop.Popping? then 2 else if s.loop.Writing? then 1 else 0
  }

  /** The frames that the flush in hand has still to take. */
  function FramesLeft(s: State): nat {
    if s.loop.Popping? && s.loop.fd in s.connections && s.connections[s.loop.fd].id in s.queues then
      |s.queues[s.connections[s.loop.fd].id]|
    else 0
  }

  ghost predicate IsCloser(t: State, s: State) {
    || Notifiers(t) < Notifiers(s)
    || (Notifiers(t) == Notifiers(s)
        && (|| (t.events == 0 && s.events > 0)
            || ((t.events > 0 <==> s.events > 0)
                && (|| Waiting(t) < Waiting(s)
                    || (Waiting(t) == Waiting(s) && IsCloserInSweep(t, s))))))
  }

  ghost predicate IsCloserInSweep(t: State, s: State) {
    || Stage(t) < Stage(s)
    || (Stage(t) == Stage(s)
        && (|| Todo(t) < Todo(s)
            || (Todo(t) == Todo(s)
                && (|| Part(t) < Part(s)
                    || (Part(t) == Part(s) && FramesLeft(t) < FramesLeft(s))))))
  }

  // ---------------------------------------------------------------- the step to take

  lemma NotifyIsCloser(s: State, w: nat)
    requires w < |s.workers| && s.workers[w].Notifying?
    ensures IsCloser(Next(s, Notify(w)).value, s)
  {
    var t := Next(s, Notify(w)).value;
    assert w in Notifiers(s) && w !in Notifiers(t);
    assert forall v: nat :: v in Notifiers(t) ==> v in Notifiers(s);
  }

  lemma SameNotifiers(s: State, a: Action)
    requires Next(s, a).Some? && IsDelivery(a) && !a.Notify?
    ensures Notifiers(Next(s, a).value) == Notifiers(s)
  {
  }

  lemma PollIsCloser(s: State) returns (a: Action)
    requires s.loop.Polling? && !IsSettled(s) && !SomeoneNotifies(s)
    ensures IsDelivery(a) && Next(s, a).Some? && IsCloser(Next(s, a).value, s)
  {
    if s.events > 0 {
      a := EventReadable;
      SameNotifiers(s, a);
      assert Waiting(Next(s, a).value) == Waiting(s);
    } else {
      var fd :| fd in s.connections && s.connections[fd].wantsWrite;
      a := SocketWritable(fd);
      SameNotifiers(s, a);
      var t := Next(s, a).value;
      assert fd in Waiting(s) && fd !in Waiting(t);
      assert forall fe :: fe in Waiting(t) ==> fe in Waiting(s);
    }
  }

  lemma DrainIsCloser(s: State)
    requires s.loop.Draining?
    ensures IsCloser(Next(s, ReadEvent).value, s)
  {
    var t := Next(s, ReadEvent).value;
    SameNotifiers(s, ReadEvent);
    assert Waiting(t) == Waiting(s);
  }

  lemma SweepIsCloser(s: State, fd: nat)
    requires s.loop.Sweeping? && fd in s.loop.todo
    ensures IsCloser(Next(s, SweepTo(fd)).value, s)
  {
    var t := Next(s, SweepTo(fd)).value;
    SameNotifiers(s, SweepTo(fd));
    assert Waiting(t) <= Waiting(s);
    assert fd in Todo(s) && fd !in Todo(t) && Todo(t) <= Todo(s);
  }

  lemma PopIsCloser(s: State)
    requires s.loop.Popping? && s.loop.fd in s.connections
    ensures IsCloser(Next(s, PopFrame).value, s)
  {
    SameNotifiers(s, PopFrame);
    assert Waiting(Next(s, PopFrame).value) == Waiting(s);
  }

  lemma WriteIsCloser(s: State, accepted: nat)
    requires s.loop.Writing? && s.loop.fd in s.connections
    requires accepted == |s.connections[s.loop.fd].writeBuffer + DataOf(s.loop.frames)|
    ensures Next(s, WriteOut(accepted)).Some? && IsCloser(Next(s, WriteOut(accepted)).value, s)
  {
    hide DataOf;
    var t := Next(s, WriteOut(accepted)).value;
    SameNotifiers(s, WriteOut(accepted));
    assert !t.connections[s.loop.fd].wantsWrite;
    assert Waiting(t) == Waiting(s);
  }

  lemma SomeStepIsCloser(s: State) returns (a: Action)
    requires LoopOk(s) && !IsSettled(s)
    ensures IsDelivery(a) && Next(s, a).Some? && IsCloser(Next(s, a).value, s)
  {
    hide IsCloser;
    if w :| 0 <= w < |s.workers| && s.workers[w].Notifying? {
      a := Notify(w);
      NotifyIsCloser(s, w);
    } else {
      match s.loop
      case Polling => a := PollIsCloser(s);
      case Draining =>
        a := ReadEvent;
        DrainIsCloser(s);
      case Sweeping(todo) =>
        var fd :| fd in todo;
        a := SweepTo(fd);
        SweepIsCloser(s, fd);
      case Popping(_, _, _) =>
        a := PopFrame;
        PopIsCloser(s);
      case Writing(fd, frames, _) =>
        a := WriteOut(|s.connections[fd].writeBuffer + DataOf(frames)|);
        WriteIsCloser(s, |s.connections[fd].writeBuffer + DataOf(frames)|);
    }
  }

  lemma {:induction false} EveryStateCanSettle(s: State)
    requires Inv(s)
    ensures CanSettle(s)
    decreases Notifiers(s), s.events > 0, Waiting(s), Stage(s), Todo(s), Part(s), FramesLeft(s)
  {
    if IsSettled(s) {
      assert Follow(s, []) == Some(s);
    } else {
      var a := SomeStepIsCloser(s);
      hide Inv, CanSettle, Next, Notifiers, Waiting, Stage, Todo, Part, FramesLeft;
      EveryStepKeepsInv(s, a);
      EveryStateCanSettle(Next(s, a).value);
      StepTowardsSettled(s, a);
    }
  }

  /** From every reachable state some deliveries bring every live connection to the point where all that was
      pushed for it has been sent, and nothing is queued or pending. */
  lemma {:induction false} EveryResponseCanBeSent(workers: nat, actions: seq<Action>)
    requires Run(workers, actions).Some?
    ensures var s := Run(workers, actions).value;
            exists more ::
              && OnlyDeliveries(more) && Follow(s, more).Some?
              && var t := Follow(s, more).value;
                 SameDuties(s, t) && forall fd | fd in s.connections :: IsServed(t, fd)
  {
    EveryRunKeepsInv(workers, actions);
    var s := Run(workers, actions).value;
    hide Run, Inv;
    EveryStateCanSettle(s);
    var more :|
      && OnlyDeliveries(more) && Follow(s, more).Some?
      && SameDuties(s, Follow(s, more).value) && Inv(Follow(s, more).value) && IsSettled(Follow(s, more).value);
    var t := Follow(s, more).value;
    forall fd | fd in s.connections ensures IsServed(t, fd) {
      SettledIsServed(t, fd);
    }
  }

  /** Everything that was ever pushed for the connection has been sent to its peer. */
  ghost predicate IsServed(s: State, fd: nat) {
    && fd in s.connections
    && var c := s.connections[fd];
       && c.id in s.pushed && c.sent == s.pushed[c.id] && c.writeBuffer == []
       && c.id in s.queues && s.queues[c.id] == []
  }

  lemma SettledIsServed(s: State, fd: nat)
    requires Inv(s) && IsSettled(s) && fd in s.connections
    ensures IsServed(s, fd)
  {
    hide DataOf;
    IdsLive(s, fd);
    var c := s.connections[fd];
    assert s.queues[c.id] == [];
    assert DataOf(s.queues[c.id]) == [] && InFlight(s.loop, fd) == [] by {
      NothingQueued();
    }
  }

  lemma NothingQueued()
    ensures DataOf([]) == []
  {
  }
}
