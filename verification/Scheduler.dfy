/** The rotating queue of block requests (block_schedule_controller.cpp). */
module Scheduling {
  import opened Messages
  import opened Options
  import opened Sequences

  /** What is kept of a task while its blocks are requested. */
  datatype Task = Task(isPaused: bool, savedPath: string, isOpen: bool)

  /** The queue and the pending tasks, with a log of what became of the requests that left the queue. */
  datatype Schedule = Schedule(
    queue: seq<BlockInfo>,
    pending: map<Int64, Task>,
    published: seq<BlockInfo>,
    dropped: seq<BlockInfo>)

  datatype Event =
    | Enqueue(taskId: Int64, savedPath: string, rows: seq<BlockInfo>)
    | Cancel(taskId: Int64)
    | Pause(taskId: Int64, isPaused: bool)
    | Tick

  predicate IsActive(s: Schedule, taskId: Int64) {
    taskId in s.pending && !s.pending[taskId].isPaused
  }

  function TickStep(s: Schedule): Schedule {
    if s.queue == [] then s
    else
      var request, rest := s.queue[0], s.queue[1..];
      if request.taskId !in s.pending then s.(queue := rest, dropped := s.dropped + [request])
      else if s.pending[request.taskId].isPaused then s.(queue := rest + [request])
      else s.(queue := rest, published := s.published + [request])
  }

  function Step(s: Schedule, e: Event): Schedule {
    match e
    case Enqueue(taskId, savedPath, rows) =>
      s.(pending := s.pending[taskId := Task(false, savedPath, false)], queue := s.queue + rows)
    case Cancel(taskId) =>
      s.(pending := s.pending - {taskId})
    case Pause(taskId, isPaused) =>
      if taskId in s.pending then s.(pending := s.pending[taskId := s.pending[taskId].(isPaused := isPaused)]) else s
    case Tick => TickStep(s)
  }

  function Run(s: Schedule, events: seq<Event>): Schedule
    decreases |events|
  {
    if events == [] then s else Step(Run(s, events[..|events| - 1]), events[|events| - 1])
  }

  function Ticks(events: seq<Event>): nat
    decreases |events|
  {
    if events == [] then 0
    else Ticks(events[..|events| - 1]) + (if events[|events| - 1].Tick? then 1 else 0)
  }

  function Requested(events: seq<Event>): seq<BlockInfo>
    decreases |events|
  {
    if events == [] then []
    else
      var last := events[|events| - 1];
      Requested(events[..|events| - 1]) + (if last.Enqueue? then last.rows else [])
  }

  /** The requests of one task, in order. */
  function Of(taskId: Int64, requests: seq<BlockInfo>): seq<BlockInfo>
    decreases |requests|
  {
    if requests == [] then []
    else
      var n := |requests| - 1;
      Of(taskId, requests[..n]) + (if requests[n].taskId == taskId then [requests[n]] else [])
  }

  // ---------------------------------------------------------------- conservation

  function AllRequests(s: Schedule): multiset<BlockInfo> {
    multiset(s.queue) + multiset(s.published) + multiset(s.dropped)
  }

  lemma StepConserves(s: Schedule, e: Event)
    ensures AllRequests(Step(s, e)) == AllRequests(s) + multiset(if e.Enqueue? then e.rows else [])
  {
    if e.Tick? && s.queue != [] {
      assert s.queue == [s.queue[0]] + s.queue[1..];
    }
  }

  /** Whatever happens, every request that was ever queued has been published, has been dropped, or
      is still in the queue, and is counted once. */
  lemma {:induction false} RequestsAreConserved(s: Schedule, events: seq<Event>)
    ensures AllRequests(Run(s, events)) == AllRequests(s) + multiset(Requested(events))
    decreases |events|
  {
    if events != [] {
      hide AllRequests;
      var init, last := events[..|events| - 1], events[|events| - 1];
      RequestsAreConserved(s, init);
      StepConserves(Run(s, init), last);
    }
  }

  // ---------------------------------------------------------------- turns

  lemma {:induction false} QueueMovesUp(s: Schedule, events: seq<Event>)
    requires Ticks(events) <= |s.queue|
    ensures var t := Ticks(events);
            s.queue[t..] <= Run(s, events).queue
    decreases |events|
  {
    if events == [] {
      assert s.queue[0..] == s.queue;
    } else {
      QueueMovesUp(s, events[..|events| - 1]);
    }
  }

  /** A request at position k is decided by exactly the (k+1)-th tick, whatever happens in between:
      it is published if its task is then pending and runs, goes to the back of the queue if the task
      is paused, and is dropped if the task is gone. */
  lemma {:induction false} DecidedAtItsTick(s: Schedule, k: nat, events: seq<Event>)
    requires k < |s.queue| && Ticks(events) == k
    ensures var before := Run(s, events);
            var after := Run(s, events + [Tick]);
            && before.queue != [] && before.queue[0] == s.queue[k]
            && |after.queue|
               == |before.queue|
                  - (if s.queue[k].taskId in before.pending && !IsActive(before, s.queue[k].taskId) then 0 else 1)
            && after.published == before.published + (if IsActive(before, s.queue[k].taskId) then [s.queue[k]] else [])
            && after.dropped == before.dropped + (if s.queue[k].taskId in before.pending then [] else [s.queue[k]])
            && (s.queue[k].taskId in before.pending && !IsActive(before, s.queue[k].taskId) ==>
                  after.queue[|after.queue| - 1] == s.queue[k])
  {
    QueueMovesUp(s, events);
    assert s.queue[k..][0] == s.queue[k];
    assert (events + [Tick])[..|events|] == events;
  }

  /** Publication happens only on a tick, and only for the request at the head, of a running task. */
  lemma PublishedOnlyWhileActive(s: Schedule, e: Event)
    ensures Step(s, e).published == s.published
            || (e.Tick? && s.queue != [] && IsActive(s, s.queue[0].taskId)
                && Step(s, e).published == s.published + [s.queue[0]])
  {
  }

  // ---------------------------------------------------------------- one task

  ghost predicate ActiveThroughout(s: Schedule, events: seq<Event>, taskId: Int64) {
    forall n | 0 <= n <= |events| :: IsActive(Run(s, events[..n]), taskId)
  }

  ghost predicate PausedThroughout(s: Schedule, events: seq<Event>, taskId: Int64) {
    forall n | 0 <= n <= |events| ::
      var now := Run(s, events[..n]);
      taskId in now.pending && now.pending[taskId].isPaused
  }

  lemma {:induction false} OfAppend(taskId: Int64, a: seq<BlockInfo>, b: seq<BlockInfo>)
    ensures Of(taskId, a + b) == Of(taskId, a) + Of(taskId, b)
    decreases |b|
  {
    if b == [] {
      assert a + b == a;
    } else {
      var n := |b| - 1;
      assert (a + b)[..|a + b| - 1] == a + b[..n];
      OfAppend(taskId, a, b[..n]);
    }
  }

  /** How the head and a new last element show in the requests of a task. */
  lemma {:induction false} OfHead(taskId: Int64, requests: seq<BlockInfo>)
    requires requests != []
    ensures Of(taskId, requests) == Of(taskId, [requests[0]]) + Of(taskId, requests[1..])
  {
    OfAppend(taskId, [requests[0]], requests[1..]);
    assert [requests[0]] + requests[1..] == requests;
  }

  lemma {:induction false} OfOne(taskId: Int64, request: BlockInfo)
    ensures Of(taskId, [request]) == if request.taskId == taskId then [request] else []
  {
    assert [request][..0] == [];
  }

  lemma {:induction false} ActiveStep(s: Schedule, e: Event, taskId: Int64)
    requires IsActive(s, taskId)
    ensures Of(taskId, Step(s, e).published) + Of(taskId, Step(s, e).queue)
            == Of(taskId, s.published) + Of(taskId, s.queue) + Of(taskId, if e.Enqueue? then e.rows else [])
  {
    hide Of;
    var published, queue := Of(taskId, s.published), Of(taskId, s.queue);
    OfNone(taskId);
    if e.Enqueue? {
      OfAppend(taskId, s.queue, e.rows);
      Regrouped(published, queue, Of(taskId, e.rows));
    } else if e.Tick? && s.queue != [] {
      var head, rest := s.queue[0], s.queue[1..];
      OfHead(taskId, s.queue);
      OfOne(taskId, head);
      OfAppend(taskId, rest, [head]);
      OfAppend(taskId, s.published, [head]);
      Regrouped(published, Of(taskId, [head]), Of(taskId, rest));
    }
  }

  lemma {:induction false} OfNone(taskId: Int64)
    ensures Of(taskId, []) == []
  {
  }

  lemma {:induction false} ActiveIn(s: Schedule, events: seq<Event>, taskId: Int64)
    requires events != [] && ActiveThroughout(s, events, taskId)
    ensures ActiveThroughout(s, events[..|events| - 1], taskId)
    ensures IsActive(Run(s, events[..|events| - 1]), taskId)
  {
    var init := events[..|events| - 1];
    forall n | 0 <= n <= |init| ensures IsActive(Run(s, init[..n]), taskId) {
      assert init[..n] == events[..n];
    }
  }

  /** While a task runs, its requests are published in the order in which they were queued: none is
      lost, repeated or overtaken, whatever the other tasks do. */
  lemma {:induction false} ActiveTaskIsServedInOrder(s: Schedule, events: seq<Event>, taskId: Int64)
    requires ActiveThroughout(s, events, taskId)
    ensures var end := Run(s, events);
            Of(taskId, end.published) + Of(taskId, end.queue)
            == Of(taskId, s.published) + Of(taskId, s.queue) + Of(taskId, Requested(events))
    decreases |events|
  {
    if events == [] {
      OfNone(taskId);
    } else {
      hide Step, IsActive, ActiveThroughout, Of;
      var init, last := events[..|events| - 1], events[|events| - 1];
      ActiveIn(s, events, taskId);
      ActiveTaskIsServedInOrder(s, init, taskId);
      ActiveStep(Run(s, init), last, taskId);
      var more := if last.Enqueue? then last.rows else [];
      OfAppend(taskId, Requested(init), more);
      Regrouped(Of(taskId, s.published) + Of(taskId, s.queue), Of(taskId, Requested(init)), Of(taskId, more));
    }
  }

  lemma {:induction false} PausedStep(s: Schedule, e: Event, taskId: Int64)
    requires taskId in s.pending && s.pending[taskId].isPaused
    ensures Of(taskId, Step(s, e).published) == Of(taskId, s.published)
    ensures Of(taskId, Step(s, e).dropped) == Of(taskId, s.dropped)
    ensures multiset(Of(taskId, Step(s, e).queue))
            == multiset(Of(taskId, s.queue)) + multiset(Of(taskId, if e.Enqueue? then e.rows else []))
  {
    hide Of;
    OfNone(taskId);
    if e.Enqueue? {
      OfAppend(taskId, s.queue, e.rows);
    } else if e.Tick? && s.queue != [] {
      var head, rest := s.queue[0], s.queue[1..];
      OfHead(taskId, s.queue);
      OfOne(taskId, head);
      OfAppend(taskId, rest, [head]);
      OfAppend(taskId, s.published, [head]);
      OfAppend(taskId, s.dropped, [head]);
    }
  }

  lemma {:induction false} PausedIn(s: Schedule, events: seq<Event>, taskId: Int64)
    requires events != [] && PausedThroughout(s, events, taskId)
    ensures PausedThroughout(s, events[..|events| - 1], taskId)
    ensures var now := Run(s, events[..|events| - 1]); taskId in now.pending && now.pending[taskId].isPaused
  {
    var init := events[..|events| - 1];
    forall n | 0 <= n <= |init|
      ensures var now := Run(s, init[..n]); taskId in now.pending && now.pending[taskId].isPaused
    {
      assert init[..n] == events[..n];
    }
  }

  /** While a task is paused, none of its requests is published or dropped: all of them stay queued. */
  lemma {:induction false} PausedTaskIsKept(s: Schedule, events: seq<Event>, taskId: Int64)
    requires PausedThroughout(s, events, taskId)
    ensures var end := Run(s, events);
            && Of(taskId, end.published) == Of(taskId, s.published)
            && Of(taskId, end.dropped) == Of(taskId, s.dropped)
            && multiset(Of(taskId, end.queue))
               == multiset(Of(taskId, s.queue)) + multiset(Of(taskId, Requested(events)))
    decreases |events|
  {
    if events == [] {
      OfNone(taskId);
    } else {
      hide Step, PausedThroughout, Of;
      var init, last := events[..|events| - 1], events[|events| - 1];
      PausedIn(s, events, taskId);
      PausedTaskIsKept(s, init, taskId);
      PausedStep(Run(s, init), last, taskId);
      OfAppend(taskId, Requested(init), if last.Enqueue? then last.rows else []);
    }
  }

  // ---------------------------------------------------------------- enqueue, pause, cancel

  /** What the events of a task alone make of it: enqueued it runs, whatever it was; the last pause counts;
      cancelled it is gone. */
  function Told(was: Option<Task>, events: seq<Event>, taskId: Int64): Option<Task>
    decreases |events|
  {
    if events == [] then was
    else
      var before := Told(was, events[..|events| - 1], taskId);
      match events[|events| - 1]
      case Enqueue(id, savedPath, _) => if id == taskId then Some(Task(false, savedPath, false)) else before
      case Cancel(id) => if id == taskId then None else before
      case Pause(id, isPaused) =>
        if id == taskId && before.Some? then Some(before.value.(isPaused := isPaused)) else before
      case Tick => before
  }

  function Pending(s: Schedule, taskId: Int64): Option<Task> {
    if taskId in s.pending then Some(s.pending[taskId]) else None
  }

  /** Whether a task is pending, and whether it is paused, is what its own events have said last. */
  lemma {:induction false} TaskFollowsItsEvents(s: Schedule, events: seq<Event>, taskId: Int64)
    ensures Pending(Run(s, events), taskId) == Told(Pending(s, taskId), events, taskId)
    decreases |events|
  {
    if events != [] {
      TaskFollowsItsEvents(s, events[..|events| - 1], taskId);
    }
  }

  /** After a cancel, no request of the task is published until the task is enqueued again, and none that is
      already queued comes back behind others. */
  lemma {:induction false} CancelledTaskIsSilent(s: Schedule, events: seq<Event>, taskId: Int64)
    requires forall e | e in events :: !(e.Enqueue? && e.taskId == taskId)
    ensures var end := Run(Step(s, Cancel(taskId)), events);
            && taskId !in end.pending
            && Of(taskId, end.published) == Of(taskId, s.published)
            && Of(taskId, end.dropped) + Of(taskId, end.queue)
               == Of(taskId, s.dropped) + Of(taskId, s.queue) + Of(taskId, Requested(events))
    decreases |events|
  {
    hide Of;
    OfNone(taskId);
    if events != [] {
      var init, last := events[..|events| - 1], events[|events| - 1];
      CancelledTaskIsSilent(s, init, taskId);
      var now := Run(Step(s, Cancel(taskId)), init);
      GoneStep(now, last, taskId);
      var more := if last.Enqueue? then last.rows else [];
      OfAppend(taskId, Requested(init), more);
      Regrouped(Of(taskId, s.dropped) + Of(taskId, s.queue), Of(taskId, Requested(init)), Of(taskId, more));
    }
  }

  lemma {:induction false} GoneStep(s: Schedule, e: Event, taskId: Int64)
    requires taskId !in s.pending && !(e.Enqueue? && e.taskId == taskId)
    ensures taskId !in Step(s, e).pending && Of(taskId, Step(s, e).published) == Of(taskId, s.published)
    ensures Of(taskId, Step(s, e).dropped) + Of(taskId, Step(s, e).queue)
            == Of(taskId, s.dropped) + Of(taskId, s.queue) + Of(taskId, if e.Enqueue? then e.rows else [])
  {
    hide Of;
    var dropped, queue := Of(taskId, s.dropped), Of(taskId, s.queue);
    OfNone(taskId);
    if e.Enqueue? {
      OfAppend(taskId, s.queue, e.rows);
      Regrouped(dropped, queue, Of(taskId, e.rows));
    } else if e.Tick? && s.queue != [] {
      var head, rest := s.queue[0], s.queue[1..];
      OfHead(taskId, s.queue);
      OfOne(taskId, head);
      OfAppend(taskId, rest, [head]);
      OfAppend(taskId, s.published, [head]);
      OfAppend(taskId, s.dropped, [head]);
      Regrouped(dropped, Of(taskId, [head]), Of(taskId, rest));
    }
  }
}
