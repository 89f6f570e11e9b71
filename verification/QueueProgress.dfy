/** The queue comes to rest: without new calls and spurious wake-ups its threads take finitely many steps,
    however they interleave. */
module QueueProgress {
  import opened Options
  import opened BoundedQueue

  /** The queue operations that a thread has still to do. */
  function Operations<T>(t: Thread<T>): nat {
    match t
    case Pushing(_) | PushAsleep(_) | PushWoken(_) => 1
    case BatchPushing(xs) => |xs| + 1
    case BatchAsleep(xs) => |xs| + 1
    case BatchWoken(xs) => |xs| + 1
    case NotifyingAllEmpty(xs) => |xs| + 1
    case Popping | PopAsleep | PopWoken | TryPopping => 1
    case Peeking | PeekAsleep | PeekWoken => 1
    case Closing => 1
    case _ => 0
  }

  /** The notifications that it has still to send. */
  function Tellings<T>(t: Thread<T>): nat {
    match t
    case NotifyingEmpty | NotifyingFull | NotifyingAllEmpty(_) | ClosingFull => 1
    case ClosingEmpty => 2
    case _ => 0
  }

  /** Whether it is on its way to the mutex. */
  function Attempts<T>(t: Thread<T>): nat {
    match t
    case Pushing(_) | PushWoken(_) | BatchPushing(_) | BatchWoken(_) => 1
    case Popping | PopWoken | Peeking | PeekWoken => 1
    case _ => 0
  }

  /** What a thread can still cause among n threads: a notification wakes at most n, and an operation leaves
      at most two notifications behind. */
  function Weight<T>(t: Thread<T>, n: nat): nat {
    Operations(t) * (2 * n + 3) + Tellings(t) * (n + 1) + Attempts(t)
  }

  function TotalWeight<T>(threads: seq<Thread<T>>, n: nat): nat {
    if threads == [] then 0 else Weight(threads[0], n) + TotalWeight(threads[1..], n)
  }

  /** A bound for the steps to come. */
  function StepsLeft<T>(s: State<T>): nat {
    TotalWeight(s.threads, |s.threads|)
  }

  function Follow<T>(s: State<T>, actions: seq<Action<T>>): Option<State<T>>
    decreases |actions|
  {
    if actions == [] then Some(s)
    else
      match Next(s, actions[0])
      case None => None
      case Some(t) => Follow(t, actions[1..])
  }

  predicate NothingNew<T>(actions: seq<Action<T>>) {
    forall k | 0 <= k < |actions| :: !actions[k].Call? && !actions[k].Spurious?
  }

  // ---------------------------------------------------------------- every step costs something

  lemma {:induction false} WeightUpdate<T>(threads: seq<Thread<T>>, id: nat, t: Thread<T>, n: nat)
    requires id < |threads|
    ensures TotalWeight(threads[id := t], n) == TotalWeight(threads, n) - Weight(threads[id], n) + Weight(t, n)
  {
    hide Weight;
    if id == 0 {
      assert threads[0 := t][1..] == threads[1..];
    } else {
      WeightUpdate(threads[1..], id - 1, t, n);
      assert threads[id := t][1..] == threads[1..][id - 1 := t];
    }
  }

  lemma WakeWeight<T>(t: Thread<T>, n: nat)
    ensures Weight(Wake(t), n) <= Weight(t, n) + 1
  {
  }

  lemma {:induction false} WakeAllWeight<T>(threads: seq<Thread<T>>, onEmpty: bool, n: nat)
    ensures TotalWeight(WakeAll(threads, onEmpty), n) <= TotalWeight(threads, n) + |threads|
  {
    hide Weight, Wake;
    if threads != [] {
      WakeAllWeight(threads[1..], onEmpty, n);
      WakeWeight(threads[0], n);
      assert WakeAll(threads, onEmpty)[1..] == WakeAll(threads[1..], onEmpty);
    }
  }

  /** One thread that does not sleep leaves one sleeper less to be woken. */
  lemma {:induction false} SleepersAreFewer<T>(threads: seq<Thread<T>>, onEmpty: bool, id: nat, n: nat)
    requires id < |threads| && !SleepsOnEmpty(threads[id]) && !SleepsOnFull(threads[id])
    ensures TotalWeight(WakeAll(threads, onEmpty), n) < TotalWeight(threads, n) + |threads|
    decreases |threads|
  {
    hide Weight, Wake;
    assert WakeAll(threads, onEmpty)[1..] == WakeAll(threads[1..], onEmpty);
    if id == 0 {
      WakeAllWeight(threads[1..], onEmpty, n);
    } else {
      SleepersAreFewer(threads[1..], onEmpty, id - 1, n);
      WakeWeight(threads[0], n);
    }
  }

  lemma {:induction false} Scaled(few: nat, many: nat, unit: nat)
    requires few < many
    ensures few * unit + unit <= many * unit
    decreases many
  {
    if many == few + 1 {
      assert many * unit == few * unit + unit;
    } else {
      Scaled(few, many - 1, unit);
      assert many * unit == (many - 1) * unit + unit;
    }
  }

  lemma AtMostTwo<T>(t: Thread<T>)
    ensures Tellings(t) <= 2 && Attempts(t) <= 1
  {
  }

  lemma WeightIsSum<T>(t: Thread<T>, n: nat, unit: nat)
    requires unit == 2 * n + 3
    ensures Weight(t, n) == Operations(t) * unit + Tellings(t) * (n + 1) + Attempts(t)
    ensures Tellings(t) * (n + 1) >= 0
  {
  }

  /** A thread with fewer operations left weighs less, whatever it has to tell and wherever it stands. */
  lemma FewerOperations<T>(t: Thread<T>, u: Thread<T>, n: nat)
    requires Operations(u) < Operations(t) && Attempts(u) == 0
    ensures Weight(u, n) < Weight(t, n)
  {
    AtMostTwo(u);
    hide Operations, Tellings, Attempts, Weight;
    var unit := 2 * n + 3;
    Scaled(Operations(u), Operations(t), unit);
    assert Tellings(u) * (n + 1) <= 2 * n + 2 by {
      assert Tellings(u) == 0 || Tellings(u) == 1 || Tellings(u) == 2;
    }
    WeightIsSum(u, n, unit);
    WeightIsSum(t, n, unit);
  }

  lemma LockedChanges<T>(s: State<T>, id: nat)
    requires id < |s.threads| && Locked(s, id).Some?
    ensures var t, u := s.threads[id], Locked(s, id).value.threads[id];
            && Locked(s, id).value.threads == s.threads[id := u]
            && Attempts(u) == 0
            && (Operations(u) < Operations(t)
                || (Operations(u) == Operations(t) && Tellings(u) == Tellings(t) && Attempts(t) == 1))
  {
  }

  lemma LockedCosts<T>(s: State<T>, id: nat)
    requires id < |s.threads| && Locked(s, id).Some?
    ensures |Locked(s, id).value.threads| == |s.threads| && StepsLeft(Locked(s, id).value) < StepsLeft(s)
  {
    LockedChanges(s, id);
    hide TotalWeight, Locked, Operations, Tellings, Attempts;
    var t, u := s.threads[id], Locked(s, id).value.threads[id];
    WeightUpdate(s.threads, id, u, |s.threads|);
    if Operations(u) < Operations(t) {
      FewerOperations(t, u, |s.threads|);
    }
  }

  lemma NotifyOneCosts<T>(s: State<T>, id: nat, woken: Option<nat>)
    requires Next(s, NotifyOne(id, woken)).Some?
    ensures var t := Next(s, NotifyOne(id, woken)).value; |t.threads| == |s.threads| && StepsLeft(t) < StepsLeft(s)
  {
    var n, after := |s.threads|, WakeOne(s.threads, woken);
    assert n > 0 && after[id] == s.threads[id] && Weight(after[id], n) == n + 1 && Weight<T>(Idle, n) == 0;
    hide TotalWeight, Weight, Wake;
    if woken.Some? {
      WeightUpdate(s.threads, woken.value, Wake(s.threads[woken.value]), n);
      WakeWeight(s.threads[woken.value], n);
    }
    WeightUpdate(after, id, Idle, n);
  }

  lemma TellerCosts<T>(t: Thread<T>, n: nat)
    ensures t.NotifyingAllEmpty? ==> Weight(BatchPushing(t.items), n) + n == Weight(t, n)
    ensures Weight<T>(ClosingFull, n) + n + 1 == Weight<T>(ClosingEmpty, n)
    ensures Weight<T>(Idle, n) + n + 1 == Weight<T>(ClosingFull, n)
  {
  }

  lemma NotifyAllCosts<T>(s: State<T>, id: nat)
    requires Next(s, NotifyAll(id)).Some?
    ensures var t := Next(s, NotifyAll(id)).value; |t.threads| == |s.threads| && StepsLeft(t) < StepsLeft(s)
  {
    var n, t := |s.threads|, s.threads[id];
    var after := WakeAll(s.threads, !t.ClosingFull?);
    WakeAllThreads(s.threads, !t.ClosingFull?);
    assert after[id] == t;
    TellerCosts(t, n);
    hide TotalWeight, Weight, WakeAll;
    SleepersAreFewer(s.threads, !t.ClosingFull?, id, n);
    var next := if t.NotifyingAllEmpty? then BatchPushing(t.items) else if t.ClosingEmpty? then ClosingFull else Idle;
    WeightUpdate(after, id, next, n);
  }

  lemma StepCosts<T>(s: State<T>, a: Action<T>)
    requires Next(s, a).Some? && !a.Call? && !a.Spurious?
    ensures |Next(s, a).value.threads| == |s.threads| && StepsLeft(Next(s, a).value) < StepsLeft(s)
  {
    hide StepsLeft, Locked, WakeAll, WakeOne, MayWake;
    match a
    case Lock(id) => LockedCosts(s, id);
    case NotifyOne(id, woken) => NotifyOneCosts(s, id, woken);
    case NotifyAll(id) => NotifyAllCosts(s, id);
  }

  /** However the threads interleave, without new calls and spurious wake-ups the steps are bounded. */
  lemma {:induction false} RunsEnd<T>(s: State<T>, actions: seq<Action<T>>)
    requires Follow(s, actions).Some? && NothingNew(actions)
    ensures |actions| + StepsLeft(Follow(s, actions).value) <= StepsLeft(s)
    decreases |actions|
  {
    if actions != [] {
      hide StepsLeft, Next;
      StepCosts(s, actions[0]);
      RunsEnd(Next(s, actions[0]).value, actions[1..]);
    }
  }

  /** From every state some such steps lead to rest, where all threads are idle or asleep. */
  lemma {:induction false} RestIsReached<T>(s: State<T>) returns (actions: seq<Action<T>>)
    ensures NothingNew(actions) && Follow(s, actions).Some? && Quiet(Follow(s, actions).value)
    decreases StepsLeft(s)
  {
    if Quiet(s) {
      actions := [];
    } else {
      hide StepsLeft, Next, Quiet;
      QuietIffStuck(s);
      var a: Action<T> :| !a.Call? && !a.Spurious? && Next(s, a) != None;
      StepCosts(s, a);
      var more := RestIsReached(Next(s, a).value);
      actions := [a] + more;
      assert actions[1..] == more;
    }
  }

  lemma {:induction false} RunFollows<T>(capacity: nat, threads: nat, actions: seq<Action<T>>, more: seq<Action<T>>)
    requires Run(capacity, threads, actions).Some? && Follow(Run(capacity, threads, actions).value, more).Some?
    ensures Run(capacity, threads, actions + more) == Follow(Run(capacity, threads, actions).value, more)
    decreases |more|
  {
    hide Next;
    if more == [] {
      assert actions + more == actions;
    } else {
      var longer := actions + [more[0]];
      assert longer[..|actions|] == actions && actions + more == longer + more[1..];
      RunFollows(capacity, threads, longer, more[1..]);
    }
  }

  /** Every run without front() can be continued, without new calls, to rest: a consumer then sleeps only at
      an empty queue that is still open, and a producer only at a full one that is still open. */
  lemma {:induction false} EveryRunCanRest<T>(capacity: nat, threads: nat, actions: seq<Action<T>>)
    requires Run(capacity, threads, actions).Some? && !UsesFront(actions)
    ensures exists more: seq<Action<T>> ::
              && NothingNew(more) && Run(capacity, threads, actions + more).Some?
              && var t := Run(capacity, threads, actions + more).value;
                 && Quiet(t)
                 && (SomeConsumerSleeps(t) ==> t.running && t.queue == [])
                 && (SomeProducerSleeps(t) ==> t.running && |t.queue| == t.capacity)
  {
    hide Run, Follow, Quiet, SomeConsumerSleeps, SomeProducerSleeps;
    var more := RestIsReached(Run(capacity, threads, actions).value);
    RunFollows(capacity, threads, actions, more);
    assert !UsesFront(actions + more);
    NoLostWakeup(capacity, threads, actions + more);
  }
}
