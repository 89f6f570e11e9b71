/** Which mixes of queue operations can lose a wake-up: front() together with the single push, and no
    others; and on which queues. */
module QueueMix {
  import opened Options
  import opened BoundedQueue

  datatype Kind = Push | BatchPush | Pop | TryPop | Front | Close

  function KindOf<T>(entry: Thread<T>): Kind
    requires IsEntry(entry)
  {
    match entry
    case Pushing(_) => Push
    case BatchPushing(_) => BatchPush
    case Popping => Pop
    case TryPopping => TryPop
    case Peeking => Front
    case Closing => Close
  }

  /** All calls of the run are of these kinds. */
  ghost predicate CallsOnly<T>(actions: seq<Action<T>>, kinds: set<Kind>) {
    forall k | 0 <= k < |actions| && actions[k].Call? && IsEntry(actions[k].entry) :: KindOf(actions[k].entry) in kinds
  }

  /** At rest somebody sleeps who has reason to go on. */
  predicate LosesWakeup<T(==)>(s: State<T>) {
    && Quiet(s)
    && ((SomeConsumerSleeps(s) && !(s.running && s.queue == []))
        || (SomeProducerSleeps(s) && !(s.running && |s.queue| == s.capacity)))
  }

  // ---------------------------------------------------------------- front() without the single push, and small queues

  predicate NeverPushes<T>(threads: seq<Thread<T>>) {
    forall k | 0 <= k < |threads| ::
      !threads[k].Pushing? && !threads[k].PushAsleep? && !threads[k].PushWoken? && !threads[k].NotifyingEmpty?
  }

  /** At most one thread besides a sleeper, or no room for any item. */
  predicate IsSmall<T>(s: State<T>) {
    |s.threads| <= 2 || s.capacity == 0
  }

  /** Nobody sleeps at a filled queue unless a notification is due: a batch notifies everybody, and a single
      push everybody there is when only one thread can sleep. */
  predicate TellersCover<T(==)>(s: State<T>) {
    Count(s.threads, EmptySleeper) > 0 ==>
      if s.running then
        s.queue == [] || Count(s.threads, EmptyBroadcaster) > 0 || Count(s.threads, EmptyNotifier) > 0
      else
        Count(s.threads, EmptyCloser) > 0
  }

  /** With front() and without the single push, or with any calls on a small queue. */
  predicate MixInv<T(==)>(s: State<T>, pushes: bool) {
    && (if pushes then IsSmall(s) else NeverPushes(s.threads))
    && |s.queue| <= s.capacity && BatchesWaitWithItems(s.threads) && TellersCover(s) && ProducersCovered(s)
  }

  lemma PushKeepsMixInv<T>(s: State<T>, id: nat, x: T)
    requires MixInv(s, true) && id < |s.threads| && (s.threads[id] == Pushing(x) || s.threads[id] == PushWoken(x))
    ensures MixInv(PushSection(s, id, x), true)
  {
    hide Count;
    CountsAfterUpdate(s.threads, id, PushSection(s, id, x).threads[id]);
  }

  lemma {:induction false} CountsFit<T>(threads: seq<Thread<T>>, a: Role, b: Role)
    requires a != b
    ensures Count(threads, a) + Count(threads, b) <= |threads|
  {
    if threads != [] {
      CountsFit(threads[1..], a, b);
    }
  }

  /** notify_one of a single push on a small queue: it reaches the only sleeper there can be. */
  lemma TellOneKeepsMixInv<T>(s: State<T>, id: nat, woken: Option<nat>)
    requires MixInv(s, true) && id < |s.threads| && s.threads[id].NotifyingEmpty? && MayWake(s.threads, woken, true)
    ensures MixInv(s.(threads := WakeOne(s.threads, woken)[id := Idle]), true)
  {
    hide Count;
    if woken.Some? {
      var after := WakeOne(s.threads, woken);
      CountsFit(s.threads, EmptySleeper, EmptyNotifier);
      CountsAfterUpdate(s.threads, woken.value, Wake(s.threads[woken.value]));
      assert after[id] == s.threads[id];
      hide WakeOne, MayWake;
      CountsAfterUpdate(after, id, Idle);
    } else {
      CountZero(s.threads, EmptySleeper);
      CountsAfterUpdate(s.threads, id, Idle);
    }
  }

  lemma BatchKeepsMixInv<T>(s: State<T>, pushes: bool, id: nat, xs: seq<T>)
    requires MixInv(s, pushes) && id < |s.threads|
             && (s.threads[id] == BatchPushing(xs) || s.threads[id] == BatchWoken(xs))
    ensures MixInv(BatchSection(s, id, xs), pushes)
  {
    hide Count;
    CountsAfterUpdate(s.threads, id, BatchSection(s, id, xs).threads[id]);
  }

  lemma TakeKeepsMixInv<T>(s: State<T>, pushes: bool, id: nat)
    requires MixInv(s, pushes) && id < |s.threads| && s.queue != []
    requires s.threads[id].Popping? || s.threads[id].PopWoken? || s.threads[id].TryPopping?
    ensures MixInv(Take(s, id), pushes)
  {
    hide Count;
    CountsAfterUpdate(s.threads, id, NotifyingFull);
  }

  lemma MoveKeepsMixInv<T>(s: State<T>, pushes: bool, id: nat, t: Thread<T>)
    requires MixInv(s, pushes) && id < |s.threads| && (t.Pushing? ==> pushes)
    requires RoleOf(s.threads[id]) == Other || s.threads[id].PopWoken?
    requires (RoleOf(t) == Other && !t.BatchWoken?) || ((t.PopAsleep? || t.PeekAsleep?) && s.running && s.queue == [])
    ensures MixInv(s.(threads := s.threads[id := t]), pushes)
  {
    hide Count;
    CountsAfterUpdate(s.threads, id, t);
  }

  lemma CloseKeepsMixInv<T>(s: State<T>, pushes: bool, id: nat)
    requires MixInv(s, pushes) && id < |s.threads| && s.threads[id].Closing?
    ensures MixInv(s.(running := false, threads := s.threads[id := ClosingEmpty]), pushes)
  {
    hide Count;
    CountsAfterUpdate(s.threads, id, ClosingEmpty);
  }

  lemma CallsFit<T>(s: State<T>, pushes: bool, id: nat)
    requires MixInv(s, pushes) && id < |s.threads|
    ensures var t := s.threads[id];
            && (!pushes ==> !t.Pushing? && !t.PushAsleep? && !t.PushWoken? && !t.NotifyingEmpty?)
            && (t.BatchAsleep? || t.BatchWoken? ==> |t.items| > 0)
  {
  }

  lemma LockedKeepsMixInv<T>(s: State<T>, pushes: bool, id: nat)
    requires MixInv(s, pushes) && id < |s.threads| && Locked(s, id).Some?
    ensures MixInv(Locked(s, id).value, pushes)
  {
    hide MixInv, Count, PushSection, BatchSection, Take;
    var t := s.threads[id];
    CallsFit(s, pushes, id);
    if t.Pushing? || t.PushWoken? {
      PushKeepsMixInv(s, id, t.item);
    } else if t.BatchPushing? || t.BatchWoken? {
      BatchKeepsMixInv(s, pushes, id, t.items);
    } else if t.Closing? {
      CloseKeepsMixInv(s, pushes, id);
    } else if t.Peeking? || t.PeekWoken? {
      MoveKeepsMixInv(s, pushes, id, if s.queue == [] && s.running then PeekAsleep else Idle);
    } else if s.queue != [] {
      TakeKeepsMixInv(s, pushes, id);
    } else {
      MoveKeepsMixInv(s, pushes, id, if s.running && !t.TryPopping? then PopAsleep else Idle);
    }
  }

  lemma NotifyOneKeepsMixInv<T>(s: State<T>, pushes: bool, id: nat, woken: Option<nat>)
    requires MixInv(s, pushes) && id < |s.threads| && s.threads[id].NotifyingFull? && MayWake(s.threads, woken, false)
    ensures MixInv(s.(threads := WakeOne(s.threads, woken)[id := Idle]), pushes)
  {
    hide Count;
    if woken.Some? {
      CountsAfterUpdate(s.threads, woken.value, Wake(s.threads[woken.value]));
    } else {
      CountZero(s.threads, FullSleeper);
    }
    CountsAfterUpdate(WakeOne(s.threads, woken), id, Idle);
  }

  lemma {:induction false} NotifyAllKeepsMixInv<T>(s: State<T>, pushes: bool, id: nat, onEmpty: bool, t: Thread<T>)
    requires MixInv(s, pushes) && id < |s.threads|
    requires match s.threads[id]
             case NotifyingAllEmpty(rest) => onEmpty && t == BatchPushing(rest)
             case ClosingEmpty => onEmpty && t == ClosingFull
             case ClosingFull => !onEmpty && t == Idle
             case _ => false
    ensures MixInv(s.(threads := WakeAll(s.threads, onEmpty)[id := t]), pushes)
  {
    hide Count, WakeAll;
    WakeAllCounts(s.threads, onEmpty);
    WakeAllThreads(s.threads, onEmpty);
    CountsAfterUpdate(WakeAll(s.threads, onEmpty), id, t);
  }

  lemma SpuriousKeepsMixInv<T>(s: State<T>, pushes: bool, id: nat)
    requires MixInv(s, pushes) && id < |s.threads| && (SleepsOnEmpty(s.threads[id]) || SleepsOnFull(s.threads[id]))
    ensures MixInv(s.(threads := s.threads[id := Wake(s.threads[id])]), pushes)
  {
    hide Count;
    CountsAfterUpdate(s.threads, id, Wake(s.threads[id]));
  }

  lemma NextKeepsMixInv<T>(s: State<T>, pushes: bool, a: Action<T>)
    requires MixInv(s, pushes) && Next(s, a).Some? && (a.Call? && a.entry.Pushing? ==> pushes)
    ensures MixInv(Next(s, a).value, pushes) && Next(s, a).value.capacity == s.capacity
  {
    hide MixInv, Count, Locked, WakeAll;
    var t := s.threads[a.id];
    CallsFit(s, pushes, a.id);
    if a.Call? {
      MoveKeepsMixInv(s, pushes, a.id, a.entry);
    } else if a.Lock? {
      LockedKeepsMixInv(s, pushes, a.id);
      LockedKeepsCapacity(s, a.id);
    } else if a.NotifyOne? && t.NotifyingEmpty? {
      TellOneKeepsMixInv(s, a.id, a.woken);
    } else if a.NotifyOne? {
      NotifyOneKeepsMixInv(s, pushes, a.id, a.woken);
    } else if a.Spurious? {
      SpuriousKeepsMixInv(s, pushes, a.id);
    } else if t.NotifyingAllEmpty? {
      NotifyAllKeepsMixInv(s, pushes, a.id, true, BatchPushing(t.items));
    } else {
      NotifyAllKeepsMixInv(s, pushes, a.id, t.ClosingEmpty?, if t.ClosingEmpty? then ClosingFull else Idle);
    }
  }

  /** In every run without the single push, front() included, and in every run on a small queue, nobody
      sleeps at a filled or closed queue unless a notification is due, and sleeping producers are covered. */
  lemma {:induction false} EveryRunKeepsMixInv<T>(capacity: nat, threads: nat, actions: seq<Action<T>>,
                                                  kinds: set<Kind>)
    requires Run(capacity, threads, actions).Some? && CallsOnly(actions, kinds)
    requires Push in kinds ==> threads <= 2 || capacity == 0
    ensures MixInv(Run(capacity, threads, actions).value, Push in kinds)
    decreases |actions|
  {
    if actions == [] {
      var s := Start<T>(capacity, threads);
      CountZero(s.threads, EmptySleeper);
      CountZero(s.threads, FullSleeper);
    } else {
      hide MixInv;
      var n := |actions| - 1;
      var before := actions[..n];
      assert forall k :: 0 <= k < n ==> before[k] == actions[k];
      EveryRunKeepsMixInv(capacity, threads, before, kinds);
      NextKeepsMixInv(Run(capacity, threads, before).value, Push in kinds, actions[n]);
    }
  }

  lemma SleepersAtRest<T>(s: State<T>)
    requires Quiet(s)
    ensures SomeConsumerSleeps(s) ==> Count(s.threads, EmptySleeper) > 0
    ensures SomeProducerSleeps(s) ==> Count(s.threads, FullSleeper) > 0
  {
    hide Count;
    CountZero(s.threads, EmptySleeper);
    CountZero(s.threads, FullSleeper);
  }

  lemma {:induction false} NobodyTellsAtRest<T>(s: State<T>, role: Role)
    requires Quiet(s) && role != EmptySleeper && role != FullSleeper && role != Other
    ensures Count(s.threads, role) == 0
  {
    hide Count;
    CountZero(s.threads, role);
  }

  lemma RestIsTold<T>(s: State<T>, pushes: bool)
    requires MixInv(s, pushes)
    ensures !LosesWakeup(s)
  {
    if Quiet(s) {
      SleepersAtRest(s);
      NobodyTellsAtRest(s, EmptyBroadcaster);
      NobodyTellsAtRest(s, EmptyNotifier);
      NobodyTellsAtRest(s, EmptyCloser);
      NobodyTellsAtRest(s, FullNotifier);
      NobodyTellsAtRest(s, FullWoken);
      NobodyTellsAtRest(s, FullCloser);
      hide Count, Quiet;
    }
  }

  // ---------------------------------------------------------------- front() with the single push

  lemma ExtendCalls<T>(capacity: nat, threads: nat, actions: seq<Action<T>>, s: State<T>, a: Action<T>,
                       kinds: set<Kind>)
    returns (longer: seq<Action<T>>, after: State<T>)
    requires Run(capacity, threads, actions) == Some(s) && Next(s, a).Some? && CallsOnly(actions, kinds)
    requires a.Call? ==> IsEntry(a.entry) && KindOf(a.entry) in kinds
    ensures longer == actions + [a] && Next(s, a) == Some(after)
    ensures Run(capacity, threads, longer) == Some(after) && CallsOnly(longer, kinds)
  {
    longer, after := Extend(capacity, threads, actions, s, a);
  }

  /** The threads of the run: two that call front(), one that pushes, and idle others. */
  function Three<T>(threads: nat, a: Thread<T>, b: Thread<T>, c: Thread<T>): seq<Thread<T>>
    requires threads >= 3
  {
    [a, b, c] + seq(threads - 3, _ => Idle)
  }

  lemma BothPeekersSleep<T>(capacity: nat, threads: nat, kinds: set<Kind>) returns (a: seq<Action<T>>)
    requires threads >= 3 && Front in kinds
    ensures Run(capacity, threads, a)
            == Some(State([], capacity, true, Three(threads, PeekAsleep, PeekAsleep, Idle), [], []))
    ensures CallsOnly(a, kinds)
  {
    var s: State<T> := Start(capacity, threads);
    a := [];
    assert Run(capacity, threads, a) == Some(s);
    hide Run, CallsOnly;
    assert CallsOnly(a, kinds) by {
      NoCalls<T>(kinds);
    }
    a, s := ExtendCalls(capacity, threads, a, s, Call(0, Peeking), kinds);
    a, s := ExtendCalls(capacity, threads, a, s, Lock(0), kinds);
    a, s := ExtendCalls(capacity, threads, a, s, Call(1, Peeking), kinds);
    a, s := ExtendCalls(capacity, threads, a, s, Lock(1), kinds);
    assert s.threads == Three(threads, PeekAsleep, PeekAsleep, Idle);
  }

  lemma NoCalls<T>(kinds: set<Kind>)
    ensures CallsOnly<T>([], kinds)
  {
  }

  /** One of two sleepers in front() gets the only notification and passes it on to nobody. */
  lemma FrontAndPushLose<T>(capacity: nat, threads: nat, kinds: set<Kind>, x: T) returns (a: seq<Action<T>>)
    requires capacity >= 1 && threads >= 3 && Front in kinds && Push in kinds
    ensures CallsOnly(a, kinds) && Run(capacity, threads, a).Some? && LosesWakeup(Run(capacity, threads, a).value)
  {
    hide Run, CallsOnly;
    a := BothPeekersSleep(capacity, threads, kinds);
    var s: State<T> := State([], capacity, true, Three(threads, PeekAsleep, PeekAsleep, Idle), [], []);
    a, s := ExtendCalls(capacity, threads, a, s, Call(2, Pushing(x)), kinds);
    a, s := ExtendCalls(capacity, threads, a, s, Lock(2), kinds);
    a, s := ExtendCalls(capacity, threads, a, s, NotifyOne(2, Some(1)), kinds);
    a, s := ExtendCalls(capacity, threads, a, s, Lock(1), kinds);
    assert s.threads == Three(threads, PeekAsleep, Idle, Idle);
    assert SleepsOnEmpty(s.threads[0]);
  }

  /** The exact condition: calls of the given kinds can lose a wake-up if and only if front() and the single
      push are both among them, there are three threads or more, and there is room for an item. */
  lemma WakeupIsLostIff<T>(capacity: nat, threads: nat, kinds: set<Kind>, x: T)
    ensures (exists actions: seq<Action<T>> ::
               && CallsOnly(actions, kinds) && Run(capacity, threads, actions).Some?
               && LosesWakeup(Run(capacity, threads, actions).value))
            <==> Front in kinds && Push in kinds && threads >= 3 && capacity >= 1
  {
    hide Run, CallsOnly, LosesWakeup;
    if Front in kinds && Push in kinds && threads >= 3 && capacity >= 1 {
      var a := FrontAndPushLose(capacity, threads, kinds, x);
    } else {
      forall actions: seq<Action<T>> | CallsOnly(actions, kinds) && Run(capacity, threads, actions).Some?
        ensures !LosesWakeup(Run(capacity, threads, actions).value)
      {
        NothingIsLost(capacity, threads, actions, kinds);
      }
    }
  }

  lemma {:induction false} NothingIsLost<T>(capacity: nat, threads: nat, actions: seq<Action<T>>, kinds: set<Kind>)
    requires CallsOnly(actions, kinds) && Run(capacity, threads, actions).Some?
    requires !(Front in kinds && Push in kinds && threads >= 3 && capacity >= 1)
    ensures !LosesWakeup(Run(capacity, threads, actions).value)
  {
    hide Run, Inv, MixInv;
    if Front in kinds {
      EveryRunKeepsMixInv(capacity, threads, actions, kinds);
      RestIsTold(Run(capacity, threads, actions).value, Push in kinds);
    } else {
      EveryRunKeepsInv(capacity, threads, actions);
      var s := Run(capacity, threads, actions).value;
      if Quiet(s) {
        RestIsCovered(s);
      }
    }
  }
}
