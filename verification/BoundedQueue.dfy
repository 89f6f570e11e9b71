/** The bounded blocking queue (mpmc_bounded_queue.hpp) as a system of threads. A step of a thread is
    one section under the mutex, one notify, or one wake-up; the steps of different threads interleave
    in any order. */
module BoundedQueue {
  import opened Options
  import opened Numbers

  /** Where a thread stands. A thread asleep waits on a condition variable; a woken one has to take the
      mutex and test its condition again. */
  datatype Thread<T> =
    | Idle
    | Pushing(item: T)
    | PushAsleep(item: T)
    | PushWoken(item: T)
    | NotifyingEmpty
    | BatchPushing(items: seq<T>)
    | BatchAsleep(items: seq<T>)
    | BatchWoken(items: seq<T>)
    | NotifyingAllEmpty(items: seq<T>)
    | Popping
    | PopAsleep
    | PopWoken
    | TryPopping
    | NotifyingFull
    | Peeking
    | PeekAsleep
    | PeekWoken
    | Closing
    | ClosingEmpty
    | ClosingFull

  /** accepted and taken record the items in the order in which they entered and left the queue. */
  datatype State<T> = State(
    queue: seq<T>,
    capacity: nat,
    running: bool,
    threads: seq<Thread<T>>,
    accepted: seq<T>,
    taken: seq<T>)

  datatype Action<T> =
    | Call(id: nat, entry: Thread<T>)
    | Lock(id: nat)
    | NotifyOne(id: nat, woken: Option<nat>)
    | NotifyAll(id: nat)
    | Spurious(id: nat)

  // ---------------------------------------------------------------- one step

  /** A call starts in one of these. front() is Peeking; the batch push brings its items. */
  predicate IsEntry<T>(t: Thread<T>) {
    t.Pushing? || t.BatchPushing? || t.Popping? || t.TryPopping? || t.Peeking? || t.Closing?
  }

  predicate SleepsOnEmpty<T>(t: Thread<T>) {
    t.PopAsleep? || t.PeekAsleep?
  }

  predicate SleepsOnFull<T>(t: Thread<T>) {
    t.PushAsleep? || t.BatchAsleep?
  }

  function Wake<T>(t: Thread<T>): Thread<T> {
    match t
    case PushAsleep(x) => PushWoken(x)
    case BatchAsleep(xs) => BatchWoken(xs)
    case PopAsleep => PopWoken
    case PeekAsleep => PeekWoken
    case _ => t
  }

  function WakeAll<T>(threads: seq<Thread<T>>, onEmpty: bool): (r: seq<Thread<T>>)
    ensures |r| == |threads|
  {
    if threads == [] then []
    else
      var t := threads[0];
      [if (if onEmpty then SleepsOnEmpty(t) else SleepsOnFull(t)) then Wake(t) else t]
      + WakeAll(threads[1..], onEmpty)
  }

  function Take<T>(s: State<T>, id: nat): State<T>
    requires id < |s.threads| && s.queue != []
  {
    s.(queue := s.queue[1..], taken := s.taken + [s.queue[0]], threads := s.threads[id := NotifyingFull])
  }

  /** The section under the mutex that the thread has reached; None when it has no such section. */
  function Locked<T>(s: State<T>, id: nat): Option<State<T>>
    requires id < |s.threads|
  {
    match s.threads[id]
    case Pushing(x) => Some(PushSection(s, id, x))
    case PushWoken(x) => Some(PushSection(s, id, x))
    case BatchPushing(xs) => Some(BatchSection(s, id, xs))
    case BatchWoken(xs) => Some(BatchSection(s, id, xs))
    case Popping => Some(PopSection(s, id))
    case PopWoken => Some(PopSection(s, id))
    case TryPopping => Some(if s.queue == [] then s.(threads := s.threads[id := Idle]) else Take(s, id))
    case Peeking => Some(PeekSection(s, id))
    case PeekWoken => Some(PeekSection(s, id))
    case Closing => Some(s.(running := false, threads := s.threads[id := ClosingEmpty]))
    case _ => None
  }

  function PushSection<T>(s: State<T>, id: nat, x: T): State<T>
    requires id < |s.threads|
  {
    if !s.running then
      s.(threads := s.threads[id := Idle])
    else if |s.queue| < s.capacity then
      s.(queue := s.queue + [x], accepted := s.accepted + [x], threads := s.threads[id := NotifyingEmpty])
    else
      s.(threads := s.threads[id := PushAsleep(x)])
  }

  /** The iterator push: as many items as fit, then notify_all, until none is left. */
  function BatchSection<T>(s: State<T>, id: nat, xs: seq<T>): State<T>
    requires id < |s.threads|
  {
    if xs == [] || !s.running then
      s.(threads := s.threads[id := Idle])
    else if |s.queue| < s.capacity then
      var n := Min(|xs|, s.capacity - |s.queue|);
      s.(queue := s.queue + xs[..n], accepted := s.accepted + xs[..n],
         threads := s.threads[id := NotifyingAllEmpty(xs[n..])])
    else
      s.(threads := s.threads[id := BatchAsleep(xs)])
  }

  function PopSection<T>(s: State<T>, id: nat): State<T>
    requires id < |s.threads|
  {
    if s.queue == [] && s.running then s.(threads := s.threads[id := PopAsleep])
    else if s.queue == [] then s.(threads := s.threads[id := Idle])
    else Take(s, id)
  }

  /** front(): copies the first item and leaves it there; nobody is notified. */
  function PeekSection<T>(s: State<T>, id: nat): State<T>
    requires id < |s.threads|
  {
    s.(threads := s.threads[id := if s.queue == [] && s.running then PeekAsleep else Idle])
  }

  /** notify_one: wakes one of the sleepers, whichever; nobody only when there is none. */
  predicate MayWake<T>(threads: seq<Thread<T>>, woken: Option<nat>, onEmpty: bool) {
    match woken
    case Some(k) => k < |threads| && if onEmpty then SleepsOnEmpty(threads[k]) else SleepsOnFull(threads[k])
    case None =>
      forall k | 0 <= k < |threads| :: if onEmpty then !SleepsOnEmpty(threads[k]) else !SleepsOnFull(threads[k])
  }

  function WakeOne<T>(threads: seq<Thread<T>>, woken: Option<nat>): seq<Thread<T>>
    requires woken.Some? ==> woken.value < |threads|
  {
    match woken
    case Some(k) => threads[k := Wake(threads[k])]
    case None => threads
  }

  /** The state after an action, or None when the action is not possible. */
  function Next<T>(s: State<T>, a: Action<T>): Option<State<T>> {
    if a.id >= |s.threads| then None
    else
      var t := s.threads[a.id];
      match a
      case Call(id, entry) =>
        if t.Idle? && IsEntry(entry) then Some(s.(threads := s.threads[id := entry])) else None
      case Lock(id) => Locked(s, id)
      case NotifyOne(id, woken) =>
        if t.NotifyingEmpty? && MayWake(s.threads, woken, true) then
          Some(s.(threads := WakeOne(s.threads, woken)[id := Idle]))
        else if t.NotifyingFull? && MayWake(s.threads, woken, false) then
          Some(s.(threads := WakeOne(s.threads, woken)[id := Idle]))
        else
          None
      case NotifyAll(id) =>
        (match t
         case NotifyingAllEmpty(rest) => Some(s.(threads := WakeAll(s.threads, true)[id := BatchPushing(rest)]))
         case ClosingEmpty => Some(s.(threads := WakeAll(s.threads, true)[id := ClosingFull]))
         case ClosingFull => Some(s.(threads := WakeAll(s.threads, false)[id := Idle]))
         case _ => None)
      case Spurious(id) =>
        if SleepsOnEmpty(t) || SleepsOnFull(t) then Some(s.(threads := s.threads[id := Wake(t)])) else None
  }

  function Start<T>(capacity: nat, threads: nat): State<T> {
    State([], capacity, true, seq(threads, _ => Idle), [], [])
  }

  /** A run that is possible ends in some state. */
  function Run<T>(capacity: nat, threads: nat, actions: seq<Action<T>>): Option<State<T>> {
    if actions == [] then Some(Start(capacity, threads))
    else
      match Run(capacity, threads, actions[..|actions| - 1])
      case None => None
      case Some(s) => Next(s, actions[|actions| - 1])
  }

  // ---------------------------------------------------------------- counting threads

  datatype Role =
    | EmptySleeper
    | FullSleeper
    | EmptyWoken
    | FullWoken
    | EmptyNotifier
    | FullNotifier
    | EmptyBroadcaster
    | EmptyCloser
    | FullCloser
    | Other

  function RoleOf<T>(t: Thread<T>): Role {
    match t
    case PopAsleep => EmptySleeper
    case PeekAsleep => EmptySleeper
    case PushAsleep(_) => FullSleeper
    case BatchAsleep(_) => FullSleeper
    case PopWoken => EmptyWoken
    case PushWoken(_) => FullWoken
    case BatchWoken(_) => FullWoken
    case NotifyingEmpty => EmptyNotifier
    case NotifyingFull => FullNotifier
    case NotifyingAllEmpty(_) => EmptyBroadcaster
    case ClosingEmpty => EmptyCloser
    case ClosingFull => FullCloser
    case _ => Other
  }

  function Count<T>(threads: seq<Thread<T>>, role: Role): nat {
    if threads == [] then 0
    else (if RoleOf(threads[0]) == role then 1 else 0) + Count(threads[1..], role)
  }

  lemma {:induction false} CountUpdate<T>(threads: seq<Thread<T>>, id: nat, t: Thread<T>, role: Role)
    requires id < |threads|
    ensures Count(threads[id := t], role)
         == Count(threads, role) - (if RoleOf(threads[id]) == role then 1 else 0) + (if RoleOf(t) == role then 1 else 0)
    ensures RoleOf(threads[id]) == role ==> Count(threads, role) > 0
  {
    if id == 0 {
      assert threads[0 := t][1..] == threads[1..];
    } else {
      CountUpdate(threads[1..], id - 1, t, role);
      assert threads[id := t][1..] == threads[1..][id - 1 := t];
    }
  }

  lemma {:induction false} CountZero<T>(threads: seq<Thread<T>>, role: Role)
    ensures Count(threads, role) == 0 <==> forall k :: 0 <= k < |threads| ==> RoleOf(threads[k]) != role
  {
    if threads != [] {
      CountZero(threads[1..], role);
      forall k | 1 <= k < |threads| ensures RoleOf(threads[k]) == RoleOf(threads[1..][k - 1]) {
      }
    }
  }

  function Change<T>(before: Thread<T>, after: Thread<T>, role: Role): int {
    (if RoleOf(after) == role then 1 else 0) - if RoleOf(before) == role then 1 else 0
  }

  lemma CountsAfterUpdate<T>(threads: seq<Thread<T>>, id: nat, t: Thread<T>)
    requires id < |threads|
    ensures Count(threads[id := t], EmptySleeper) == Count(threads, EmptySleeper) + Change(threads[id], t, EmptySleeper)
    ensures Count(threads[id := t], FullSleeper) == Count(threads, FullSleeper) + Change(threads[id], t, FullSleeper)
    ensures Count(threads[id := t], EmptyWoken) == Count(threads, EmptyWoken) + Change(threads[id], t, EmptyWoken)
    ensures Count(threads[id := t], FullWoken) == Count(threads, FullWoken) + Change(threads[id], t, FullWoken)
    ensures Count(threads[id := t], EmptyNotifier)
            == Count(threads, EmptyNotifier) + Change(threads[id], t, EmptyNotifier)
    ensures Count(threads[id := t], FullNotifier) == Count(threads, FullNotifier) + Change(threads[id], t, FullNotifier)
    ensures Count(threads[id := t], EmptyBroadcaster)
            == Count(threads, EmptyBroadcaster) + Change(threads[id], t, EmptyBroadcaster)
    ensures Count(threads[id := t], EmptyCloser) == Count(threads, EmptyCloser) + Change(threads[id], t, EmptyCloser)
    ensures Count(threads[id := t], FullCloser) == Count(threads, FullCloser) + Change(threads[id], t, FullCloser)
    ensures Count(threads, RoleOf(threads[id])) > 0
  {
    hide Count;
    CountUpdate(threads, id, t, EmptySleeper);
    CountUpdate(threads, id, t, FullSleeper);
    CountUpdate(threads, id, t, EmptyWoken);
    CountUpdate(threads, id, t, FullWoken);
    CountUpdate(threads, id, t, EmptyNotifier);
    CountUpdate(threads, id, t, FullNotifier);
    CountUpdate(threads, id, t, EmptyBroadcaster);
    CountUpdate(threads, id, t, EmptyCloser);
    CountUpdate(threads, id, t, FullCloser);
    CountUpdate(threads, id, t, RoleOf(threads[id]));
  }

  lemma {:induction false} WakeAllCounts<T>(threads: seq<Thread<T>>, onEmpty: bool)
    ensures Count(WakeAll(threads, onEmpty), EmptyNotifier) == Count(threads, EmptyNotifier)
    ensures Count(WakeAll(threads, onEmpty), FullNotifier) == Count(threads, FullNotifier)
    ensures Count(WakeAll(threads, onEmpty), EmptyBroadcaster) == Count(threads, EmptyBroadcaster)
    ensures Count(WakeAll(threads, onEmpty), EmptyCloser) == Count(threads, EmptyCloser)
    ensures Count(WakeAll(threads, onEmpty), FullCloser) == Count(threads, FullCloser)
    ensures if onEmpty then
              && Count(WakeAll(threads, true), EmptySleeper) == 0
              && Count(WakeAll(threads, true), FullSleeper) == Count(threads, FullSleeper)
              && Count(WakeAll(threads, true), FullWoken) == Count(threads, FullWoken)
            else
              && Count(WakeAll(threads, false), FullSleeper) == 0
              && Count(WakeAll(threads, false), EmptySleeper) == Count(threads, EmptySleeper)
              && Count(WakeAll(threads, false), EmptyWoken) == Count(threads, EmptyWoken)
  {
    if threads != [] {
      WakeAllCounts(threads[1..], onEmpty);
      var woken := WakeAll(threads, onEmpty);
      assert woken[1..] == WakeAll(threads[1..], onEmpty);
      hide WakeAll;
    }
  }

  lemma {:induction false} WakeAllThreads<T>(threads: seq<Thread<T>>, onEmpty: bool)
    ensures forall k :: 0 <= k < |threads| ==>
              WakeAll(threads, onEmpty)[k]
              == if (if onEmpty then SleepsOnEmpty(threads[k]) else SleepsOnFull(threads[k])) then Wake(threads[k])
                 else threads[k]
  {
    if threads != [] {
      WakeAllThreads(threads[1..], onEmpty);
    }
  }

  // ---------------------------------------------------------------- the invariant

  /** Items in the queue and sleeping consumers: every item is on its way to somebody. */
  predicate ConsumersCovered<T>(s: State<T>) {
    Count(s.threads, EmptySleeper) > 0 ==>
      if s.running then
        || |s.queue| <= Count(s.threads, EmptyNotifier) + Count(s.threads, EmptyWoken)
        || Count(s.threads, EmptyBroadcaster) > 0
      else
        Count(s.threads, EmptyCloser) > 0
  }

  /** Free slots and sleeping producers, in the same way. */
  predicate ProducersCovered<T>(s: State<T>) {
    Count(s.threads, FullSleeper) > 0 ==>
      if s.running then
        s.capacity - |s.queue| <= Count(s.threads, FullNotifier) + Count(s.threads, FullWoken)
      else
        Count(s.threads, EmptyCloser) + Count(s.threads, FullCloser) > 0
  }

  predicate NeverPeeks<T>(threads: seq<Thread<T>>) {
    forall k | 0 <= k < |threads| :: !threads[k].Peeking? && !threads[k].PeekAsleep? && !threads[k].PeekWoken?
  }

  /** A batch push waits only for room for something. */
  predicate BatchesWaitWithItems<T>(threads: seq<Thread<T>>) {
    forall k | 0 <= k < |threads| :: threads[k].BatchAsleep? || threads[k].BatchWoken? ==> |threads[k].items| > 0
  }

  predicate Inv<T(==)>(s: State<T>) {
    && |s.queue| <= s.capacity
    && s.accepted == s.taken + s.queue
    && NeverPeeks(s.threads)
    && BatchesWaitWithItems(s.threads)
    && ConsumersCovered(s)
    && ProducersCovered(s)
  }

  // ---------------------------------------------------------------- every step keeps it

  lemma PushKeepsInv<T>(s: State<T>, id: nat, x: T)
    requires Inv(s) && id < |s.threads| && (s.threads[id] == Pushing(x) || s.threads[id] == PushWoken(x))
    ensures Inv(PushSection(s, id, x))
  {
    hide Count;
    CountsAfterUpdate(s.threads, id, PushSection(s, id, x).threads[id]);
  }

  lemma BatchKeepsInv<T>(s: State<T>, id: nat, xs: seq<T>)
    requires Inv(s) && id < |s.threads| && (s.threads[id] == BatchPushing(xs) || s.threads[id] == BatchWoken(xs))
    ensures Inv(BatchSection(s, id, xs))
  {
    hide Count;
    CountsAfterUpdate(s.threads, id, BatchSection(s, id, xs).threads[id]);
  }

  lemma TakeKeepsInv<T>(s: State<T>, id: nat)
    requires Inv(s) && id < |s.threads| && s.queue != []
    requires s.threads[id].Popping? || s.threads[id].PopWoken? || s.threads[id].TryPopping?
    ensures Inv(Take(s, id))
  {
    hide Count;
    CountsAfterUpdate(s.threads, id, NotifyingFull);
  }

  /** A thread that moves to another place without touching the queue. */
  lemma MoveKeepsInv<T>(s: State<T>, id: nat, t: Thread<T>)
    requires Inv(s) && id < |s.threads| && NeverPeeks([t])
    requires RoleOf(s.threads[id]) == Other || (s.queue == [] && s.threads[id].PopWoken?)
    requires RoleOf(t) == Other || (t.PopAsleep? && s.running && s.queue == [])
    ensures Inv(s.(threads := s.threads[id := t]))
  {
    hide Count;
    assert !t.Peeking? && !t.PeekAsleep? && !t.PeekWoken? by {
      assert [t][0] == t;
    }
    CountsAfterUpdate(s.threads, id, t);
  }

  lemma CloseKeepsInv<T>(s: State<T>, id: nat)
    requires Inv(s) && id < |s.threads| && s.threads[id].Closing?
    ensures Inv(s.(running := false, threads := s.threads[id := ClosingEmpty]))
  {
    hide Count;
    CountsAfterUpdate(s.threads, id, ClosingEmpty);
  }

  lemma LockedKeepsInv<T>(s: State<T>, id: nat)
    requires Inv(s) && id < |s.threads| && Locked(s, id).Some?
    ensures Inv(Locked(s, id).value)
  {
    hide Inv, Count, PushSection, BatchSection, Take;
    var t := s.threads[id];
    PeeksNever(s, id);
    if t.Pushing? || t.PushWoken? {
      PushKeepsInv(s, id, t.item);
    } else if t.BatchPushing? || t.BatchWoken? {
      BatchKeepsInv(s, id, t.items);
    } else if t.Closing? {
      CloseKeepsInv(s, id);
    } else if s.queue != [] {
      TakeKeepsInv(s, id);
    } else if s.running && !t.TryPopping? {
      MoveKeepsInv(s, id, PopAsleep);
    } else {
      MoveKeepsInv(s, id, Idle);
    }
  }

  lemma PeeksNever<T>(s: State<T>, id: nat)
    requires Inv(s) && id < |s.threads|
    ensures !s.threads[id].Peeking? && !s.threads[id].PeekAsleep? && !s.threads[id].PeekWoken?
    ensures s.threads[id].BatchAsleep? || s.threads[id].BatchWoken? ==> |s.threads[id].items| > 0
  {
  }

  lemma NotifyNobodyKeepsInv<T>(s: State<T>, id: nat)
    requires Inv(s) && id < |s.threads|
    requires s.threads[id].NotifyingEmpty? || s.threads[id].NotifyingFull?
    requires MayWake(s.threads, None, s.threads[id].NotifyingEmpty?)
    ensures Inv(s.(threads := s.threads[id := Idle]))
  {
    hide Count;
    CountZero(s.threads, if s.threads[id].NotifyingEmpty? then EmptySleeper else FullSleeper);
    CountsAfterUpdate(s.threads, id, Idle);
  }

  lemma UpdateKeepsCalls<T>(threads: seq<Thread<T>>, id: nat, t: Thread<T>)
    requires NeverPeeks(threads) && BatchesWaitWithItems(threads) && id < |threads|
    requires NeverPeeks([t]) && BatchesWaitWithItems([t])
    ensures NeverPeeks(threads[id := t]) && BatchesWaitWithItems(threads[id := t])
  {
    assert [t][0] == t;
  }

  /** A notification that wakes somebody: one sleeper and one notifier less, one woken thread more. */
  lemma WokenCount<T>(threads: seq<Thread<T>>, id: nat, k: nat, role: Role)
    requires id < |threads| && (threads[id].NotifyingEmpty? || threads[id].NotifyingFull?)
    requires MayWake(threads, Some(k), threads[id].NotifyingEmpty?) && !threads[k].PeekAsleep? && role != Other
    ensures var after, before := Count(WakeOne(threads, Some(k))[id := Idle], role), Count(threads, role);
            match role
            case EmptySleeper | EmptyNotifier => after == before - if threads[id].NotifyingEmpty? then 1 else 0
            case FullSleeper | FullNotifier => after == before - if threads[id].NotifyingFull? then 1 else 0
            case EmptyWoken => after == before + if threads[id].NotifyingEmpty? then 1 else 0
            case FullWoken => after == before + if threads[id].NotifyingFull? then 1 else 0
            case _ => after == before
  {
    hide Count;
    var woken := WakeOne(threads, Some(k));
    assert woken[id] == threads[id];
    CountUpdate(threads, k, Wake(threads[k]), role);
    CountUpdate(woken, id, Idle, role);
  }

  lemma NotifySomebodyKeepsInv<T>(s: State<T>, id: nat, k: nat)
    requires Inv(s) && id < |s.threads|
    requires s.threads[id].NotifyingEmpty? || s.threads[id].NotifyingFull?
    requires MayWake(s.threads, Some(k), s.threads[id].NotifyingEmpty?)
    ensures Inv(s.(threads := WakeOne(s.threads, Some(k))[id := Idle]))
  {
    PeeksNever(s, k);
    UpdateKeepsCalls(s.threads, k, Wake(s.threads[k]));
    UpdateKeepsCalls(WakeOne(s.threads, Some(k)), id, Idle);
    hide Count, NeverPeeks, BatchesWaitWithItems, WakeOne, MayWake;
    WokenCount(s.threads, id, k, EmptySleeper);
    WokenCount(s.threads, id, k, FullSleeper);
    WokenCount(s.threads, id, k, EmptyWoken);
    WokenCount(s.threads, id, k, FullWoken);
    WokenCount(s.threads, id, k, EmptyNotifier);
    WokenCount(s.threads, id, k, FullNotifier);
    WokenCount(s.threads, id, k, EmptyBroadcaster);
    WokenCount(s.threads, id, k, EmptyCloser);
    WokenCount(s.threads, id, k, FullCloser);
  }

  lemma NotifyAllEmptyKeepsInv<T>(s: State<T>, id: nat, t: Thread<T>)
    requires Inv(s) && id < |s.threads|
    requires match s.threads[id]
             case NotifyingAllEmpty(rest) => t == BatchPushing(rest)
             case ClosingEmpty => t == ClosingFull
             case _ => false
    ensures Inv(s.(threads := WakeAll(s.threads, true)[id := t]))
  {
    hide Count, WakeAll;
    WakeAllCounts(s.threads, true);
    WakeAllThreads(s.threads, true);
    CountsAfterUpdate(WakeAll(s.threads, true), id, t);
  }

  lemma NotifyAllFullKeepsInv<T>(s: State<T>, id: nat)
    requires Inv(s) && id < |s.threads| && s.threads[id].ClosingFull?
    ensures Inv(s.(threads := WakeAll(s.threads, false)[id := Idle]))
  {
    hide Count, WakeAll;
    WakeAllCounts(s.threads, false);
    WakeAllThreads(s.threads, false);
    CountsAfterUpdate(WakeAll(s.threads, false), id, Idle);
  }

  lemma SpuriousKeepsInv<T>(s: State<T>, id: nat)
    requires Inv(s) && id < |s.threads| && (SleepsOnEmpty(s.threads[id]) || SleepsOnFull(s.threads[id]))
    ensures Inv(s.(threads := s.threads[id := Wake(s.threads[id])]))
  {
    hide Count;
    PeeksNever(s, id);
    CountsAfterUpdate(s.threads, id, Wake(s.threads[id]));
  }

  lemma ActionKeepsInv<T>(s: State<T>, a: Action<T>)
    requires Inv(s) && Next(s, a).Some? && !(a.Call? && a.entry.Peeking?)
    ensures Inv(Next(s, a).value) && Next(s, a).value.capacity == s.capacity
  {
    hide Inv, Count, Locked, WakeAll;
    var t := s.threads[a.id];
    match a
    case Call(id, entry) => MoveKeepsInv(s, id, entry);
    case Lock(id) =>
      LockedKeepsInv(s, id);
      LockedKeepsCapacity(s, id);
    case NotifyOne(id, woken) =>
      if woken.Some? {
        NotifySomebodyKeepsInv(s, id, woken.value);
      } else {
        NotifyNobodyKeepsInv(s, id);
      }
    case NotifyAll(id) =>
      match t {
        case NotifyingAllEmpty(rest) => NotifyAllEmptyKeepsInv(s, id, BatchPushing(rest));
        case ClosingEmpty => NotifyAllEmptyKeepsInv(s, id, ClosingFull);
        case _ => NotifyAllFullKeepsInv(s, id);
      }
    case Spurious(id) => SpuriousKeepsInv(s, id);
  }

  lemma LockedKeepsCapacity<T>(s: State<T>, id: nat)
    requires id < |s.threads| && Locked(s, id).Some?
    ensures Locked(s, id).value.capacity == s.capacity
  {
  }

  predicate UsesFront<T>(actions: seq<Action<T>>) {
    exists k | 0 <= k < |actions| :: actions[k].Call? && actions[k].entry.Peeking?
  }

  /** In every run without front(), at every point: the queue respects its capacity, items leave in the
      order in which they entered and none is lost, and every sleeper that could go on is covered. */
  lemma {:induction false} EveryRunKeepsInv<T>(capacity: nat, threads: nat, actions: seq<Action<T>>)
    requires Run(capacity, threads, actions).Some? && !UsesFront(actions)
    ensures Inv(Run(capacity, threads, actions).value)
    ensures Run(capacity, threads, actions).value.capacity == capacity
  {
    if actions == [] {
      var s := Start<T>(capacity, threads);
      CountZero(s.threads, EmptySleeper);
      CountZero(s.threads, FullSleeper);
    } else {
      hide Inv, Next;
      var n := |actions| - 1;
      var before := actions[..n];
      assert forall k :: 0 <= k < n ==> before[k] == actions[k];
      EveryRunKeepsInv(capacity, threads, before);
      ActionKeepsInv(Run(capacity, threads, before).value, actions[n]);
    }
  }

  // ---------------------------------------------------------------- no lost wake-up

  /** No thread can go on by itself: all are idle or asleep. */
  predicate Quiet<T>(s: State<T>) {
    forall k | 0 <= k < |s.threads| :: s.threads[k].Idle? || SleepsOnEmpty(s.threads[k]) || SleepsOnFull(s.threads[k])
  }

  predicate SomeConsumerSleeps<T>(s: State<T>) {
    exists k | 0 <= k < |s.threads| :: SleepsOnEmpty(s.threads[k])
  }

  predicate SomeProducerSleeps<T>(s: State<T>) {
    exists k | 0 <= k < |s.threads| :: SleepsOnFull(s.threads[k])
  }

  /** When everything has come to rest, a consumer sleeps only at an empty queue that is still open, and
      a producer only at a full one that is still open. */
  lemma {:induction false} NoLostWakeup<T>(capacity: nat, threads: nat, actions: seq<Action<T>>)
    requires Run(capacity, threads, actions).Some? && !UsesFront(actions)
    requires Quiet(Run(capacity, threads, actions).value)
    ensures var s := Run(capacity, threads, actions).value;
            && (SomeConsumerSleeps(s) ==> s.running && s.queue == [])
            && (SomeProducerSleeps(s) ==> s.running && |s.queue| == s.capacity)
            && (capacity > 0 ==> !(SomeConsumerSleeps(s) && SomeProducerSleeps(s)))
  {
    EveryRunKeepsInv(capacity, threads, actions);
    RestIsCovered(Run(capacity, threads, actions).value);
  }

  lemma RestIsCovered<T>(s: State<T>)
    requires Inv(s) && Quiet(s)
    ensures SomeConsumerSleeps(s) ==> s.running && s.queue == []
    ensures SomeProducerSleeps(s) ==> s.running && |s.queue| == s.capacity
  {
    hide Count;
    CountZero(s.threads, EmptySleeper);
    CountZero(s.threads, FullSleeper);
    CountZero(s.threads, EmptyNotifier);
    CountZero(s.threads, EmptyWoken);
    CountZero(s.threads, EmptyBroadcaster);
    CountZero(s.threads, EmptyCloser);
    CountZero(s.threads, FullNotifier);
    CountZero(s.threads, FullWoken);
    CountZero(s.threads, FullCloser);
  }

  /** A quiet thread really cannot move, and any other thread can: rest is exactly Quiet. */
  lemma QuietIffStuck<T>(s: State<T>)
    ensures Quiet(s) <==> forall a: Action<T> :: !a.Call? && !a.Spurious? ==> Next(s, a) == None
  {
    if !Quiet(s) {
      var k :|
        && 0 <= k < |s.threads|
        && !(s.threads[k].Idle? || SleepsOnEmpty(s.threads[k]) || SleepsOnFull(s.threads[k]));
      var t := s.threads[k];
      if t.NotifyingEmpty? || t.NotifyingFull? {
        if j :| 0 <= j < |s.threads| && (if t.NotifyingEmpty? then SleepsOnEmpty(s.threads[j])
                                         else SleepsOnFull(s.threads[j])) {
          assert Next(s, NotifyOne(k, Some(j))).Some?;
        } else {
          assert Next(s, NotifyOne(k, None)).Some?;
        }
      } else if t.NotifyingAllEmpty? || t.ClosingEmpty? || t.ClosingFull? {
        assert Next(s, NotifyAll(k)).Some?;
      } else {
        assert Next(s, Lock(k)).Some?;
      }
    }
  }

  /** After close() nothing is accepted any more, whatever was under way; what is inside can still be
      taken out. */
  lemma ClosedAcceptsNothing<T>(s: State<T>, a: Action<T>)
    requires !s.running && Next(s, a).Some?
    ensures !Next(s, a).value.running && Next(s, a).value.accepted == s.accepted
    ensures a.Lock? && (s.threads[a.id].Popping? || s.threads[a.id].TryPopping?) && s.queue != [] ==>
              Next(s, a).value.taken == s.taken + [s.queue[0]]
  {
  }

  // ---------------------------------------------------------------- where front() breaks it

  /** Thread 0 sleeps in pop() and thread 1 in front(). */
  lemma BothSleep() returns (a: seq<Action<int>>)
    ensures Run(1, 3, a) == Some(State([], 1, true, [PopAsleep, PeekAsleep, Idle], [], []))
  {
    var s: State<int> := Start(1, 3);
    a := [];
    assert Run(1, 3, a) == Some(s);
    hide Run;
    a, s := Extend(1, 3, a, s, Call(0, Popping));
    a, s := Extend(1, 3, a, s, Lock(0));
    a, s := Extend(1, 3, a, s, Call(1, Peeking));
    a, s := Extend(1, 3, a, s, Lock(1));
    assert s.threads == [PopAsleep, PeekAsleep, Idle];
  }

  /** A waiting front() can use up the only notification: the item stays in the queue, a consumer in
      pop() sleeps on, and nothing moves any more. */
  lemma FrontLosesWakeup(x: int)
    ensures exists actions: seq<Action<int>> ::
              && Run(1, 3, actions).Some?
              && Quiet(Run(1, 3, actions).value)
              && SomeConsumerSleeps(Run(1, 3, actions).value)
              && Run(1, 3, actions).value.queue == [x]
  {
    hide Run;
    var a := BothSleep();
    var s: State<int> := State([], 1, true, [PopAsleep, PeekAsleep, Idle], [], []);
    a, s := Extend(1, 3, a, s, Call(2, Pushing(x)));
    a, s := Extend(1, 3, a, s, Lock(2));
    a, s := Extend(1, 3, a, s, NotifyOne(2, Some(1)));
    a, s := Extend(1, 3, a, s, Lock(1));
    assert SleepsOnEmpty(s.threads[0]);
  }

  lemma Extend<T>(capacity: nat, threads: nat, actions: seq<Action<T>>, s: State<T>, a: Action<T>)
    returns (longer: seq<Action<T>>, after: State<T>)
    requires Run(capacity, threads, actions) == Some(s) && Next(s, a).Some?
    ensures longer == actions + [a] && Next(s, a) == Some(after)
    ensures Run(capacity, threads, longer) == Some(after)
  {
    longer, after := actions + [a], Next(s, a).value;
    assert longer[..|actions|] == actions;
  }
}
