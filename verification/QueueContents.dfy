/** What goes through the queue, told by the calls: every item offered is accepted, still held by its caller,
    or given up at a closed queue, and what is accepted comes out in the same order. */
module QueueContents {
  import opened Options
  import opened Numbers
  import opened BoundedQueue

  /** The items that a call brings. */
  function OfferedBy<T>(a: Action<T>): seq<T> {
    if a.Call? && a.entry.Pushing? then [a.entry.item]
    else if a.Call? && a.entry.BatchPushing? then a.entry.items
    else []
  }

  function Offered<T>(actions: seq<Action<T>>): multiset<T> {
    if actions == [] then multiset{}
    else Offered(actions[..|actions| - 1]) + multiset(OfferedBy(actions[|actions| - 1]))
  }

  /** The items that a thread has still to hand over. */
  function ItemsOf<T>(t: Thread<T>): seq<T> {
    match t
    case Pushing(x) => [x]
    case PushAsleep(x) => [x]
    case PushWoken(x) => [x]
    case BatchPushing(xs) => xs
    case BatchAsleep(xs) => xs
    case BatchWoken(xs) => xs
    case NotifyingAllEmpty(xs) => xs
    case _ => []
  }

  function AllHeld<T>(threads: seq<Thread<T>>): multiset<T> {
    if threads == [] then multiset{} else multiset(ItemsOf(threads[0])) + AllHeld(threads[1..])
  }

  /** The items of a thread that takes the mutex of a closed queue. */
  function GivenUpBy<T>(s: State<T>, a: Action<T>): seq<T> {
    if a.Lock? && a.id < |s.threads| && !s.running then ItemsOf(s.threads[a.id]) else []
  }

  function GivenUp<T>(capacity: nat, threads: nat, actions: seq<Action<T>>): multiset<T>
    requires Run(capacity, threads, actions).Some?
  {
    if actions == [] then multiset{}
    else
      var before := actions[..|actions| - 1];
      GivenUp(capacity, threads, before)
      + multiset(GivenUpBy(Run(capacity, threads, before).value, actions[|actions| - 1]))
  }

  // ---------------------------------------------------------------- one section under the mutex

  /** A push at an open queue hands over its items in their order, as many as there is room for; at a closed
      one it hands over nothing and ends. */
  lemma PushHandsOver<T>(s: State<T>, id: nat)
    requires id < |s.threads| && |s.queue| <= s.capacity && Next(s, Lock(id)).Some?
    requires var t := s.threads[id]; t.Pushing? || t.PushWoken? || t.BatchPushing? || t.BatchWoken?
    ensures var t := Next(s, Lock(id)).value;
            && t.taken == s.taken && t.running == s.running
            && |t.queue| <= s.capacity
            && (s.running ==>
                  && t.accepted + ItemsOf(t.threads[id]) == s.accepted + ItemsOf(s.threads[id])
                  && t.queue + ItemsOf(t.threads[id]) == s.queue + ItemsOf(s.threads[id])
                  && (ItemsOf(t.threads[id]) == [] || |t.queue| == s.capacity))
            && (!s.running ==> t.accepted == s.accepted && t.queue == s.queue && t.threads[id].Idle?)
  {
    var t := s.threads[id];
    if t.BatchPushing? || t.BatchWoken? {
      assert Next(s, Lock(id)).value == BatchSection(s, id, t.items);
      BatchHandsOver(s, id, t.items);
    }
  }

  lemma BatchHandsOver<T>(s: State<T>, id: nat, xs: seq<T>)
    requires id < |s.threads| && |s.queue| <= s.capacity
    ensures var t := BatchSection(s, id, xs);
            && t.taken == s.taken && t.running == s.running && |t.queue| <= s.capacity
            && (s.running ==>
                  && t.accepted + ItemsOf(t.threads[id]) == s.accepted + xs
                  && t.queue + ItemsOf(t.threads[id]) == s.queue + xs
                  && (ItemsOf(t.threads[id]) == [] || |t.queue| == s.capacity))
            && (!s.running ==> t.accepted == s.accepted && t.queue == s.queue && t.threads[id].Idle?)
  {
    if s.running && xs != [] && |s.queue| < s.capacity {
      var n := Min(|xs|, s.capacity - |s.queue|);
      JoinedAgain(s.queue, xs, n);
      JoinedAgain(s.accepted, xs, n);
    }
  }

  lemma JoinedAgain<T>(front: seq<T>, xs: seq<T>, n: nat)
    requires n <= |xs|
    ensures (front + xs[..n]) + xs[n..] == front + xs
  {
    assert xs == xs[..n] + xs[n..];
  }

  /** pop() and try_pop() take the head of a queue that has one; they end with nothing only at an empty queue,
      pop() only at a closed one. */
  lemma PopTakesHead<T>(s: State<T>, id: nat)
    requires id < |s.threads| && Next(s, Lock(id)).Some?
    requires var t := s.threads[id]; t.Popping? || t.PopWoken? || t.TryPopping?
    ensures var t := Next(s, Lock(id)).value;
            && t.accepted == s.accepted && t.running == s.running
            && s.queue == t.taken[|s.taken|..] + t.queue && s.taken <= t.taken
            && |t.taken| == |s.taken| + (if s.queue == [] then 0 else 1)
            && (t.threads[id].Idle? ==> s.queue == [] && (s.threads[id].TryPopping? || !s.running))
  {
  }

  /** front() and close() leave the contents alone; close() closes. */
  lemma OthersKeepContents<T>(s: State<T>, a: Action<T>)
    requires Next(s, a).Some?
    requires a.Lock? ==> var t := s.threads[a.id]; t.Peeking? || t.PeekWoken? || t.Closing?
    ensures var t := Next(s, a).value;
            && t.queue == s.queue && t.accepted == s.accepted && t.taken == s.taken && t.capacity == s.capacity
            && t.running == (s.running && !(a.Lock? && s.threads[a.id].Closing?))
  {
  }

  /** The threads that can take the mutex. */
  lemma LockIsOneOf<T>(s: State<T>, id: nat)
    requires id < |s.threads| && Next(s, Lock(id)).Some?
    ensures var t := s.threads[id];
            || t.Pushing? || t.PushWoken? || t.BatchPushing? || t.BatchWoken?
            || t.Popping? || t.PopWoken? || t.TryPopping? || t.Peeking? || t.PeekWoken? || t.Closing?
  {
  }

  /** What a thread can do: call any of the operations while it is outside, have its section wherever it needs the
      mutex, notify everybody where the operation does, and wake up on its own while it is asleep. */
  lemma PossibleIff<T>(s: State<T>, id: nat, entry: Thread<T>)
    requires id < |s.threads|
    ensures Next(s, Call(id, entry)).Some?
            <==> s.threads[id].Idle?
                 && (entry.Pushing? || entry.BatchPushing? || entry.Popping? || entry.TryPopping? || entry.Peeking?
                     || entry.Closing?)
    ensures var t := s.threads[id];
            Next(s, Lock(id)).Some?
            <==> || t.Pushing? || t.PushWoken? || t.BatchPushing? || t.BatchWoken?
                 || t.Popping? || t.PopWoken? || t.TryPopping? || t.Peeking? || t.PeekWoken? || t.Closing?
    ensures var t := s.threads[id];
            Next(s, NotifyAll(id)).Some? <==> t.NotifyingAllEmpty? || t.ClosingEmpty? || t.ClosingFull?
    ensures var t := s.threads[id];
            Next(s, Spurious(id)).Some? <==> t.PushAsleep? || t.BatchAsleep? || t.PopAsleep? || t.PeekAsleep?
  {
    hide WakeAll, PushSection, BatchSection, PopSection, PeekSection, Take;
  }

  // ---------------------------------------------------------------- what the threads hold

  /** How often an item is held after one thread has changed. */
  lemma {:induction false} HeldUpdate<T>(threads: seq<Thread<T>>, id: nat, t: Thread<T>, x: T)
    requires id < |threads|
    ensures AllHeld(threads[id := t])[x] + multiset(ItemsOf(threads[id]))[x]
            == AllHeld(threads)[x] + multiset(ItemsOf(t))[x]
  {
    hide ItemsOf;
    if id == 0 {
      assert threads[0 := t][1..] == threads[1..];
    } else {
      HeldUpdate(threads[1..], id - 1, t, x);
      assert threads[id := t][1..] == threads[1..][id - 1 := t];
    }
  }

  lemma WakeKeepsItems<T>(t: Thread<T>)
    ensures ItemsOf(Wake(t)) == ItemsOf(t)
  {
  }

  lemma {:induction false} WakeAllKeepsHeld<T>(threads: seq<Thread<T>>, onEmpty: bool)
    ensures AllHeld(WakeAll(threads, onEmpty)) == AllHeld(threads)
  {
    hide ItemsOf, Wake;
    if threads != [] {
      WakeAllKeepsHeld(threads[1..], onEmpty);
      WakeKeepsItems(threads[0]);
      assert WakeAll(threads, onEmpty)[1..] == WakeAll(threads[1..], onEmpty);
    }
  }

  /** What one action does to the number of copies of an item that are accepted or held. */
  ghost predicate Accounts<T>(s: State<T>, a: Action<T>, t: State<T>, x: T) {
    multiset(t.accepted)[x] + AllHeld(t.threads)[x] + multiset(GivenUpBy(s, a))[x]
    == multiset(s.accepted)[x] + AllHeld(s.threads)[x] + multiset(OfferedBy(a))[x]
  }

  lemma LockChangesOne<T>(s: State<T>, id: nat)
    requires id < |s.threads| && Next(s, Lock(id)).Some?
    ensures var t := Next(s, Lock(id)).value;
            && |t.threads| == |s.threads| && t.threads == s.threads[id := t.threads[id]] && t.capacity == s.capacity
            && (ItemsOf(s.threads[id]) == [] ==> ItemsOf(t.threads[id]) == [])
  {
  }

  /** A section under the mutex keeps the items of the thread and of the queue together, but for those given up. */
  lemma LockKeepsItems<T>(s: State<T>, id: nat)
    requires |s.queue| <= s.capacity && Next(s, Lock(id)).Some?
    ensures var t := Next(s, Lock(id)).value;
            var held := ItemsOf(s.threads[id]);
            && |t.threads| == |s.threads|
            && (s.running ==> t.accepted + ItemsOf(t.threads[id]) == s.accepted + held)
            && (!s.running ==> t.accepted == s.accepted && ItemsOf(t.threads[id]) == [])
  {
    var t := s.threads[id];
    LockIsOneOf(s, id);
    LockChangesOne(s, id);
    if t.Pushing? || t.PushWoken? || t.BatchPushing? || t.BatchWoken? {
      PushHandsOver(s, id);
    } else if t.Popping? || t.PopWoken? || t.TryPopping? {
      PopTakesHead(s, id);
    } else {
      OthersKeepContents(s, Lock(id));
    }
  }

  lemma CountsAppend<T>(a: seq<T>, b: seq<T>, x: T)
    ensures multiset(a + b)[x] == multiset(a)[x] + multiset(b)[x]
  {
    assert multiset(a + b) == multiset(a) + multiset(b);
  }

  lemma LockAccounts<T>(s: State<T>, id: nat, x: T)
    requires |s.queue| <= s.capacity && Next(s, Lock(id)).Some?
    ensures Accounts(s, Lock(id), Next(s, Lock(id)).value, x)
  {
    var t := Next(s, Lock(id)).value;
    assert id < |s.threads|;
    LockChangesOne(s, id);
    LockKeepsItems(s, id);
    hide Next, AllHeld, ItemsOf;
    HeldUpdate(s.threads, id, t.threads[id], x);
    if s.running {
      CountsAppend(t.accepted, ItemsOf(t.threads[id]), x);
      CountsAppend(s.accepted, ItemsOf(s.threads[id]), x);
    }
  }

  /** Outside the mutex items only come in with a call. */
  lemma OutsideAccounts<T>(s: State<T>, a: Action<T>, x: T)
    requires Next(s, a).Some? && !a.Lock?
    ensures Accounts(s, a, Next(s, a).value, x)
  {
    OthersKeepContents(s, a);
    NothingGivenUpOutside(s, a);
    match a
    case Call(id, entry) => CallAccounts(s, id, entry, x);
    case NotifyOne(id, woken) => NotifyOneAccounts(s, id, woken, x);
    case NotifyAll(id) => NotifyAllAccounts(s, id, x);
    case Spurious(id) =>
      HeldUpdate(s.threads, id, Wake(s.threads[id]), x);
      WakeKeepsItems(s.threads[id]);
  }

  lemma NothingGivenUpOutside<T>(s: State<T>, a: Action<T>)
    ensures !a.Lock? ==> GivenUpBy(s, a) == []
    ensures !a.Call? ==> OfferedBy(a) == []
  {
  }

  lemma CallAccounts<T>(s: State<T>, id: nat, entry: Thread<T>, x: T)
    requires Next(s, Call(id, entry)).Some?
    ensures AllHeld(Next(s, Call(id, entry)).value.threads)[x]
            == AllHeld(s.threads)[x] + multiset(OfferedBy(Call(id, entry)))[x]
  {
    CallOffers(s.threads[id], Call(id, entry));
    hide AllHeld, ItemsOf, OfferedBy;
    HeldUpdate(s.threads, id, entry, x);
  }

  lemma NotifyOneWakes<T>(s: State<T>, id: nat, woken: Option<nat>)
    requires Next(s, NotifyOne(id, woken)).Some?
    ensures id < |s.threads| && ItemsOf(s.threads[id]) == []
    ensures woken.Some? ==> woken.value < |s.threads| && woken.value != id
    ensures Next(s, NotifyOne(id, woken)).value.threads == WakeOne(s.threads, woken)[id := Idle]
  {
  }

  lemma NotifyOneAccounts<T>(s: State<T>, id: nat, woken: Option<nat>, x: T)
    requires Next(s, NotifyOne(id, woken)).Some?
    ensures AllHeld(Next(s, NotifyOne(id, woken)).value.threads)[x] == AllHeld(s.threads)[x]
  {
    NotifyOneWakes(s, id, woken);
    assert ItemsOf<T>(Idle) == [];
    hide Next, AllHeld, ItemsOf;
    if woken.Some? {
      HeldUpdate(s.threads, woken.value, Wake(s.threads[woken.value]), x);
      WakeKeepsItems(s.threads[woken.value]);
    }
    HeldUpdate(WakeOne(s.threads, woken), id, Idle, x);
  }

  /** What a thread becomes after notify_all. */
  function Told<T>(t: Thread<T>): Thread<T> {
    if t.NotifyingAllEmpty? then BatchPushing(t.items) else if t.ClosingEmpty? then ClosingFull else Idle
  }

  lemma ToldKeepsItems<T>(t: Thread<T>)
    requires t.NotifyingAllEmpty? || t.ClosingEmpty? || t.ClosingFull?
    ensures ItemsOf(Told(t)) == ItemsOf(t) && !SleepsOnEmpty(t) && !SleepsOnFull(t)
  {
  }

  lemma NotifyAllTells<T>(s: State<T>, id: nat)
    requires Next(s, NotifyAll(id)).Some?
    ensures id < |s.threads|
    ensures var t := s.threads[id];
            && (t.NotifyingAllEmpty? || t.ClosingEmpty? || t.ClosingFull?)
            && Next(s, NotifyAll(id)).value.threads == WakeAll(s.threads, !t.ClosingFull?)[id := Told(t)]
  {
    hide WakeAll;
  }

  lemma NotifyAllAccounts<T>(s: State<T>, id: nat, x: T)
    requires Next(s, NotifyAll(id)).Some?
    ensures AllHeld(Next(s, NotifyAll(id)).value.threads)[x] == AllHeld(s.threads)[x]
  {
    NotifyAllTells(s, id);
    hide Next, AllHeld, ItemsOf, WakeAll, Told;
    var t, onEmpty := s.threads[id], !s.threads[id].ClosingFull?;
    ToldKeepsItems(t);
    WakeAllKeepsHeld(s.threads, onEmpty);
    WakeAllThreads(s.threads, onEmpty);
    assert WakeAll(s.threads, onEmpty)[id] == t;
    HeldUpdate(WakeAll(s.threads, onEmpty), id, Told(t), x);
  }

  lemma CallOffers<T>(t: Thread<T>, a: Action<T>)
    requires t.Idle? && a.Call? && IsEntry(a.entry)
    ensures ItemsOf(t) == [] && ItemsOf(a.entry) == OfferedBy(a)
  {
  }

  // ---------------------------------------------------------------- every run

  ghost predicate InOrder<T>(s: State<T>) {
    |s.queue| <= s.capacity && s.accepted == s.taken + s.queue
  }

  lemma StepKeepsOrder<T>(s: State<T>, a: Action<T>)
    requires InOrder(s) && Next(s, a).Some?
    ensures InOrder(Next(s, a).value) && Next(s, a).value.capacity == s.capacity
  {
    var t := Next(s, a).value;
    if a.Lock? {
      LockIsOneOf(s, a.id);
      LockChangesOne(s, a.id);
      var u := s.threads[a.id];
      if u.Pushing? || u.PushWoken? || u.BatchPushing? || u.BatchWoken? {
        PushHandsOver(s, a.id);
        hide Next;
        if s.running {
          SameBehind(s.taken, s.queue, t.queue, s.accepted, t.accepted, ItemsOf(u), ItemsOf(t.threads[a.id]));
        }
      } else if u.Popping? || u.PopWoken? || u.TryPopping? {
        PopTakesHead(s, a.id);
        hide Next;
        assert t.taken == s.taken + t.taken[|s.taken|..];
      } else {
        OthersKeepContents(s, a);
      }
    } else {
      OthersKeepContents(s, a);
    }
  }

  lemma SameBehind<T>(
      taken: seq<T>, queue: seq<T>, longer: seq<T>, accepted: seq<T>, more: seq<T>, held: seq<T>, left: seq<T>)
    requires accepted == taken + queue && more + left == accepted + held && longer + left == queue + held
    ensures more == taken + longer
  {
    assert more + left == (taken + longer) + left by {
      assert accepted + held == taken + (queue + held);
      assert (taken + longer) + left == taken + (longer + left);
    }
    assert |more| == |taken + longer|;
    assert more == (more + left)[..|more|] && taken + longer == ((taken + longer) + left)[..|more|];
  }

  /** In every run, front() included, items leave in the order in which they were accepted, and none is lost
      or repeated on the way; the queue never exceeds its capacity. */
  lemma {:induction false} EveryRunKeepsOrder<T>(capacity: nat, threads: nat, actions: seq<Action<T>>)
    requires Run(capacity, threads, actions).Some?
    ensures InOrder(Run(capacity, threads, actions).value)
    ensures Run(capacity, threads, actions).value.capacity == capacity
  {
    if actions != [] {
      hide Next, InOrder;
      var n := |actions| - 1;
      EveryRunKeepsOrder(capacity, threads, actions[..n]);
      StepKeepsOrder(Run(capacity, threads, actions[..n]).value, actions[n]);
    }
  }

  lemma {:induction false} IdleHoldNothing<T>(threads: seq<Thread<T>>)
    requires forall k | 0 <= k < |threads| :: threads[k].Idle?
    ensures AllHeld(threads) == multiset{}
  {
    if threads != [] {
      IdleHoldNothing(threads[1..]);
    }
  }

  lemma {:induction false} CopiesAreAccountedFor<T>(capacity: nat, threads: nat, actions: seq<Action<T>>, x: T)
    requires Run(capacity, threads, actions).Some?
    ensures var s := Run(capacity, threads, actions).value;
            Offered(actions)[x]
            == multiset(s.accepted)[x] + AllHeld(s.threads)[x] + GivenUp(capacity, threads, actions)[x]
  {
    if actions == [] {
      IdleHoldNothing(Start<T>(capacity, threads).threads);
    } else {
      var n := |actions| - 1;
      CopiesAreAccountedFor(capacity, threads, actions[..n], x);
      EveryRunKeepsOrder(capacity, threads, actions[..n]);
      hide Next, AllHeld, GivenUpBy, OfferedBy;
      if actions[n].Lock? {
        LockAccounts(Run(capacity, threads, actions[..n]).value, actions[n].id, x);
      } else {
        OutsideAccounts(Run(capacity, threads, actions[..n]).value, actions[n], x);
      }
    }
  }

  /** Every item of every call is accepted, still held by the calling thread, or was given up at a closed
      queue, as often as it was offered. */
  lemma {:induction false} EveryItemIsAccountedFor<T(!new)>(capacity: nat, threads: nat, actions: seq<Action<T>>)
    requires Run(capacity, threads, actions).Some?
    ensures var s := Run(capacity, threads, actions).value;
            forall x ::
              Offered(actions)[x]
              == multiset(s.accepted)[x] + AllHeld(s.threads)[x] + GivenUp(capacity, threads, actions)[x]
  {
    forall x: T
      ensures var s := Run(capacity, threads, actions).value;
              Offered(actions)[x]
              == multiset(s.accepted)[x] + AllHeld(s.threads)[x] + GivenUp(capacity, threads, actions)[x]
    {
      CopiesAreAccountedFor(capacity, threads, actions, x);
    }
  }

  predicate Closes<T>(actions: seq<Action<T>>) {
    exists k | 0 <= k < |actions| :: actions[k].Call? && actions[k].entry.Closing?
  }

  predicate NobodyCloses<T>(threads: seq<Thread<T>>) {
    forall k | 0 <= k < |threads| :: !threads[k].Closing?
  }

  lemma NotifyAllClosesNothing<T>(s: State<T>, id: nat)
    requires NobodyCloses(s.threads) && Next(s, NotifyAll(id)).Some?
    ensures NobodyCloses(Next(s, NotifyAll(id)).value.threads)
  {
    NotifyAllTells(s, id);
    hide Next, WakeAll;
    WakeAllThreads(s.threads, !s.threads[id].ClosingFull?);
  }

  lemma StaysOpen<T>(s: State<T>, a: Action<T>)
    requires s.running && NobodyCloses(s.threads) && Next(s, a).Some? && !(a.Call? && a.entry.Closing?)
    ensures Next(s, a).value.running && NobodyCloses(Next(s, a).value.threads)
  {
    if a.NotifyAll? {
      OthersKeepContents(s, a);
      NotifyAllClosesNothing(s, a.id);
    }
  }

  /** Without a call of close() the queue stays open and nothing is given up. */
  lemma {:induction false} NothingIsGivenUp<T(!new)>(capacity: nat, threads: nat, actions: seq<Action<T>>)
    requires Run(capacity, threads, actions).Some? && !Closes(actions)
    ensures var s := Run(capacity, threads, actions).value;
            && s.running && NobodyCloses(s.threads) && GivenUp(capacity, threads, actions) == multiset{}
            && forall x :: Offered(actions)[x] == multiset(s.accepted)[x] + AllHeld(s.threads)[x]
  {
    EveryItemIsAccountedFor(capacity, threads, actions);
    if actions != [] {
      hide Next, NobodyCloses, AllHeld;
      var n := |actions| - 1;
      var before := actions[..n];
      assert forall k :: 0 <= k < n ==> before[k] == actions[k];
      NothingIsGivenUp(capacity, threads, before);
      StaysOpen(Run(capacity, threads, before).value, actions[n]);
    }
  }

  /** The k-th action is the section of a close() under the mutex. */
  predicate IsClose<T>(capacity: nat, threads: nat, actions: seq<Action<T>>, k: nat)
    requires k < |actions|
  {
    && Run(capacity, threads, actions[..k]).Some? && actions[k].Lock?
    && var s := Run(capacity, threads, actions[..k]).value;
       actions[k].id < |s.threads| && s.threads[actions[k].id].Closing?
  }

  /** Some close() has had its section under the mutex. */
  predicate HasClosed<T>(capacity: nat, threads: nat, actions: seq<Action<T>>) {
    exists k: nat | k < |actions| :: IsClose(capacity, threads, actions, k)
  }

  lemma IsCloseBefore<T>(capacity: nat, threads: nat, actions: seq<Action<T>>, k: nat)
    requires k < |actions| - 1
    ensures IsClose(capacity, threads, actions, k) <==> IsClose(capacity, threads, actions[..|actions| - 1], k)
  {
    assert actions[..k] == actions[..|actions| - 1][..k];
  }

  lemma HasClosedSplits<T>(capacity: nat, threads: nat, actions: seq<Action<T>>)
    requires actions != []
    ensures var n := |actions| - 1;
            HasClosed(capacity, threads, actions)
            <==> HasClosed(capacity, threads, actions[..n]) || IsClose(capacity, threads, actions, n)
  {
    hide IsClose;
    var n := |actions| - 1;
    forall k: nat | k < n
      ensures IsClose(capacity, threads, actions, k) <==> IsClose(capacity, threads, actions[..n], k)
    {
      IsCloseBefore(capacity, threads, actions, k);
    }
  }

  /** The queue is closed if and only if some close() has had its section under the mutex. */
  lemma {:induction false} ClosedIff<T>(capacity: nat, threads: nat, actions: seq<Action<T>>)
    requires Run(capacity, threads, actions).Some?
    ensures !Run(capacity, threads, actions).value.running <==> HasClosed(capacity, threads, actions)
  {
    if actions != [] {
      hide Next, HasClosed;
      var n := |actions| - 1;
      ClosedIff(capacity, threads, actions[..n]);
      HasClosedSplits(capacity, threads, actions);
      RunningAfter(Run(capacity, threads, actions[..n]).value, actions[n]);
    }
  }

  lemma RunningAfter<T>(s: State<T>, a: Action<T>)
    requires Next(s, a).Some?
    ensures a.id < |s.threads|
    ensures Next(s, a).value.running == (s.running && !(a.Lock? && s.threads[a.id].Closing?))
  {
  }
}
