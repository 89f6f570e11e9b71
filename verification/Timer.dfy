/** Periodic tasks of the timer manager (timer_manager.cpp). Each section under a lock is one step;
    the timer thread and any number of callers take their steps in any order. */
module Timers {
  import opened Options
  import opened Sequences

  datatype Task = Task(period: int, remaining: int)

  /** An entry of the deadline map, or of the queue of due callbacks: the next firing of a task. */
  datatype Entry = Entry(deadline: int, id: nat)

  /** A firing between its look at the task table and its end. */
  datatype Firing = Firing(id: nat, runs: bool, removes: bool)

  /** A run of a task's callback. */
  datatype Run = Run(id: nat, time: int)

  /** How a task was registered: kept for the statements only. */
  datatype Registration = Registration(period: int, count: int, start: int)

  datatype State = State(
    now: int,
    nextId: nat,
    tasks: map<nat, Task>,
    adding: set<nat>,
    pending: seq<Entry>,
    queue: seq<Entry>,
    firing: Option<Firing>,
    runs: seq<Run>,
    registered: map<nat, Registration>,
    cancelled: set<nat>)

  /** add_task_for reads the clock before it takes the lock: reading is the time that it has read. */
  datatype Step =
    | Register(period: int, count: int)
    | Schedule(id: nat, reading: int)
    | Cancel(id: nat)
    | Advance(duration: nat)
    | Expire
    | Fire(reading: int)
    | Finish

  /** Keeps the entries in the order of their deadlines, equal ones in the order of arrival. */
  function Insert(entries: seq<Entry>, e: Entry): seq<Entry> {
    if entries == [] then [e]
    else if entries[|entries| - 1].deadline <= e.deadline then entries + [e]
    else Insert(entries[..|entries| - 1], e) + [entries[|entries| - 1]]
  }

  /** How many entries at the front are due. */
  function DueCount(entries: seq<Entry>, now: int): (n: nat)
    ensures n <= |entries| && forall k | 0 <= k < n :: entries[k].deadline <= now
    ensures n < |entries| ==> entries[n].deadline > now
  {
    if entries == [] || entries[0].deadline > now then 0 else 1 + DueCount(entries[1..], now)
  }

  function FireStep(s: State, reading: int): State
    requires s.queue != []
  {
    var id := s.queue[0].id;
    var t := s.(queue := s.queue[1..]);
    if id !in s.tasks then t
    else
      var task := s.tasks[id];
      if task.remaining == 0 then t.(firing := Some(Firing(id, false, true)))
      else
        var remaining := if task.remaining > 0 then task.remaining - 1 else task.remaining;
        t.(tasks := s.tasks[id := task.(remaining := remaining)],
           pending := Insert(s.pending, Entry(reading + task.period, id)),
           firing := Some(Firing(id, true, false)))
  }

  /** A step that is not enabled changes nothing. */
  function Next(s: State, step: Step): State {
    match step
    case Register(period, count) =>
      s.(nextId := s.nextId + 1,
         tasks := s.tasks[s.nextId := Task(period, count)],
         adding := s.adding + {s.nextId},
         registered := s.registered[s.nextId := Registration(period, count, s.now)])
    case Schedule(id, reading) =>
      if id in s.adding && id in s.registered && s.registered[id].start <= reading <= s.now then
        s.(adding := s.adding - {id}, pending := Insert(s.pending, Entry(reading + s.registered[id].period, id)))
      else s
    case Cancel(id) =>
      s.(tasks := s.tasks - {id}, cancelled := if id in s.registered then s.cancelled + {id} else s.cancelled)
    case Advance(duration) =>
      s.(now := s.now + duration)
    case Expire =>
      if s.queue == [] && s.firing.None? then
        var n := DueCount(s.pending, s.now);
        s.(queue := s.pending[..n], pending := s.pending[n..])
      else s
    case Fire(reading) =>
      if s.queue != [] && s.firing.None? && s.queue[0].deadline <= reading <= s.now then FireStep(s, reading) else s
    case Finish =>
      match s.firing
      case None => s
      case Some(f) =>
        s.(firing := None,
           runs := s.runs + (if f.runs then [Run(f.id, s.now)] else []),
           tasks := if f.removes then s.tasks - {f.id} else s.tasks)
  }

  function After(s: State, steps: seq<Step>): State
    decreases |steps|
  {
    if steps == [] then s else Next(After(s, steps[..|steps| - 1]), steps[|steps| - 1])
  }

  function Start(now: int): State {
    State(now, 0, map[], {}, [], [], None, [], map[], {})
  }

  // ---------------------------------------------------------------- counting

  function CountOf(entries: seq<Entry>, id: nat): nat
    decreases |entries|
  {
    if entries == [] then 0
    else CountOf(entries[..|entries| - 1], id) + (if entries[|entries| - 1].id == id then 1 else 0)
  }

  function RunsOf(runs: seq<Run>, id: nat): nat
    decreases |runs|
  {
    if runs == [] then 0
    else RunsOf(runs[..|runs| - 1], id) + (if runs[|runs| - 1].id == id then 1 else 0)
  }

  /** The places where the next firing of a task can be. */
  function Tokens(s: State, id: nat): nat {
    (if id in s.adding then 1 else 0) + CountOf(s.pending, id) + CountOf(s.queue, id)
  }

  /** The runs of a task, counting one that is under way. */
  function Done(s: State, id: nat): nat {
    RunsOf(s.runs, id) + (if s.firing.Some? && s.firing.value.id == id && s.firing.value.runs then 1 else 0)
  }

  lemma {:induction false} CountAppend(a: seq<Entry>, b: seq<Entry>, id: nat)
    ensures CountOf(a + b, id) == CountOf(a, id) + CountOf(b, id)
    decreases |b|
  {
    if b == [] {
      assert a + b == a;
    } else {
      assert (a + b)[..|a + b| - 1] == a + b[..|b| - 1];
      CountAppend(a, b[..|b| - 1], id);
    }
  }

  lemma {:induction false} CountOne(e: Entry, id: nat)
    ensures CountOf([e], id) == if e.id == id then 1 else 0
  {
    assert [e][..0] == [];
  }

  lemma {:induction false} InsertCounts(entries: seq<Entry>, e: Entry, id: nat)
    ensures CountOf(Insert(entries, e), id) == CountOf(entries, id) + (if e.id == id then 1 else 0)
    decreases |entries|
  {
    CountOne(e, id);
    if entries == [] {
    } else if entries[|entries| - 1].deadline <= e.deadline {
      CountAppend(entries, [e], id);
    } else {
      var init, last := entries[..|entries| - 1], entries[|entries| - 1];
      InsertCounts(init, e, id);
      CountAppend(Insert(init, e), [last], id);
      CountOne(last, id);
    }
  }

  lemma {:induction false} InsertHas(entries: seq<Entry>, e: Entry)
    ensures forall x :: x in Insert(entries, e) <==> x in entries || x == e
    decreases |entries|
  {
    if entries != [] && entries[|entries| - 1].deadline > e.deadline {
      InsertHas(entries[..|entries| - 1], e);
      assert entries == entries[..|entries| - 1] + [entries[|entries| - 1]];
    }
  }

  predicate IsSorted(entries: seq<Entry>) {
    forall j, k | 0 <= j < k < |entries| :: entries[j].deadline <= entries[k].deadline
  }

  lemma {:induction false} InsertSorts(entries: seq<Entry>, e: Entry)
    requires IsSorted(entries)
    ensures IsSorted(Insert(entries, e))
    decreases |entries|
  {
    if entries != [] && entries[|entries| - 1].deadline > e.deadline {
      var init, last := entries[..|entries| - 1], entries[|entries| - 1];
      InsertSorts(init, e);
      InsertHas(init, e);
      forall x | x in Insert(init, e) ensures x.deadline <= last.deadline {
      }
    }
  }

  /** An entry goes behind all that are due no later, and in front of all that are due later. */
  lemma {:induction false} InsertPlaces(entries: seq<Entry>, e: Entry) returns (k: nat)
    requires IsSorted(entries)
    ensures k <= |entries| && Insert(entries, e) == entries[..k] + [e] + entries[k..]
    ensures forall i | 0 <= i < |entries| :: entries[i].deadline <= e.deadline <==> i < k
    decreases |entries|
  {
    k := |entries|;
    if entries != [] && entries[|entries| - 1].deadline > e.deadline {
      var n := |entries| - 1;
      k := InsertPlaces(entries[..n], e);
      assert entries[..n][..k] == entries[..k] && entries[..n][k..] + [entries[n]] == entries[k..];
      forall i | 0 <= i < n ensures entries[i].deadline <= e.deadline <==> i < k {
        assert entries[..n][i] == entries[i];
      }
    }
  }

  lemma {:induction false} HeldIsCounted(entries: seq<Entry>, e: Entry)
    ensures e in entries ==> CountOf(entries, e.id) >= 1
    decreases |entries|
  {
    if entries != [] {
      HeldIsCounted(entries[..|entries| - 1], e);
      assert entries == entries[..|entries| - 1] + [entries[|entries| - 1]];
    }
  }

  // ---------------------------------------------------------------- the invariant

  /** The time before which the k-th run must not happen. */
  function NotBefore(r: Registration, k: int): int {
    r.start + k * r.period
  }

  lemma NotBeforeNext(r: Registration, k: int)
    ensures NotBefore(r, k + 1) == NotBefore(r, k) + r.period
  {
  }

  /** Ids are given out in order, and nothing is known of others. */
  ghost predicate OnlyRegistered(s: State) {
    && (forall id | id in s.registered :: id < s.nextId)
    && (forall id | id in s.tasks :: id in s.registered)
    && (forall id | id in s.adding :: id in s.registered)
    && (forall e | e in s.pending :: e.id in s.registered)
    && (forall e | e in s.queue :: e.id in s.registered)
    && (s.firing.Some? ==> s.firing.value.id in s.registered)
    && (forall r | r in s.runs :: r.id in s.registered)
  }

  ghost predicate DueInOrder(s: State) {
    IsSorted(s.pending) && forall e | e in s.queue :: e.deadline <= s.now
  }

  predicate IsFiring(s: State, id: nat) {
    s.firing.Some? && s.firing.value.id == id
  }

  /** A task in the table has exactly one next firing, except while it is being removed, and its counter
      and its runs add up. */
  predicate LiveTask(s: State, id: nat)
    requires id in s.tasks && id in s.registered
  {
    var task, r := s.tasks[id], s.registered[id];
    && task.period == r.period
    && (if r.count >= 0 then task.remaining >= 0 && Done(s, id) + task.remaining == r.count
        else task.remaining == r.count)
    && (if IsFiring(s, id) && s.firing.value.removes then
          task.remaining == 0 && !s.firing.value.runs && Tokens(s, id) == 0
        else Tokens(s, id) == 1)
  }

  /** A task that left the table by itself has had all its runs and has no firing left. */
  predicate FinishedTask(s: State, id: nat)
    requires id in s.registered
  {
    s.registered[id].count >= 0 && RunsOf(s.runs, id) == s.registered[id].count && Tokens(s, id) == 0
      && !IsFiring(s, id)
  }

  predicate Counted(s: State, id: nat)
    requires id in s.registered
  {
    && Tokens(s, id) <= 1
    && (s.registered[id].count >= 0 ==> Done(s, id) <= s.registered[id].count)
    && (id in s.tasks ==> LiveTask(s, id))
    && (id !in s.tasks && id !in s.cancelled ==> FinishedTask(s, id))
  }

  ghost predicate Timely(s: State, id: nat)
    requires id in s.registered
  {
    var r := s.registered[id];
    && (id in s.adding && id in s.tasks ==> r.start <= s.now && Done(s, id) == 0)
    && (id in s.tasks ==> forall e | (e in s.pending || e in s.queue) && e.id == id ::
          NotBefore(r, Done(s, id) + 1) <= e.deadline)
    && (IsFiring(s, id) && s.firing.value.runs ==> NotBefore(r, Done(s, id)) <= s.now)
    && forall k | 0 <= k < |s.runs| && s.runs[k].id == id :: NotBefore(r, RunsOf(s.runs[..k + 1], id)) <= s.runs[k].time
  }

  ghost predicate Inv(s: State) {
    && OnlyRegistered(s)
    && DueInOrder(s)
    && forall id | id in s.registered :: Counted(s, id) && Timely(s, id)
  }

  // ---------------------------------------------------------------- every step keeps it

  lemma {:induction false} NothingUnregistered(s: State, id: nat)
    requires OnlyRegistered(s) && id !in s.registered
    ensures Tokens(s, id) == 0 && RunsOf(s.runs, id) == 0 && !IsFiring(s, id)
  {
    NoneHeld(s.pending, id);
    NoneHeld(s.queue, id);
    NoneRun(s.runs, id);
  }

  lemma {:induction false} NoneHeld(entries: seq<Entry>, id: nat)
    requires forall e | e in entries :: e.id != id
    ensures CountOf(entries, id) == 0
    decreases |entries|
  {
    if entries != [] {
      NoneHeld(entries[..|entries| - 1], id);
    }
  }

  lemma {:induction false} NoneRun(runs: seq<Run>, id: nat)
    requires forall r | r in runs :: r.id != id
    ensures RunsOf(runs, id) == 0
    decreases |runs|
  {
    if runs != [] {
      NoneRun(runs[..|runs| - 1], id);
    }
  }

  lemma RegisterKeeps(s: State, period: int, count: int)
    requires Inv(s)
    ensures Inv(Next(s, Register(period, count)))
  {
    hide CountOf, RunsOf, NotBefore;
    var t := Next(s, Register(period, count));
    NothingUnregistered(s, s.nextId);
    forall id | id in t.registered ensures Counted(t, id) && Timely(t, id) {
      if id in s.registered {
        assert Counted(s, id) && Timely(s, id);
      }
    }
  }

  lemma ScheduleKeeps(s: State, id: nat, reading: int)
    requires Inv(s)
    ensures Inv(Next(s, Schedule(id, reading)))
  {
    if id in s.adding && id in s.registered && s.registered[id].start <= reading <= s.now {
      hide Counted, Timely, Insert;
      var t := Next(s, Schedule(id, reading));
      InsertHas(s.pending, Entry(reading + s.registered[id].period, id));
      InsertSorts(s.pending, Entry(reading + s.registered[id].period, id));
      forall i | i in t.registered ensures Counted(t, i) && Timely(t, i) {
        ScheduleKeepsOne(s, id, reading, i);
      }
    }
  }

  lemma ScheduleKeepsOne(s: State, id: nat, reading: int, i: nat)
    requires id in s.adding && id in s.registered && s.registered[id].start <= reading <= s.now
    requires i in s.registered && Counted(s, i) && Timely(s, i)
    ensures Counted(Next(s, Schedule(id, reading)), i) && Timely(Next(s, Schedule(id, reading)), i)
  {
    hide CountOf, RunsOf, NotBefore, Insert;
    var e := Entry(reading + s.registered[id].period, id);
    InsertHas(s.pending, e);
    InsertCounts(s.pending, e, i);
    FirstDeadline(s.registered[id]);
  }

  lemma FirstDeadline(r: Registration)
    ensures NotBefore(r, 1) == r.start + r.period
  {
  }

  lemma CancelKeeps(s: State, id: nat)
    requires Inv(s)
    ensures Inv(Next(s, Cancel(id)))
  {
    hide CountOf, RunsOf, NotBefore;
    var t := Next(s, Cancel(id));
    forall i | i in t.registered ensures Counted(t, i) && Timely(t, i) {
      assert Counted(s, i) && Timely(s, i);
    }
  }

  lemma AdvanceKeeps(s: State, duration: nat)
    requires Inv(s)
    ensures Inv(Next(s, Advance(duration)))
  {
    hide CountOf, RunsOf, NotBefore;
    var t := Next(s, Advance(duration));
    forall i | i in t.registered ensures Counted(t, i) && Timely(t, i) {
      assert Counted(s, i) && Timely(s, i);
    }
  }

  lemma ExpireKeeps(s: State)
    requires Inv(s)
    ensures Inv(Next(s, Expire))
  {
    if s.queue == [] && s.firing.None? {
      hide Counted, Timely;
      var t := Next(s, Expire);
      forall i | i in t.registered ensures Counted(t, i) && Timely(t, i) {
        ExpireKeepsOne(s, i);
      }
    }
  }

  lemma PartsAreHeld(entries: seq<Entry>, n: nat, e: Entry)
    requires n <= |entries| && (e in entries[..n] || e in entries[n..])
    ensures e in entries
  {
  }

  /** Expiring moves the firings of a task, and changes nothing else about it. */
  lemma ExpireCounts(s: State, i: nat)
    requires s.queue == [] && s.firing.None?
    ensures var t := Next(s, Expire);
            Tokens(t, i) == Tokens(s, i) && Done(t, i) == Done(s, i)
    ensures var t := Next(s, Expire);
            forall e | e in t.pending || e in t.queue :: e in s.pending
  {
    var t := Next(s, Expire);
    var n := DueCount(s.pending, s.now);
    assert CountOf(s.queue, i) == 0;
    hide RunsOf, CountOf, DueCount;
    assert t.queue == s.pending[..n] && t.pending == s.pending[n..];
    assert s.pending == t.queue + t.pending;
    hide Next;
    CountAppend(t.queue, t.pending, i);
    forall e | e in t.pending || e in t.queue ensures e in s.pending {
      PartsAreHeld(s.pending, n, e);
    }
  }

  lemma ExpireKeepsOne(s: State, i: nat)
    requires s.queue == [] && s.firing.None? && i in s.registered && Counted(s, i) && Timely(s, i)
    ensures Counted(Next(s, Expire), i) && Timely(Next(s, Expire), i)
  {
    hide RunsOf, NotBefore, Tokens, Done, DueCount;
    ExpireCounts(s, i);
  }

  lemma {:induction false} HeadCounts(queue: seq<Entry>, id: nat)
    requires queue != []
    ensures CountOf(queue, id) == CountOf(queue[1..], id) + (if queue[0].id == id then 1 else 0)
  {
    assert queue == [queue[0]] + queue[1..];
    CountAppend([queue[0]], queue[1..], id);
    CountOne(queue[0], id);
  }

  lemma FireKeeps(s: State, reading: int)
    requires Inv(s) && s.queue != [] && s.firing.None? && s.queue[0].deadline <= reading <= s.now
    ensures Inv(FireStep(s, reading))
  {
    hide Counted, Timely, Insert;
    var t, e := FireStep(s, reading), s.queue[0];
    assert forall x | x in s.queue[1..] :: x in s.queue;
    if e.id in s.tasks {
      InsertHas(s.pending, Entry(reading + s.tasks[e.id].period, e.id));
      InsertSorts(s.pending, Entry(reading + s.tasks[e.id].period, e.id));
    }
    forall i | i in t.registered ensures Counted(t, i) && Timely(t, i) {
      if i == e.id && i in s.tasks {
        FiredTaskKeeps(s, reading, i);
      } else {
        FireKeepsOther(s, reading, i);
      }
    }
  }

  lemma FireKeepsOther(s: State, reading: int, i: nat)
    requires s.queue != [] && s.firing.None? && (i != s.queue[0].id || i !in s.tasks)
    requires i in s.registered && Counted(s, i) && Timely(s, i)
    ensures Counted(FireStep(s, reading), i) && Timely(FireStep(s, reading), i)
  {
    hide CountOf, RunsOf, NotBefore, Insert;
    var e := s.queue[0];
    assert forall x | x in s.queue[1..] :: x in s.queue;
    HeadCounts(s.queue, i);
    if e.id in s.tasks {
      InsertHas(s.pending, Entry(reading + s.tasks[e.id].period, e.id));
      InsertCounts(s.pending, Entry(reading + s.tasks[e.id].period, e.id), i);
    }
  }

  /** The task that fires: its entry was its only one, was due, and the new one is a period later. */
  lemma FiredTaskKeeps(s: State, reading: int, id: nat)
    requires s.queue != [] && s.firing.None? && s.queue[0].id == id && id in s.tasks && id in s.registered
    requires s.queue[0].deadline <= reading <= s.now
    requires DueInOrder(s) && Counted(s, id) && Timely(s, id)
    ensures Counted(FireStep(s, reading), id) && Timely(FireStep(s, reading), id)
  {
    hide CountOf, RunsOf, NotBefore, Insert;
    var t, e, r, task := FireStep(s, reading), s.queue[0], s.registered[id], s.tasks[id];
    HeadCounts(s.queue, id);
    OnlyOne(s, id);
    assert e in s.queue;
    NotBeforeNext(r, Done(s, id) + 1);
    if task.remaining != 0 {
      InsertHas(s.pending, Entry(reading + task.period, id));
      InsertCounts(s.pending, Entry(reading + task.period, id), id);
    }
  }

  lemma {:induction false} OnlyOne(s: State, id: nat)
    requires s.queue != [] && s.queue[0].id == id && Tokens(s, id) <= 1
    ensures id !in s.adding && CountOf(s.pending, id) == 0 && CountOf(s.queue[1..], id) == 0
    ensures forall e | e in s.pending || e in s.queue[1..] :: e.id != id
  {
    HeadCounts(s.queue, id);
    hide CountOf;
    forall e | e in s.pending || e in s.queue[1..] ensures e.id != id {
      HeldIsCounted(s.pending, e);
      HeldIsCounted(s.queue[1..], e);
    }
  }

  lemma {:induction false} RunAdds(runs: seq<Run>, r: Run, id: nat)
    ensures RunsOf(runs + [r], id) == RunsOf(runs, id) + (if r.id == id then 1 else 0)
  {
    assert (runs + [r])[..|runs|] == runs;
  }

  lemma FinishKeeps(s: State)
    requires Inv(s)
    ensures Inv(Next(s, Finish))
  {
    if s.firing.Some? {
      hide Counted, Timely;
      var t := Next(s, Finish);
      forall i | i in t.registered ensures Counted(t, i) && Timely(t, i) {
        FinishKeepsOne(s, i);
      }
    }
  }

  lemma FinishKeepsOne(s: State, i: nat)
    requires s.firing.Some? && i in s.registered && Counted(s, i) && Timely(s, i)
    ensures Counted(Next(s, Finish), i) && Timely(Next(s, Finish), i)
  {
    hide CountOf, RunsOf, NotBefore;
    assert s.runs + [] == s.runs;
    RunAdds(s.runs, Run(s.firing.value.id, s.now), i);
    FinishTimes(s, i);
  }

  lemma {:induction false} FinishTimes(s: State, id: nat)
    requires id in s.registered && s.firing.Some? && Timely(s, id)
    ensures forall k | 0 <= k < |Next(s, Finish).runs| && Next(s, Finish).runs[k].id == id ::
              NotBefore(s.registered[id], RunsOf(Next(s, Finish).runs[..k + 1], id)) <= Next(s, Finish).runs[k].time
  {
    hide RunsOf, NotBefore;
    var runs := Next(s, Finish).runs;
    RunAdds(s.runs, Run(s.firing.value.id, s.now), id);
    forall k | 0 <= k < |runs| && runs[k].id == id
      ensures NotBefore(s.registered[id], RunsOf(runs[..k + 1], id)) <= runs[k].time
    {
      if k < |s.runs| {
        assert runs[..k + 1] == s.runs[..k + 1];
      } else {
        assert runs[..k + 1] == runs == s.runs + [Run(s.firing.value.id, s.now)];
      }
    }
  }

  lemma StepKeepsInv(s: State, step: Step)
    requires Inv(s)
    ensures Inv(Next(s, step))
  {
    hide Inv, Next;
    match step
    case Register(period, count) => RegisterKeeps(s, period, count);
    case Schedule(id, reading) => ScheduleKeeps(s, id, reading);
    case Cancel(id) => CancelKeeps(s, id);
    case Advance(duration) => AdvanceKeeps(s, duration);
    case Expire => ExpireKeeps(s);
    case Fire(reading) => FireNextKeeps(s, reading);
    case Finish => FinishKeeps(s);
  }

  lemma FireNextKeeps(s: State, reading: int)
    requires Inv(s)
    ensures Inv(Next(s, Fire(reading)))
  {
    hide Inv, FireStep;
    if s.queue != [] && s.firing.None? && s.queue[0].deadline <= reading <= s.now {
      FireKeeps(s, reading);
    }
  }

  /** The invariant holds in every reachable state. */
  lemma {:induction false} EveryRunKeepsInv(now: int, steps: seq<Step>)
    ensures Inv(After(Start(now), steps))
    decreases |steps|
  {
    if steps != [] {
      hide Inv, Next;
      EveryRunKeepsInv(now, steps[..|steps| - 1]);
      StepKeepsInv(After(Start(now), steps[..|steps| - 1]), steps[|steps| - 1]);
    }
  }

  // ---------------------------------------------------------------- the main results

  /** In every reachable state a periodic task registered with n >= 0 has run at most n times; it has run
      exactly n times once it has left the table without having been cancelled; and until then it has
      exactly one next firing, or is just being removed after its n runs. */
  lemma {:induction false} PeriodicTaskRunsExactly(now: int, steps: seq<Step>, id: nat)
    requires id in After(Start(now), steps).registered
    ensures var s := After(Start(now), steps);
            var n := s.registered[id].count;
            && (n >= 0 ==> RunsOf(s.runs, id) <= n)
            && (id !in s.tasks && id !in s.cancelled ==> n >= 0 && RunsOf(s.runs, id) == n)
            && (id in s.tasks ==>
                  Tokens(s, id) == 1 || (IsFiring(s, id) && Tokens(s, id) == 0 && RunsOf(s.runs, id) == n))
            && Tokens(s, id) <= 1
  {
    hide CountOf, RunsOf, Timely, OnlyRegistered, DueInOrder, After;
    EveryRunKeepsInv(now, steps);
    var s := After(Start(now), steps);
    assert Counted(s, id);
  }

  /** The k-th run of a task does not come before k periods after its registration. */
  lemma {:induction false} RunsAreNotEarly(now: int, steps: seq<Step>, k: nat)
    requires k < |After(Start(now), steps).runs|
    ensures var s := After(Start(now), steps);
            var run := s.runs[k];
            run.id in s.registered && NotBefore(s.registered[run.id], RunsOf(s.runs[..k + 1], run.id)) <= run.time
  {
    hide CountOf, RunsOf, NotBefore, Counted, DueInOrder, After;
    EveryRunKeepsInv(now, steps);
    var s := After(Start(now), steps);
    assert s.runs[k] in s.runs;
    assert Timely(s, s.runs[k].id);
  }

  lemma {:induction false} SortedBehind(entries: seq<Entry>, now: int, e: Entry)
    requires IsSorted(entries) && e in entries[DueCount(entries, now)..]
    ensures e.deadline > now
  {
    var n := DueCount(entries, now);
    hide DueCount;
    var k :| 0 <= k < |entries| - n && entries[n..][k] == e;
    assert entries[n + k] == e;
  }

  /** Only due entries are moved to the queue, and all of them, in the order of their deadlines. */
  lemma {:induction false} ExpireMovesTheDue(now: int, steps: seq<Step>)
    requires var s := After(Start(now), steps); s.queue == [] && s.firing.None?
    ensures var s := After(Start(now), steps);
            var t := Next(s, Expire);
            && t.queue + t.pending == s.pending && IsSorted(t.queue)
            && (forall e | e in t.queue :: e.deadline <= s.now)
            && (forall e | e in t.pending :: e.deadline > s.now)
  {
    hide Counted, Timely, OnlyRegistered, After, DueCount;
    EveryRunKeepsInv(now, steps);
    var s := After(Start(now), steps);
    var n := DueCount(s.pending, s.now);
    assert s.pending[..n] + s.pending[n..] == s.pending;
    forall e | e in s.pending[n..] ensures e.deadline > s.now {
      SortedBehind(s.pending, s.now, e);
    }
  }

  /** The clock, told by the steps. */
  function Clock(now: int, steps: seq<Step>): int
    decreases |steps|
  {
    if steps == [] then now
    else
      var last := steps[|steps| - 1];
      Clock(now, steps[..|steps| - 1]) + if last.Advance? then last.duration else 0
  }

  /** The tasks that were asked for, in order, each with the time at which it was. */
  function Asked(now: int, steps: seq<Step>): seq<Registration>
    decreases |steps|
  {
    if steps == [] then []
    else
      var init, last := steps[..|steps| - 1], steps[|steps| - 1];
      Asked(now, init) + if last.Register? then [Registration(last.period, last.count, Clock(now, init))] else []
  }

  /** The tasks that were cancelled after they had been asked for. */
  function Revoked(now: int, steps: seq<Step>): set<nat>
    decreases |steps|
  {
    if steps == [] then {}
    else
      var init, last := steps[..|steps| - 1], steps[|steps| - 1];
      Revoked(now, init) + if last.Cancel? && last.id < |Asked(now, init)| then {last.id} else {}
  }

  lemma StepRecords(s: State, step: Step)
    ensures var t := Next(s, step);
            && t.now == s.now + (if step.Advance? then step.duration else 0)
            && t.nextId == s.nextId + (if step.Register? then 1 else 0)
            && t.registered
               == (if step.Register? then s.registered[s.nextId := Registration(step.period, step.count, s.now)]
                   else s.registered)
            && t.cancelled == s.cancelled + (if step.Cancel? && step.id in s.registered then {step.id} else {})
  {
    hide Insert, DueCount;
  }

  /** Ids are given out from 0 in the order in which tasks are asked for, with their own period and count, and
      exactly those are known as cancelled that were. */
  lemma {:induction false} TasksAreThoseAskedFor(now: int, steps: seq<Step>)
    ensures var s, asked := After(Start(now), steps), Asked(now, steps);
            && s.now == Clock(now, steps) && s.nextId == |asked| && s.cancelled == Revoked(now, steps)
            && (forall id: nat :: id in s.registered <==> id < |asked|)
            && (forall id: nat | id < |asked| :: s.registered[id] == asked[id])
    decreases |steps|
  {
    if steps != [] {
      hide Next;
      TasksAreThoseAskedFor(now, steps[..|steps| - 1]);
      StepRecords(After(Start(now), steps[..|steps| - 1]), steps[|steps| - 1]);
    }
  }

  /** One firing, from the look at the table to its end: of a task that has left the table nothing happens; one
      without runs left is removed; any other runs once, and its next deadline is one period behind the reading. */
  lemma {:induction false} FiringIsExact(now: int, steps: seq<Step>, reading: int, duration: nat)
    requires var s := After(Start(now), steps);
             s.queue != [] && s.firing.None? && s.queue[0].deadline <= reading <= s.now
    ensures var s := After(Start(now), steps);
            var id, t := s.queue[0].id, Next(Next(Next(s, Fire(reading)), Advance(duration)), Finish);
            && id in s.registered && t.queue == s.queue[1..] && t.firing.None?
            && (id !in s.tasks ==> t.tasks == s.tasks && t.runs == s.runs && t.pending == s.pending)
            && (id in s.tasks && s.tasks[id].remaining == 0 ==>
                  t.tasks == s.tasks - {id} && t.runs == s.runs && t.pending == s.pending)
            && (id in s.tasks && s.tasks[id].remaining != 0 ==>
                  && t.tasks.Keys == s.tasks.Keys && t.runs == s.runs + [Run(id, s.now + duration)]
                  && OneEntryMore(s, t, Entry(reading + s.registered[id].period, id)))
  {
    EveryRunKeepsInv(now, steps);
    hide After, Inv, Timely, DueInOrder, RunsOf, CountOf, Insert;
    var s := After(Start(now), steps);
    var id := s.queue[0].id;
    KnownInInv(s, id);
    if id in s.tasks {
      OnlyOne(s, id);
      AddsOneEntry(s, Entry(reading + s.tasks[id].period, id));
    }
  }

  /** The entry is the only one of its task, and nothing else has changed among the pending ones. */
  ghost predicate OneEntryMore(s: State, t: State, entry: Entry) {
    && (forall e: Entry :: e in t.pending && e.id == entry.id <==> e == entry)
    && (forall e: Entry | e.id != entry.id :: e in t.pending <==> e in s.pending)
  }

  lemma {:induction false} AddsOneEntry(s: State, entry: Entry)
    requires forall e | e in s.pending :: e.id != entry.id
    ensures forall t: State | t.pending == Insert(s.pending, entry) :: OneEntryMore(s, t, entry)
  {
    hide Insert;
    InsertHas(s.pending, entry);
  }

  lemma KnownInInv(s: State, id: nat)
    requires Inv(s) && ((exists e | e in s.queue :: e.id == id) || id in s.adding)
    ensures id in s.registered && Counted(s, id)
  {
    hide Counted, Timely, DueInOrder;
  }

  /** A registered task first comes due exactly one period behind the reading of the clock. */
  lemma {:induction false} FirstDeadlineIsExact(now: int, steps: seq<Step>, id: nat, reading: int)
    requires var s := After(Start(now), steps);
             id in s.adding && id in s.registered && s.registered[id].start <= reading <= s.now
    ensures var s := After(Start(now), steps);
            var t := Next(s, Schedule(id, reading));
            id !in t.adding && OneEntryMore(s, t, Entry(reading + s.registered[id].period, id))
  {
    EveryRunKeepsInv(now, steps);
    hide After, Inv, Timely, DueInOrder, RunsOf, CountOf, Insert;
    var s := After(Start(now), steps);
    KnownInInv(s, id);
    forall e | e in s.pending ensures e.id != id {
      HeldIsCounted(s.pending, e);
    }
    AddsOneEntry(s, Entry(reading + s.registered[id].period, id));
  }

  /** After a cancel, no firing of the task starts: only one that is already under way still runs. */
  lemma {:induction false} CancelledTaskStops(now: int, before: seq<Step>, id: nat, steps: seq<Step>)
    requires id in After(Start(now), before).registered
    ensures var s := After(Start(now), before);
            var t := After(Next(s, Cancel(id)), steps);
            && id !in t.tasks && id < t.nextId
            && Done(t, id) == Done(s, id)
            && RunsOf(s.runs, id) <= RunsOf(t.runs, id) <= Done(s, id)
    decreases |steps|
  {
    EveryRunKeepsInv(now, before);
    hide Counted, Timely, DueInOrder;
    var s := After(Start(now), before);
    if steps != [] {
      CancelledTaskStops(now, before, id, steps[..|steps| - 1]);
      GoneStays(After(Next(s, Cancel(id)), steps[..|steps| - 1]), steps[|steps| - 1], id);
    }
  }

  lemma {:induction false} GoneStays(s: State, step: Step, id: nat)
    requires id !in s.tasks && id < s.nextId
    ensures var t := Next(s, step);
            && id !in t.tasks && id < t.nextId && Done(t, id) == Done(s, id) && RunsOf(s.runs, id) <= RunsOf(t.runs, id)
  {
    hide RunsOf, Insert, DueCount;
    if step.Finish? && s.firing.Some? {
      assert s.runs + [] == s.runs;
      RunAdds(s.runs, Run(s.firing.value.id, s.now), id);
    }
  }

  // ---------------------------------------------------------------- the manager

  class TimerManager {
    var nextId: nat
    var tasks: map<nat, Task>
    var pending: seq<Entry>
    var queue: seq<Entry>
    /** The clock, and the runs so far. */
    var now: int
    var runs: seq<Run>
    ghost var registered: map<nat, Registration>
    ghost var cancelled: set<nat>

    /** The state as seen between two firings of the timer thread. */
    ghost function View(): State
      reads this
    {
      State(now, nextId, tasks, {}, pending, queue, None, runs, registered, cancelled)
    }

    /** Adds a callback to the deadline map, behind those that are due no later. */
    method AddTaskFor(period: int, id: nat)
      modifies this`pending
      ensures pending == Insert(old(pending), Entry(now + period, id))
    {
      var deadline := now + period;
      var k := |pending|;
      assert pending[..k] == pending && pending[k..] == [];
      while k > 0 && pending[k - 1].deadline > deadline
        invariant k <= |pending| && pending == old(pending)
        invariant Insert(pending, Entry(deadline, id)) == Insert(pending[..k], Entry(deadline, id)) + pending[k..]
      {
        assert pending[..k][..k - 1] == pending[..k - 1];
        assert [pending[k - 1]] + pending[k..] == pending[k - 1..];
        Regrouped(Insert(pending[..k - 1], Entry(deadline, id)), [pending[k - 1]], pending[k..]);
        k := k - 1;
      }
      pending := pending[..k] + [Entry(deadline, id)] + pending[k..];
    }

    method AddPeriodicTask(period: int, count: int) returns (id: nat)
      modifies this
      ensures id == old(nextId)
      ensures View() == Next(Next(old(View()), Register(period, count)), Schedule(id, now))
    {
      id := nextId;
      nextId := nextId + 1;
      tasks := tasks[id := Task(period, count)];
      registered := registered[id := Registration(period, count, now)];
      AddTaskFor(period, id);
      assert {id} - {id} == {};
    }

    method CancelPeriodicTask(id: nat)
      modifies this
      ensures View() == Next(old(View()), Cancel(id))
    {
      cancelled := if id in registered then cancelled + {id} else cancelled;
      tasks := tasks - {id};
    }

    /** The timer thread's inner loop under the lock. */
    method MoveDue()
      requires queue == []
      modifies this`queue, this`pending
      ensures View() == Next(old(View()), Expire)
    {
      hide DueCount;
      ghost var moved := 0;
      while pending != [] && pending[0].deadline <= now
        invariant moved <= |old(pending)| && queue == old(pending)[..moved] && pending == old(pending)[moved..]
        invariant DueCount(old(pending), now) == moved + DueCount(pending, now)
        decreases |pending|
      {
        FirstIsDue(pending, now);
        assert old(pending)[moved..][1..] == old(pending)[moved + 1..];
        queue := queue + [pending[0]];
        pending := pending[1..];
        moved := moved + 1;
      }
      FirstIsNotDue(pending, now);
    }

    /** Takes the first due callback and lets it run. */
    method ExecutePeriodicTask()
      requires queue != []
      modifies this
      ensures View() == Next(FireStep(old(View()), old(now)), Finish)
    {
      var id := queue[0].id;
      queue := queue[1..];
      if id !in tasks {
        return;
      }
      var task := tasks[id];
      var isExecute, canCancel := false, false;
      if task.remaining > 0 {
        tasks := tasks[id := task.(remaining := task.remaining - 1)];
        isExecute := true;
      } else if task.remaining < 0 {
        isExecute := true;
      }
      if task.remaining != 0 {
        AddTaskFor(task.period, id);
      } else {
        canCancel := true;
      }
      if isExecute {
        runs := runs + [Run(id, now)];
      }
      if canCancel {
        tasks := tasks - {id};
      }
    }
  }

  lemma {:induction false} FirstIsDue(entries: seq<Entry>, now: int)
    requires entries != [] && entries[0].deadline <= now
    ensures DueCount(entries, now) == 1 + DueCount(entries[1..], now)
  {
  }

  lemma {:induction false} FirstIsNotDue(entries: seq<Entry>, now: int)
    requires entries == [] || entries[0].deadline > now
    ensures DueCount(entries, now) == 0
  {
  }
}
