/** From every reachable state a periodic task can still get all its runs and leave the table. */
module TimerProgress {
  import opened Timers

  predicate IsHeld(entries: seq<Entry>, id: nat) {
    exists k | 0 <= k < |entries| :: entries[k].id == id
  }

  predicate IsDue(entries: seq<Entry>, id: nat, now: int) {
    exists k | 0 <= k < |entries| :: entries[k].id == id && entries[k].deadline <= now
  }

  /** A live task that nobody has cancelled, with a number of runs. */
  ghost predicate IsCounted(s: State, id: nat) {
    Inv(s) && id in s.registered && s.registered[id].count >= 0 && id !in s.cancelled
  }

  /** Some continuation takes the task out of the table without a cancellation. */
  ghost predicate CanFinish(s: State, id: nat) {
    exists steps :: id !in After(s, steps).tasks && id !in After(s, steps).cancelled
  }

  lemma {:induction false} AfterFirst(s: State, step: Step, steps: seq<Step>)
    ensures After(s, [step] + steps) == After(Next(s, step), steps)
    decreases |steps|
  {
    hide Next;
    var all := [step] + steps;
    if steps == [] {
      assert all[..0] == [] && all == [step];
      assert After(s, []) == s;
    } else {
      assert all[..|all| - 1] == [step] + steps[..|steps| - 1];
      AfterFirst(s, step, steps[..|steps| - 1]);
    }
  }

  lemma {:induction false} StepTowardsEnd(s: State, step: Step, id: nat)
    requires CanFinish(Next(s, step), id)
    ensures CanFinish(s, id)
  {
    hide Next, After;
    var steps :| id !in After(Next(s, step), steps).tasks && id !in After(Next(s, step), steps).cancelled;
    AfterFirst(s, step, steps);
  }

  // ---------------------------------------------------------------- how far it is

  /** The firings that are still to come. */
  function FiringsLeft(s: State, id: nat): nat {
    if id !in s.tasks || (IsFiring(s, id) && s.firing.value.removes) || s.tasks[id].remaining < 0 then 0
    else s.tasks[id].remaining + 1
  }

  /** Where the next firing is: in the queue, due, not due, or still to be added. */
  function Place(s: State, id: nat): nat {
    if IsHeld(s.queue, id) then 0
    else if IsDue(s.pending, id, s.now) then 1
    else if IsHeld(s.pending, id) then 2
    else 3
  }

  /** What the timer thread has on its hands. */
  function Load(s: State): nat {
    2 * |s.queue| + if s.firing.Some? then 1 else 0
  }

  ghost predicate IsCloser(t: State, s: State, id: nat) {
    || FiringsLeft(t, id) < FiringsLeft(s, id)
    || (FiringsLeft(t, id) == FiringsLeft(s, id)
        && (Place(t, id) < Place(s, id) || (Place(t, id) == Place(s, id) && Load(t) < Load(s))))
  }

  lemma KeepsCounted(s: State, step: Step, id: nat)
    requires IsCounted(s, id) && !step.Cancel? && !step.Register?
    ensures IsCounted(Next(s, step), id)
  {
    hide Inv;
    StepKeepsInv(s, step);
  }

  lemma FinishIsCloser(s: State, id: nat)
    requires IsCounted(s, id) && s.firing.Some?
    ensures IsCloser(Next(s, Finish), s, id)
  {
    hide Inv, IsHeld, IsDue, Insert;
  }

  lemma FireIsCloser(s: State, id: nat)
    requires IsCounted(s, id) && id in s.tasks && s.firing.None? && s.queue != []
    ensures IsCloser(Next(s, Fire(s.now)), s, id)
  {
    hide Insert, CountOf, RunsOf, NotBefore, Timely, OnlyRegistered, IsSorted;
    assert s.queue[0] in s.queue && s.queue[0].deadline <= s.now;
    var t, head := Next(s, Fire(s.now)), s.queue[0];
    assert Counted(s, id);
    assert s.tasks[id].remaining >= 0;
    if head.id != id {
      OthersKeepPlace(s, id);
    }
  }

  /** A firing of another task leaves the next firing of this one where it is. */
  lemma OthersKeepPlace(s: State, id: nat)
    requires s.queue != [] && s.queue[0].id != id
    ensures Place(FireStep(s, s.now), id) == Place(s, id)
  {
    hide Insert;
    var t, head := FireStep(s, s.now), s.queue[0];
    TailHolds(s.queue, id);
    if head.id in s.tasks && s.tasks[head.id].remaining != 0 {
      var e := Entry(s.now + s.tasks[head.id].period, head.id);
      InsertHas(s.pending, e);
      SameHolds(s.pending, Insert(s.pending, e), e, id, s.now);
    }
  }

  lemma TailHolds(entries: seq<Entry>, id: nat)
    requires entries != [] && entries[0].id != id
    ensures IsHeld(entries[1..], id) <==> IsHeld(entries, id)
  {
    if k :| 0 <= k < |entries| && entries[k].id == id {
      assert entries[1..][k - 1] == entries[k];
    }
  }

  lemma SameHolds(before: seq<Entry>, after: seq<Entry>, e: Entry, id: nat, now: int)
    requires e.id != id && forall x :: x in after <==> x in before || x == e
    ensures IsHeld(after, id) <==> IsHeld(before, id)
    ensures IsDue(after, id, now) <==> IsDue(before, id, now)
  {
    if k :| 0 <= k < |before| && before[k].id == id {
      assert before[k] in after;
    }
    if k :| 0 <= k < |after| && after[k].id == id {
      assert after[k] in before;
    }
    if k :| 0 <= k < |before| && before[k].id == id && before[k].deadline <= now {
      assert before[k] in after;
    }
    if k :| 0 <= k < |after| && after[k].id == id && after[k].deadline <= now {
      assert after[k] in before;
    }
  }

  /** The step to take when the timer thread has nothing to do. */
  lemma IdleStepIsCloser(s: State, id: nat) returns (step: Step)
    requires IsCounted(s, id) && id in s.tasks && s.firing.None? && s.queue == []
    ensures !step.Cancel? && !step.Register? && IsCloser(Next(s, step), s, id)
  {
    hide Insert, CountOf, RunsOf, NotBefore, OnlyRegistered, DueCount;
    assert Counted(s, id) && Timely(s, id);
    assert id in s.adding ==> s.registered[id].start <= s.now;
    hide Timely;
    if IsDue(s.pending, id, s.now) {
      step := Expire;
      DueIsMoved(s.pending, id, s.now);
    } else if k :| 0 <= k < |s.pending| && s.pending[k].id == id {
      step := Advance(s.pending[k].deadline - s.now);
      assert IsDue(s.pending, id, s.pending[k].deadline);
    } else {
      step := Schedule(id, s.now);
      NoneHeld(s.pending, id);
      NoneHeld(s.queue, id);
      var e := Entry(s.now + s.registered[id].period, id);
      InsertHas(s.pending, e);
      var j :| 0 <= j < |Insert(s.pending, e)| && Insert(s.pending, e)[j] == e;
    }
  }

  lemma {:induction false} DueIsMoved(entries: seq<Entry>, id: nat, now: int)
    requires IsSorted(entries) && IsDue(entries, id, now)
    ensures IsHeld(entries[..DueCount(entries, now)], id)
  {
    var n := DueCount(entries, now);
    var k :| 0 <= k < |entries| && entries[k].id == id && entries[k].deadline <= now;
    hide DueCount;
    forall j | n <= j < |entries|
      ensures entries[j].deadline > now
    {
      assert entries[n..][j - n] == entries[j];
      SortedBehind(entries, now, entries[j]);
    }
    assert k < n && entries[..n][k] == entries[k];
  }

  lemma {:induction false} EveryCountedTaskCanFinish(s: State, id: nat)
    requires IsCounted(s, id)
    ensures CanFinish(s, id)
    decreases FiringsLeft(s, id), Place(s, id), Load(s)
  {
    if id !in s.tasks {
      assert After(s, []) == s;
    } else {
      hide IsCounted, CanFinish, Inv, Next, FiringsLeft, Place, Load;
      var step: Step;
      if s.firing.Some? {
        step := Finish;
        FinishIsCloser(s, id);
      } else if s.queue != [] {
        step := Fire(s.now);
        FireIsCloser(s, id);
      } else {
        step := IdleStepIsCloser(s, id);
      }
      KeepsCounted(s, step, id);
      EveryCountedTaskCanFinish(Next(s, step), id);
      StepTowardsEnd(s, step, id);
    }
  }

  /** From every reachable state, some continuation takes an uncancelled task registered with n >= 0 out of
      the table, after exactly n runs. */
  lemma {:induction false} TaskIsRemovedAfterItsRuns(now: int, steps: seq<Step>, id: nat)
    requires var s := After(Start(now), steps);
             id in s.registered && s.registered[id].count >= 0 && id !in s.cancelled
    ensures var s := After(Start(now), steps);
            exists more ::
              var t := After(s, more);
              && id !in t.tasks && id !in t.cancelled && id in t.registered && t.registered[id] == s.registered[id]
              && RunsOf(t.runs, id) == s.registered[id].count
  {
    hide Inv, After, RunsOf, Counted;
    var s := After(Start(now), steps);
    EveryRunKeepsInv(now, steps);
    EveryCountedTaskCanFinish(s, id);
    var more :| id !in After(s, more).tasks && id !in After(s, more).cancelled;
    RunsKeepInv(s, more, id);
    FinishedHasItsRuns(After(s, more), id);
  }

  /** An uncancelled task can leave the table by itself if and only if it was registered with a number of runs. */
  lemma {:induction false} TaskCanBeRemovedIff(now: int, steps: seq<Step>, id: nat)
    requires var s := After(Start(now), steps); id in s.registered && id !in s.cancelled
    ensures var s := After(Start(now), steps); CanFinish(s, id) <==> s.registered[id].count >= 0
  {
    hide Inv, After, RunsOf, Counted;
    var s := After(Start(now), steps);
    EveryRunKeepsInv(now, steps);
    if s.registered[id].count >= 0 {
      EveryCountedTaskCanFinish(s, id);
    } else if more :| id !in After(s, more).tasks && id !in After(s, more).cancelled {
      RunsKeepInv(s, more, id);
      FinishedHasItsRuns(After(s, more), id);
      assert false;
    }
  }

  lemma StepKeepsRegistration(s: State, step: Step, id: nat)
    requires Inv(s) && id in s.registered
    ensures Inv(Next(s, step)) && id in Next(s, step).registered
    ensures Next(s, step).registered[id] == s.registered[id]
  {
    assert id < s.nextId;
    hide Inv, Insert, DueCount;
    StepKeepsInv(s, step);
  }

  lemma {:induction false} RunsKeepInv(s: State, steps: seq<Step>, id: nat)
    requires Inv(s) && id in s.registered
    ensures var t := After(s, steps); Inv(t) && id in t.registered && t.registered[id] == s.registered[id]
    decreases |steps|
  {
    hide Inv, Next;
    if steps != [] {
      var init := steps[..|steps| - 1];
      RunsKeepInv(s, init, id);
      StepKeepsRegistration(After(s, init), steps[|steps| - 1], id);
    }
  }

  lemma {:induction false} FinishedHasItsRuns(t: State, id: nat)
    requires Inv(t) && id in t.registered && id !in t.tasks && id !in t.cancelled
    ensures RunsOf(t.runs, id) == t.registered[id].count
  {
    hide CountOf, RunsOf;
    assert Counted(t, id);
  }
}
