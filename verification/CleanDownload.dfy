/** Downloads in which nothing fails, neither disk nor database: which blocks are still marked failed, and
    when completion is signalled all the same. */
module CleanDownloads {
  import opened Messages
  import opened Tiling
  import opened Downloads
  import opened DownloadRuns
  import opened DownloadLimits

  ghost predicate OnlyUncarriedFail(world: World, blocks: map<int, Block>) {
    forall id | id in blocks && blocks[id].state == Failed :: !Carried(world, blocks[id])
  }

  lemma {:induction false} CleanFinishes(size: nat, grants: seq<int>)
    requires forall k | 0 <= k < |grants| :: grants[k] >= 0
    ensures Finishes(size, grants)
    decreases |grants|
  {
    if size > 0 && grants != [] {
      CleanFinishes(if grants[0] < size then size - grants[0] else 0, grants[1..]);
    }
  }

  lemma CleanAnswer(world: World, s: System, m: Move)
    requires world.wire.Valid() && Structure(world, s) && Allowed(world, s, m) && m.Arrive? && IsClean(m)
    requires OnlyUncarriedFail(world, s.store.blocks)
    ensures OnlyUncarriedFail(world, Next(world, s, m).store.blocks)
  {
    hide Answer, Finishes, RowsAreSound, PathsAgree, Fill;
    PublishedRow(world, s, m.request);
    CleanFinishes(if m.request.blockSize >= 0 then m.request.blockSize else 0, m.io.grants);
    if m.request.taskId in s.schedule.pending {
      ArriveCompletesIff(world, s, m.request, m.requestId, m.canOpen, m.io);
    } else {
      hide IsShort, IsWhole;
      AnswerIsHonest(world, m.request, m.requestId, m.canOpen);
    }
  }

  lemma CleanMoveKeeps(world: World, s: System, m: Move)
    requires world.wire.Valid() && Structure(world, s) && Allowed(world, s, m) && IsClean(m)
    requires OnlyUncarriedFail(world, s.store.blocks)
    ensures OnlyUncarriedFail(world, Next(world, s, m).store.blocks)
  {
    hide Structure;
    if m.Arrive? {
      CleanAnswer(world, s, m);
    }
  }

  /** In a run without faults only blocks that cannot be carried are marked failed. */
  lemma {:induction false} EveryCleanRunFailsUncarried(world: World, moves: seq<Move>)
    requires world.wire.Valid() && AllAllowed(world, Start(), moves) && forall m | m in moves :: IsClean(m)
    ensures OnlyUncarriedFail(world, After(world, Start(), moves).store.blocks)
    decreases |moves|
  {
    if moves != [] {
      hide Next, Allowed, IsClean, Structure, OnlyUncarriedFail;
      var init, last := moves[..|moves| - 1], moves[|moves| - 1];
      assert forall m | m in init :: m in moves;
      assert last in moves;
      EveryCleanRunFailsUncarried(world, init);
      StartHasInv(world);
      EveryRunKeepsStructure(world, Start(), init);
      CleanMoveKeeps(world, After(world, Start(), init), last);
    }
  }

  lemma ReachedFailsUncarried(world: World, s: System)
    requires world.wire.Valid() && Reaches(world, s, true)
    ensures OnlyUncarriedFail(world, s.store.blocks)
  {
    hide AllAllowed, After, Start, OnlyUncarriedFail, IsClean;
    var moves :|
      AllAllowed(world, Start(), moves) && After(world, Start(), moves) == s && forall m | m in moves :: IsClean(m);
    EveryCleanRunFailsUncarried(world, moves);
  }

  // ---------------------------------------------------------------- the signal

  ghost predicate SignalsCleanly(world: World, rows: map<int, Block>, taskId: Int64, s: System, m: Move)
    requires world.wire.Valid()
  {
    Reaches(world, s, true) && IsClean(m) && SignalsDespiteFailure(world, rows, taskId, s, m)
  }

  /** Some run without any fault signals the completion of a task that has a failed block if and only if
      every block of the task is answered at all, and some can be carried and some cannot. */
  lemma CleanSignalDespiteFailureIff(world: World, rows: map<int, Block>, taskId: Int64)
    requires world.wire.Valid() && IsFresh(rows)
    ensures (exists s, m :: SignalsCleanly(world, rows, taskId, s, m))
            <==> && (forall id | id in RowsOf(rows, taskId) :: Answerable(world, rows[id]))
                 && (exists id | id in RowsOf(rows, taskId) :: Carried(world, rows[id]))
                 && (exists id | id in RowsOf(rows, taskId) :: !Carried(world, rows[id]))
  {
    hide SignalsDespiteFailure, Answerable, Carried, Reaches, IsClean;
    if s, m :| SignalsCleanly(world, rows, taskId, s, m) {
      SignalNeedsAnswers(world, rows, taskId, s, m);
      CleanSignalNeedsUncarried(world, rows, taskId, s, m);
    }
    if && (forall id | id in RowsOf(rows, taskId) :: Answerable(world, rows[id]))
       && (exists id | id in RowsOf(rows, taskId) :: Carried(world, rows[id]))
       && (exists id | id in RowsOf(rows, taskId) :: !Carried(world, rows[id])) {
      var last :| last in RowsOf(rows, taskId) && Carried(world, rows[last]);
      var failing :| failing in RowsOf(rows, taskId) && !Carried(world, rows[failing]);
      var s, m := CleanSignalCanCome(world, rows, taskId, last, failing);
    }
  }

  lemma ArriveKeepsRows(world: World, s: System, m: Move)
    requires world.wire.Valid() && Structure(world, s) && Allowed(world, s, m) && m.Arrive?
    ensures SameRows(s.store.blocks, Next(world, s, m).store.blocks)
  {
    hide Answer, Respond, RowsAreSound, PathsAgree, IsShort, IsWhole;
    PublishedRow(world, s, m.request);
    AnswerIsHonest(world, m.request, m.requestId, m.canOpen);
    var answer := Answer(world.files, m.canOpen, world.wire, m.request, m.requestId);
    if answer.Some? {
      RespondKeepsRows(world, s, answer.value, m.io);
    }
  }

  lemma CleanSignalNeedsUncarried(world: World, rows: map<int, Block>, taskId: Int64, s: System, m: Move)
    requires world.wire.Valid() && SignalsCleanly(world, rows, taskId, s, m)
    ensures exists id | id in RowsOf(rows, taskId) :: !Carried(world, rows[id])
  {
    hide Reaches, IsClean, Next, Reachable, Finishes, PathsAgree;
    ReachableHasStructure(world, s);
    NextIsReached(world, s, m, true);
    ReachedFailsUncarried(world, Next(world, s, m));
    SignalIff(world, s, m);
    var after := Next(world, s, m).store;
    assert after.signals[|s.store.signals|] == taskId;
    ArriveKeepsRows(world, s, m);
    var id :| id in after.blocks && after.blocks[id].taskId == taskId && after.blocks[id].state == Failed;
    assert !Carried(world, after.blocks[id]) && id in RowsOf(rows, taskId);
  }

  /** The blocks that cannot be carried are answered first, then the others, last of all one that can. */
  lemma CleanSignalCanCome(world: World, rows: map<int, Block>, taskId: Int64, last: int, failing: int)
    returns (s: System, m: Move)
    requires world.wire.Valid() && IsFresh(rows)
    requires forall i | i in RowsOf(rows, taskId) :: Answerable(world, rows[i])
    requires last in RowsOf(rows, taskId) && Carried(world, rows[last])
    requires failing in RowsOf(rows, taskId) && !Carried(world, rows[failing])
    ensures SignalsCleanly(world, rows, taskId, s, m)
  {
    hide Reaches, Reachable, Answerable, IsPublished, Carried, Next;
    var bad := set id | id in RowsOf(rows, taskId) && !Carried(world, rows[id]);
    var good := RowsOf(rows, taskId) - bad - {last};
    LoadedIsReached(world, rows, true);
    s := TaskCanBePublished(world, Loaded(rows), taskId, true);
    s := Answers(world, s, taskId, bad, Failed, true);
    s := Answers(world, s, taskId, good, Completed, true);
    ReachesIsReachable(world, s, true);
    m := Arrive(Info(last, rows[last]), 0, true, CLEAN);
    assert s.store.blocks[last] == rows[last];
    LastAnswerSignals(world, s, taskId, last, failing);
  }

  lemma LastAnswerSignals(world: World, s: System, taskId: Int64, last: int, failing: int)
    requires world.wire.Valid() && Reachable(world, s) && IsPublished(s, taskId)
    requires last in s.store.blocks && s.store.blocks[last].taskId == taskId && Carried(world, s.store.blocks[last])
    requires forall id | id in s.store.blocks && s.store.blocks[id].taskId == taskId && id != last ::
             s.store.blocks[id].state != Waiting
    requires failing in s.store.blocks && s.store.blocks[failing].taskId == taskId
             && s.store.blocks[failing].state == Failed
    requires failing != last
    ensures var m := Arrive(Info(last, s.store.blocks[last]), 0, true, CLEAN);
            && Allowed(world, s, m)
            && Next(world, s, m).store.signals == s.store.signals + [taskId]
            && !NoneFailed(Next(world, s, m).store.blocks, taskId)
  {
    hide Reachable, Answer, ReadBlockData, RowsAreSound, WriteAll;
    var r := Info(last, s.store.blocks[last]);
    var m := Arrive(r, 0, true, CLEAN);
    ReachableHasStructure(world, s);
    ArriveCompletesIff(world, s, r, 0, true, CLEAN);
    SignalIff(world, s, m);
    hide Next, Structure;
    FailedShows(Next(world, s, m).store.blocks, taskId, failing);
  }
}
