/** Which block tables are rebuilt in every run, and which downloads can complete: the conditions of
    DownloadRuns are exact, because a run from the empty state reaches each failure. */
module DownloadLimits {
  import opened Bytes
  import opened Messages
  import opened Scheduling
  import opened Tiling
  import opened Downloads
  import opened DownloadRuns

  /** A block table before any download. */
  ghost predicate IsFresh(rows: map<int, Block>) {
    forall id | id in rows :: IsStorable(id, rows[id]) && rows[id].state == Waiting
  }

  function Loaded(rows: map<int, Block>): System {
    System(Schedule([], map[], [], []), Store(rows, map[], []))
  }

  function Info(id: int, b: Block): BlockInfo
    requires IsStorable(id, b)
  {
    BlockInfo(id, b.fileId, b.taskId, b.offset, b.blockSize)
  }

  const CLEAN: Io := Io(true, true, true, [], true)

  /** Neither the server's disk, nor the client's, nor its database fails. */
  predicate IsClean(m: Move) {
    m.Arrive? ==>
      && m.canOpen && m.io.directoryOk && m.io.openOk && m.io.seekOk && m.io.updateOk
      && forall k | 0 <= k < |m.io.grants| :: m.io.grants[k] >= 0
  }

  /** Reached from the empty state, by clean moves only if clean is asked for. */
  ghost predicate Reaches(world: World, s: System, clean: bool)
    requires world.wire.Valid()
  {
    exists moves ::
      AllAllowed(world, Start(), moves) && After(world, Start(), moves) == s
        && (clean ==> forall m | m in moves :: IsClean(m))
  }

  // ---------------------------------------------------------------- reaching states

  lemma ReachesIsReachable(world: World, s: System, clean: bool)
    requires world.wire.Valid()
    ensures Reaches(world, s, clean) ==> Reachable(world, s)
    ensures Reachable(world, s) ==> Reaches(world, s, false)
  {
    hide AllAllowed, After, Start;
    if moves :| AllAllowed(world, Start(), moves) && After(world, Start(), moves) == s {
      assert Reachable(world, s) && Reaches(world, s, false);
    }
  }

  lemma NextIsReached(world: World, s: System, m: Move, clean: bool)
    requires world.wire.Valid() && Reaches(world, s, clean) && Allowed(world, s, m) && (clean ==> IsClean(m))
    ensures Reaches(world, Next(world, s, m), clean)
  {
    hide AllAllowed, After, Start, Next, Allowed, IsClean;
    var moves :|
      AllAllowed(world, Start(), moves) && After(world, Start(), moves) == s
        && (clean ==> forall m | m in moves :: IsClean(m));
    AfterOne(world, moves, m);
    assert forall n | n in moves + [m] :: n in moves || n == m;
  }

  lemma ReachedHasStructure(world: World, s: System, clean: bool)
    requires world.wire.Valid() && Reaches(world, s, clean)
    ensures Structure(world, s)
  {
    hide Reaches, Reachable, Structure;
    ReachesIsReachable(world, s, clean);
    ReachableHasStructure(world, s);
  }

  lemma Member<T>(s: set<T>) returns (x: T)
    requires s != {}
    ensures x in s
  {
    x :| x in s;
  }

  lemma {:induction false} LoadedIsReached(world: World, rows: map<int, Block>, clean: bool)
    requires world.wire.Valid() && IsFresh(rows)
    ensures Reaches(world, Loaded(rows), clean)
    decreases |rows|
  {
    if rows.Keys == {} {
      assert rows == map[];
      var none: seq<Move> := [];
      assert AllAllowed(world, Start(), none) && After(world, Start(), none) == Start();
    } else {
      hide Reaches;
      var id := Member(rows.Keys);
      var fewer := rows - {id};
      LoadedIsReached(world, fewer, clean);
      assert fewer[id := rows[id]] == rows;
      NextIsReached(world, Loaded(fewer), AddRow(id, rows[id]), clean);
    }
  }

  /** The rows of a task among some ids, as the block service may list them. */
  lemma {:induction false} ListingExists(blocks: map<int, Block>, taskId: int, ids: set<int>)
    returns (list: seq<BlockInfo>)
    requires forall id | id in blocks :: IsStorable(id, blocks[id])
    requires ids <= blocks.Keys
    ensures forall r | r in list :: IsRow(blocks, r) && r.taskId == taskId && r.blockId in ids
    ensures forall id | id in ids && blocks[id].taskId == taskId :: exists k | 0 <= k < |list| :: list[k].blockId == id
    ensures forall j, k | 0 <= j < k < |list| :: list[j].blockId != list[k].blockId
    decreases |ids|
  {
    if ids == {} {
      list := [];
    } else {
      var id := Member(ids);
      var fewer := ListingExists(blocks, taskId, ids - {id});
      list := fewer;
      if blocks[id].taskId == taskId {
        list := fewer + [Info(id, blocks[id])];
        assert list[|fewer|].blockId == id;
        forall i | i in ids && blocks[i].taskId == taskId ensures exists k | 0 <= k < |list| :: list[k].blockId == i {
          if i != id {
            var k :| 0 <= k < |fewer| && fewer[k].blockId == i;
            assert list[k].blockId == i;
          }
        }
      }
    }
  }

  function AllSent(s: System): System {
    s.(schedule := s.schedule.(queue := [], published := s.schedule.published + s.schedule.queue))
  }

  function HeadSent(s: System): System
    requires s.schedule.queue != []
  {
    var queue, published := s.schedule.queue, s.schedule.published;
    s.(schedule := s.schedule.(queue := queue[1..], published := published + [queue[0]]))
  }

  lemma TickSendsHead(world: World, s: System, clean: bool)
    requires world.wire.Valid() && Reaches(world, s, clean)
    requires s.schedule.queue != [] && IsActive(s.schedule, s.schedule.queue[0].taskId)
    ensures Reaches(world, HeadSent(s), clean) && AllSent(HeadSent(s)) == AllSent(s)
  {
    hide Reaches;
    NextIsReached(world, s, Plan(Tick), clean);
    var queue, published := s.schedule.queue, s.schedule.published;
    assert (published + [queue[0]]) + queue[1..] == published + queue;
  }

  /** With all tasks of the queue running, ticks publish the whole queue. */
  lemma {:induction false} TicksPublish(world: World, s: System, clean: bool)
    requires world.wire.Valid() && Reaches(world, s, clean)
    requires forall k | 0 <= k < |s.schedule.queue| :: IsActive(s.schedule, s.schedule.queue[k].taskId)
    ensures Reaches(world, AllSent(s), clean)
    decreases |s.schedule.queue|
  {
    if s.schedule.queue == [] {
      assert s.schedule.published + s.schedule.queue == s.schedule.published;
      assert s == AllSent(s);
    } else {
      hide Reaches, AllSent;
      TickSendsHead(world, s, clean);
      TicksPublish(world, HeadSent(s), clean);
    }
  }

  /** Rows of a task have been sent, and the task is pending. */
  ghost predicate IsPublished(s: System, taskId: int) {
    && IsInt64(taskId) && taskId in s.schedule.pending
    && forall id | id in s.store.blocks && s.store.blocks[id].taskId == taskId ::
         IsStorable(id, s.store.blocks[id]) && Info(id, s.store.blocks[id]) in s.schedule.published
  }

  /** From a state with an empty queue a task can be queued and all its requests sent. */
  lemma TaskCanBePublished(world: World, s: System, taskId: Int64, clean: bool) returns (t: System)
    requires world.wire.Valid() && Reaches(world, s, clean) && s.schedule.queue == []
    ensures Reaches(world, t, clean) && t.store == s.store && t.schedule.queue == [] && IsPublished(t, taskId)
    ensures forall u | IsPublished(s, u) :: IsPublished(t, u)
  {
    hide Reaches, Carried;
    ReachedHasStructure(world, s, clean);
    var list := ListingExists(s.store.blocks, taskId, s.store.blocks.Keys);
    var m := Plan(Enqueue(taskId, world.pathOf(taskId), list));
    var queued := Next(world, s, m);
    NextIsReached(world, s, m, clean);
    assert queued.schedule.queue == list;
    TicksPublish(world, queued, clean);
    t := AllSent(queued);
    ListIsPublished(s.store.blocks, taskId, list, t.schedule.published);
  }

  lemma ListIsPublished(blocks: map<int, Block>, taskId: int, list: seq<BlockInfo>, published: seq<BlockInfo>)
    requires forall id | id in blocks :: IsStorable(id, blocks[id])
    requires ListsTask(blocks, taskId, list) && forall r | r in list :: r in published
    ensures forall id | id in blocks && blocks[id].taskId == taskId :: Info(id, blocks[id]) in published
  {
    forall id | id in blocks && blocks[id].taskId == taskId ensures Info(id, blocks[id]) in published {
      var k :| 0 <= k < |list| && list[k].blockId == id;
      assert list[k] in list && IsRow(blocks, list[k]);
      assert list[k] == Info(id, blocks[id]);
    }
  }

  // ---------------------------------------------------------------- one clean answer

  lemma CleanFill(world: World, store: Store, path: string, response: BlockResponse)
    requires IsRow(store.blocks, response.block) && Carried(world, store.blocks[response.block.blockId])
    requires IsWhole(world, response)
    ensures var b := response.block;
            var r := Fill(store, path, response, CLEAN);
            && r.blocks == store.blocks[b.blockId := store.blocks[b.blockId].(state := Completed)]
            && HoldsRange(Content(r.disk, path), world.files[b.fileId], b.offset, b.blockSize)
  {
    hide WriteAt, Holds, HasWaiting;
    var b, source := response.block, world.files[response.block.fileId];
    var was := Content(store.disk, path);
    assert response.data[..b.blockSize] == response.data;
    FillKeepsHolds(was, source, b.offset, response.data, []);
    assert WriteAll(was, b.offset, response.data, []).1;
  }

  /** A clean answer completes its block and leaves the server's bytes in its range. */
  lemma CleanArrive(world: World, s: System, id: int, clean: bool)
    requires world.wire.Valid() && Reaches(world, s, clean)
    requires id in s.store.blocks && Carried(world, s.store.blocks[id]) && IsPublished(s, s.store.blocks[id].taskId)
    ensures var b := s.store.blocks[id];
            var t := Next(world, s, Arrive(Info(id, b), 0, true, CLEAN));
            && Reaches(world, t, clean)
            && t.store.blocks == s.store.blocks[id := b.(state := Completed)]
            && t.schedule.queue == s.schedule.queue && t.schedule.published == s.schedule.published
            && t.schedule.pending.Keys == s.schedule.pending.Keys
            && HoldsRange(Content(t.store.disk, world.pathOf(b.taskId)), world.files[b.fileId], b.offset, b.blockSize)
  {
    hide Reaches, Answer, Fill, HoldsRange, ReadBlockData, RowsAreSound;
    var b := s.store.blocks[id];
    var r := Info(id, b);
    ReachedHasStructure(world, s, clean);
    NextIsReached(world, s, Arrive(r, 0, true, CLEAN), clean);
    AnswerArrivesIff(world.files, true, world.wire, r, 0);
    var response := BlockResponse(r, ReadBlockData(world.files[b.fileId], b.offset, b.blockSize));
    var path := s.schedule.pending[b.taskId].savedPath;
    CleanFill(world, s.store, path, response);
    CleanFill(world, OpenFile(s.store, path), path, response);
  }

  // ---------------------------------------------------------------- conflicts

  /** From a fresh table with two clashing blocks a run reaches a state in which the first one is completed
      and its range of the destination is not what the server has. */
  lemma ConflictLosesData(world: World, rows: map<int, Block>, i: int, j: int) returns (s: System)
    requires world.wire.Valid() && IsFresh(rows) && i in rows && j in rows && Clash(world, rows[i], rows[j])
    ensures Reachable(world, s) && RowsGrow(s.store.blocks, rows)
    ensures i in s.store.blocks && s.store.blocks[i].state == Completed
            && !Rebuilt(world, s.store.disk, s.store.blocks[i])
  {
    hide Reachable, Reaches, Next, HoldsRange;
    var a, b := rows[i], rows[j];
    LoadedIsReached(world, rows, false);
    var t := TaskCanBePublished(world, Loaded(rows), a.taskId, false);
    t := TaskCanBePublished(world, t, b.taskId, false);
    CleanArrive(world, t, i, false);
    var u := Next(world, t, Arrive(Info(i, a), 0, true, CLEAN));
    assert i != j;
    StillPublished(t, u, i, Completed, b.taskId);
    CleanArrive(world, u, j, false);
    s := Next(world, u, Arrive(Info(j, b), 0, true, CLEAN));
    ReachesIsReachable(world, s, false);
    ClashShows(world, s.store.disk, a, b);
  }

  function WithState(blocks: map<int, Block>, id: int, state: BlockState): map<int, Block>
    requires id in blocks
  {
    blocks[id := blocks[id].(state := state)]
  }

  lemma StillPublished(t: System, u: System, i: int, state: BlockState, taskId: int)
    requires IsPublished(t, taskId) && i in t.store.blocks && u.store.blocks == WithState(t.store.blocks, i, state)
    requires u.schedule.published == t.schedule.published && u.schedule.pending.Keys == t.schedule.pending.Keys
    ensures IsPublished(u, taskId)
  {
    forall id | id in u.store.blocks && u.store.blocks[id].taskId == taskId
      ensures IsStorable(id, u.store.blocks[id]) && Info(id, u.store.blocks[id]) in u.schedule.published
    {
      assert Info(id, t.store.blocks[id]) in t.schedule.published;
    }
  }

  lemma ClashShows(world: World, disk: map<string, seq<Byte>>, a: Block, b: Block)
    requires Clash(world, a, b)
    requires HoldsRange(Content(disk, world.pathOf(b.taskId)), world.files[b.fileId], b.offset, b.blockSize)
    ensures !Rebuilt(world, disk, a.(state := Completed))
  {
    var p :| a.offset <= p < a.offset + a.blockSize && b.offset <= p < b.offset + b.blockSize
             && ByteAt(world.files[a.fileId], p) != ByteAt(world.files[b.fileId], p);
    assert Holds(Content(disk, world.pathOf(b.taskId)), world.files[b.fileId], p);
    assert !Holds(Content(disk, world.pathOf(a.taskId)), world.files[a.fileId], p);
  }

  /** Every run over a table keeps the completed blocks rebuilt if and only if no two blocks of it are written
      to the same place with different bytes; the tasks may otherwise share paths as they like. */
  lemma CompletedStayRebuiltIff(world: World, rows: map<int, Block>)
    requires world.wire.Valid() && IsFresh(rows)
    ensures (forall s | Reachable(world, s) && RowsGrow(s.store.blocks, rows) ::
               CompletedAreRebuilt(world, s.store.blocks, s.store.disk))
            <==> NoConflict(world, rows)
  {
    hide Reachable, Rebuilt, Clash;
    if NoConflict(world, rows) {
      forall s | Reachable(world, s) && RowsGrow(s.store.blocks, rows)
        ensures CompletedAreRebuilt(world, s.store.blocks, s.store.disk)
      {
        NoConflictBefore(world, s.store.blocks, rows);
        ReachableHasInv(world, s);
      }
    } else {
      var i, j :| i in rows && j in rows && Clash(world, rows[i], rows[j]);
      var s := ConflictLosesData(world, rows, i, j);
      assert Reachable(world, s) && RowsGrow(s.store.blocks, rows);
    }
  }

  // ---------------------------------------------------------------- completion

  const NO_SEEK: Io := Io(true, true, false, [], true)

  /** One answer can complete a block that can be carried, and fail a block that is answered at all; without
      a fault it fails only those that cannot be carried. */
  lemma OneAnswer(world: World, s: System, taskId: int, id: int, state: BlockState, clean: bool) returns (t: System)
    requires world.wire.Valid() && Reaches(world, s, clean) && IsPublished(s, taskId)
    requires id in s.store.blocks && s.store.blocks[id].taskId == taskId
    requires CanBecome(world, s.store.blocks[id], state, clean)
    ensures Reaches(world, t, clean) && IsPublished(t, taskId) && t.store.blocks == WithState(s.store.blocks, id, state)
  {
    hide Reaches, Answer, HoldsRange, ReadBlockData, RowsAreSound, WriteAll, HasWaiting;
    var b := s.store.blocks[id];
    var r := Info(id, b);
    ReachedHasStructure(world, s, clean);
    var m := Arrive(r, 0, true, if state == Completed || clean then CLEAN else NO_SEEK);
    NextIsReached(world, s, m, clean);
    ArriveCompletesIff(world, s, r, 0, true, m.io);
    AnswerArrivesIff(world.files, true, world.wire, r, 0);
    t := Next(world, s, m);
    StillPublished(s, t, id, state, taskId);
  }

  predicate CanBecome(world: World, b: Block, state: BlockState, clean: bool) {
    if state == Completed then Carried(world, b)
    else state == Failed && Answerable(world, b) && (clean ==> !Carried(world, b))
  }

  function Marked(blocks: map<int, Block>, ids: set<int>, state: BlockState): map<int, Block> {
    map id | id in blocks :: if id in ids then blocks[id].(state := state) else blocks[id]
  }

  lemma MarkOne(blocks: map<int, Block>, ids: set<int>, id: int, state: BlockState)
    requires id in blocks && id in ids
    ensures Marked(WithState(blocks, id, state), ids - {id}, state) == Marked(blocks, ids, state)
  {
  }

  /** Answers for all blocks of a task among some ids, one after the other. */
  lemma {:induction false} Answers(world: World, s: System, taskId: int, ids: set<int>, state: BlockState, clean: bool)
    returns (t: System)
    requires world.wire.Valid() && Reaches(world, s, clean) && IsPublished(s, taskId) && ids <= s.store.blocks.Keys
    requires forall id | id in ids ::
             s.store.blocks[id].taskId == taskId && CanBecome(world, s.store.blocks[id], state, clean)
    ensures Reaches(world, t, clean) && IsPublished(t, taskId) && t.store.blocks == Marked(s.store.blocks, ids, state)
    decreases |ids|
  {
    if ids == {} {
      t := s;
    } else {
      var id := Member(ids);
      var u := OneAnswer(world, s, taskId, id, state, clean);
      MarkOne(s.store.blocks, ids, id, state);
      assert forall i | i in ids - {id} :: u.store.blocks[i] == s.store.blocks[i];
      hide Reaches, IsPublished, CanBecome, Marked, WithState;
      t := Answers(world, u, taskId, ids - {id}, state, clean);
    }
  }

  function RowsOf(rows: map<int, Block>, taskId: int): set<int> {
    set id | id in rows && rows[id].taskId == taskId
  }

  /** A run can complete all blocks of a task if and only if the server has the file of each, the codec can
      carry its size, and its offset is not negative. */
  lemma TaskCanCompleteIff(world: World, rows: map<int, Block>, taskId: Int64)
    requires world.wire.Valid() && IsFresh(rows)
    ensures (exists s :: Reachable(world, s) && SameRows(rows, s.store.blocks) && AllCompleted(s.store.blocks, taskId))
            <==> forall id | id in rows && rows[id].taskId == taskId :: Carried(world, rows[id])
  {
    hide Reachable, Reaches, Carried, IsPublished;
    if s :| Reachable(world, s) && SameRows(rows, s.store.blocks) && AllCompleted(s.store.blocks, taskId) {
      ReachableHasStructure(world, s);
      forall id | id in rows && rows[id].taskId == taskId ensures Carried(world, rows[id]) {
        assert s.store.blocks[id] == rows[id].(state := Completed);
        CarriedInAnyState(world, rows[id], Completed);
      }
    }
    if forall id | id in rows && rows[id].taskId == taskId :: Carried(world, rows[id]) {
      LoadedIsReached(world, rows, false);
      var t := TaskCanBePublished(world, Loaded(rows), taskId, false);
      t := Answers(world, t, taskId, RowsOf(rows, taskId), Completed, false);
      ReachesIsReachable(world, t, false);
      assert Reachable(world, t) && SameRows(rows, t.store.blocks) && AllCompleted(t.store.blocks, taskId);
    }
  }

  lemma CarriedInAnyState(world: World, b: Block, state: BlockState)
    ensures Carried(world, b.(state := state)) <==> Carried(world, b)
  {
  }

  /** The rows of a task are the tiles of one file, and no others. */
  ghost predicate IsTiling(rows: map<int, Block>, taskId: int, fileId: int, fileSize: int, blockBytes: int)
    requires blockBytes > 0
  {
    && IsTiled(rows, taskId, fileId, fileSize, blockBytes)
    && forall id | id in rows && rows[id].taskId == taskId ::
         exists t | t in Tiles(fileSize, blockBytes, 0) :: IsRowOf(rows[id], taskId, fileId, t)
  }

  /** A file that is cut into blocks can be downloaded completely if and only if the server has it, full
      blocks, if there are any, have 2 to MAX_BLOCK bytes, and so has the remainder unless it is empty. */
  lemma FileCanCompleteIff(
      world: World, rows: map<int, Block>, taskId: Int64, fileId: Int64, fileSize: int, blockBytes: int)
    requires world.wire.Valid() && IsFresh(rows) && fileSize > 0 && blockBytes > 0
    requires IsTiling(rows, taskId, fileId, fileSize, blockBytes)
    ensures (exists s :: Reachable(world, s) && SameRows(rows, s.store.blocks) && AllCompleted(s.store.blocks, taskId))
            <==> && fileId in world.files
                 && (fileSize >= blockBytes ==> 2 <= blockBytes <= MAX_BLOCK)
                 && (fileSize % blockBytes != 0 ==> 2 <= fileSize % blockBytes <= MAX_BLOCK)
  {
    hide Reachable, SameRows, AllCompleted, IsFresh;
    TaskCanCompleteIff(world, rows, taskId);
    TilesCarriedIff(world, rows, taskId, fileId, fileSize, blockBytes);
  }

  /** Cut at the default of 134217728 bytes, exactly the files that the server has and that do not leave a
      remainder of one byte can be downloaded completely. */
  lemma DefaultBlocksCompleteIff(
      world: World, rows: map<int, Block>, taskId: Int64, fileId: Int64, fileSize: int)
    requires world.wire.Valid() && IsFresh(rows) && fileSize > 0
    requires IsTiling(rows, taskId, fileId, fileSize, 134217728)
    ensures (exists s :: Reachable(world, s) && SameRows(rows, s.store.blocks) && AllCompleted(s.store.blocks, taskId))
            <==> fileId in world.files && fileSize % 134217728 != 1
  {
    hide Reachable, SameRows, AllCompleted, IsFresh, IsTiling;
    FileCanCompleteIff(world, rows, taskId, fileId, fileSize, 134217728);
  }

  lemma TilesCarriedIff(
      world: World, rows: map<int, Block>, taskId: int, fileId: Int64, fileSize: int, blockBytes: int)
    requires fileSize > 0 && blockBytes > 0 && IsTiling(rows, taskId, fileId, fileSize, blockBytes)
    ensures (forall id | id in rows && rows[id].taskId == taskId :: Carried(world, rows[id]))
            <==> && fileId in world.files
                 && (fileSize >= blockBytes ==> 2 <= blockBytes <= MAX_BLOCK)
                 && (fileSize % blockBytes != 0 ==> 2 <= fileSize % blockBytes <= MAX_BLOCK)
  {
    var tiles, rest := Tiles(fileSize, blockBytes, 0), fileSize % blockBytes;
    TileSizes(fileSize, blockBytes, 0);
    TilesStartBehind(fileSize, blockBytes, 0);
    hide Tiles;
    if forall id | id in rows && rows[id].taskId == taskId :: Carried(world, rows[id]) {
      forall t | t in tiles ensures fileId in world.files && 2 <= t.size <= MAX_BLOCK {
        var id :| id in rows && IsRowOf(rows[id], taskId, fileId, t);
        assert Carried(world, rows[id]);
      }
      if fileSize < blockBytes {
        assert rest == fileSize;
      }
    } else {
      var id :| id in rows && rows[id].taskId == taskId && !Carried(world, rows[id]);
      var t :| t in tiles && IsRowOf(rows[id], taskId, fileId, t);
      assert 0 < t.size && (t.size == blockBytes || t.size == rest) && t.size <= fileSize;
    }
  }

  lemma {:induction false} TilesStartBehind(fileSize: int, blockBytes: int, offset: int)
    requires blockBytes > 0 && offset >= 0
    ensures forall t | t in Tiles(fileSize, blockBytes, offset) :: t.offset >= 0 && 0 < t.size <= fileSize
    decreases fileSize - offset
  {
    if offset < fileSize {
      TilesStartBehind(fileSize, blockBytes, offset + SizeAt(fileSize, blockBytes, offset));
    }
  }

  lemma {:induction false} RunGrowsRows(world: World, s: System, moves: seq<Move>)
    requires world.wire.Valid() && Structure(world, s) && AllAllowed(world, s, moves)
    ensures RowsGrow(s.store.blocks, After(world, s, moves).store.blocks)
    decreases |moves|
  {
    if moves != [] {
      hide Structure, Next, Allowed;
      var init := moves[..|moves| - 1];
      RunGrowsRows(world, s, init);
      EveryRunKeepsStructure(world, s, init);
      MoveGrowsRows(world, After(world, s, init), moves[|moves| - 1]);
    }
  }

  /** A block that cannot be carried is never completed, in any run over any tasks and paths. */
  lemma {:induction false} UncarriedBlockNeverCompletes(world: World, s: System, moves: seq<Move>, id: int)
    requires world.wire.Valid() && Structure(world, s) && AllAllowed(world, s, moves)
    requires id in s.store.blocks && !Carried(world, s.store.blocks[id])
    ensures var after := After(world, s, moves).store.blocks;
            id in after && after[id].state != Completed
              && after[id].(state := Unknown) == s.store.blocks[id].(state := Unknown)
  {
    hide AllAllowed, After, RequestsAreRows, PathsAgree, Carried;
    RunGrowsRows(world, s, moves);
    EveryRunKeepsStructure(world, s, moves);
    CarriedInAnyState(world, s.store.blocks[id], Completed);
  }

  /** A task whose file leaves a last block of one byte, or is cut into single bytes, never has all its
      blocks completed, in any run over any tasks and paths. */
  lemma {:induction false} OddByteFileNeverCompletes(
      world: World, s: System, moves: seq<Move>, taskId: int, fileId: Int64, fileSize: int, blockBytes: int)
    requires world.wire.Valid() && Structure(world, s) && AllAllowed(world, s, moves)
    requires blockBytes > 0 && fileSize > 0 && (blockBytes == 1 || fileSize % blockBytes == 1)
    requires IsTiled(s.store.blocks, taskId, fileId, fileSize, blockBytes)
    ensures !AllCompleted(After(world, s, moves).store.blocks, taskId)
  {
    hide Structure, AllAllowed, After;
    SomeTileHasOneByteIff(fileSize, blockBytes);
    var t :| t in Tiles(fileSize, blockBytes, 0) && t.size == 1;
    var id :| id in s.store.blocks && IsRowOf(s.store.blocks[id], taskId, fileId, t);
    UncarriedBlockNeverCompletes(world, s, moves, id);
  }

  // ---------------------------------------------------------------- the signal and failures

  /** The database refuses to store the new state. */
  const NO_UPDATE: Io := Io(true, true, true, [], false)

  /** The move signals the completion of the task although one of its blocks is marked failed. */
  ghost predicate SignalsDespiteFailure(world: World, rows: map<int, Block>, taskId: Int64, s: System, m: Move)
    requires world.wire.Valid()
  {
    && Reachable(world, s) && Allowed(world, s, m) && SameRows(rows, s.store.blocks)
    && Next(world, s, m).store.signals == s.store.signals + [taskId]
    && !NoneFailed(Next(world, s, m).store.blocks, taskId)
  }

  /** Some run signals the completion of a task that has a failed block if and only if every block of the
      task is answered at all and one of them can be written. */
  lemma SignalDespiteFailureIff(world: World, rows: map<int, Block>, taskId: Int64)
    requires world.wire.Valid() && IsFresh(rows)
    ensures (exists s, m :: SignalsDespiteFailure(world, rows, taskId, s, m))
            <==> && (forall id | id in RowsOf(rows, taskId) :: Answerable(world, rows[id]))
                 && (exists id | id in RowsOf(rows, taskId) :: Carried(world, rows[id]))
  {
    hide SignalsDespiteFailure, Answerable, Carried;
    if s, m :| SignalsDespiteFailure(world, rows, taskId, s, m) {
      SignalNeedsAnswers(world, rows, taskId, s, m);
    }
    if (forall id | id in RowsOf(rows, taskId) :: Answerable(world, rows[id]))
       && exists id | id in RowsOf(rows, taskId) :: Carried(world, rows[id]) {
      var id :| id in RowsOf(rows, taskId) && Carried(world, rows[id]);
      var s, m := SignalCanComeDespiteFailure(world, rows, taskId, id);
    }
  }

  lemma SignalNeedsAnswers(world: World, rows: map<int, Block>, taskId: Int64, s: System, m: Move)
    requires world.wire.Valid() && SignalsDespiteFailure(world, rows, taskId, s, m)
    ensures forall id | id in RowsOf(rows, taskId) :: Answerable(world, rows[id])
    ensures exists id | id in RowsOf(rows, taskId) :: Carried(world, rows[id])
  {
    hide Reachable, Next, Finishes, PathsAgree;
    ReachableHasStructure(world, s);
    SignalIff(world, s, m);
    MoveKeepsStructure(world, s, m);
    MoveGrowsRows(world, s, m);
    var after := Next(world, s, m).store;
    assert after.signals[|s.store.signals|] == taskId == m.request.taskId;
    PublishedRow(world, s, m.request);
    assert m.request.blockId in RowsOf(rows, taskId) && Carried(world, rows[m.request.blockId]);
    forall id | id in RowsOf(rows, taskId) ensures Answerable(world, rows[id]) {
      assert after.blocks[id].state != Waiting;
    }
  }

  lemma SignalCanComeDespiteFailure(world: World, rows: map<int, Block>, taskId: Int64, id: int)
    returns (s: System, m: Move)
    requires world.wire.Valid() && IsFresh(rows)
    requires forall i | i in RowsOf(rows, taskId) :: Answerable(world, rows[i])
    requires id in RowsOf(rows, taskId) && Carried(world, rows[id])
    ensures SignalsDespiteFailure(world, rows, taskId, s, m)
  {
    hide Reachable, Reaches, Answerable, IsPublished, Carried;
    LoadedIsReached(world, rows, false);
    var published := TaskCanBePublished(world, Loaded(rows), taskId, false);
    s := Answers(world, published, taskId, RowsOf(rows, taskId), Failed, false);
    ReachesIsReachable(world, s, false);
    CarriedInAnyState(world, rows[id], Failed);
    m := RefusedUpdate(world, s, taskId, id);
    FailedShows(s.store.blocks, taskId, id);
  }

  lemma FailedShows(blocks: map<int, Block>, taskId: int, id: int)
    requires id in blocks && blocks[id].taskId == taskId && blocks[id].state == Failed
    ensures !NoneFailed(blocks, taskId)
  {
  }

  /** A whole answer whose new state the database refuses still sends the signal when nothing waits. */
  lemma RefusedUpdate(world: World, s: System, taskId: Int64, id: int) returns (m: Move)
    requires world.wire.Valid() && Reachable(world, s) && IsPublished(s, taskId)
    requires id in s.store.blocks && s.store.blocks[id].taskId == taskId && Carried(world, s.store.blocks[id])
    requires forall i | i in s.store.blocks && s.store.blocks[i].taskId == taskId :: s.store.blocks[i].state == Failed
    ensures Allowed(world, s, m) && Next(world, s, m).store.signals == s.store.signals + [taskId]
    ensures Next(world, s, m).store.blocks == s.store.blocks
  {
    hide Reachable, Answer, HoldsRange, ReadBlockData, RowsAreSound, WriteAll;
    var r := Info(id, s.store.blocks[id]);
    m := Arrive(r, 0, true, NO_UPDATE);
    ReachableHasStructure(world, s);
    AnswerArrivesIff(world.files, true, world.wire, r, 0);
    SignalIff(world, s, m);
    assert Next(world, s, m).store.blocks == s.store.blocks;
  }

  function OddFile(state: BlockState): map<int, Block> {
    map[1 := Block(5, 7, 0, 2, Waiting), 2 := Block(5, 7, 2, 1, state)]
  }

  /** No fault of disk, database or server is needed: a file of three bytes is cut at two, and both blocks
      are answered once and without faults, the one-byte block first. It fails, and the other block's
      answer signals the completion of the task. */
  lemma SignalDespiteFailure(world: World) returns (t: System, first: Move, second: Move)
    requires world.wire.Valid() && 5 in world.files
    ensures Reachable(world, t) && t.store.blocks == OddFile(Waiting)
    ensures first == Arrive(BlockInfo(2, 5, 7, 2, 1), 0, true, CLEAN) && Allowed(world, t, first)
    ensures second == Arrive(BlockInfo(1, 5, 7, 0, 2), 0, true, CLEAN)
    ensures SignalsDespiteFailure(world, OddFile(Waiting), 7, Next(world, t, first), second)
  {
    hide Reachable, Reaches, Answer, Fill, HoldsRange, ReadBlockData, RowsAreSound, WriteAll, HasWaiting, NoneFailed;
    var small, large := BlockInfo(2, 5, 7, 2, 1), BlockInfo(1, 5, 7, 0, 2);
    first, second := Arrive(small, 0, true, CLEAN), Arrive(large, 0, true, CLEAN);
    LoadedIsReached(world, OddFile(Waiting), true);
    t := TaskCanBePublished(world, Loaded(OddFile(Waiting)), 7, true);
    ReachesIsReachable(world, t, true);
    assert Info(1, t.store.blocks[1]) == large && Info(2, t.store.blocks[2]) == small;
    ReachableHasStructure(world, t);
    ArriveCompletesIff(world, t, small, 0, true, CLEAN);
    NextIsReachable(world, t, first);
    var s := Next(world, t, first);
    assert s.store.blocks == OddFile(Failed);
    AnswerArrivesIff(world.files, true, world.wire, small, 0);
    ReachableHasStructure(world, s);
    SignalIff(world, s, second);
    ArriveCompletesIff(world, s, large, 0, true, CLEAN);
    NothingWaits(Next(world, s, second).store.blocks);
  }

  lemma NothingWaits(blocks: map<int, Block>)
    requires blocks == OddFile(Failed)[1 := Block(5, 7, 0, 2, Completed)]
    ensures !HasWaiting(blocks, 7) && !NoneFailed(blocks, 7)
  {
    assert blocks[2].state == Failed;
  }
}
