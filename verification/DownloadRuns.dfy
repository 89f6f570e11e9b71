/** Runs of the whole download: rows are added, tasks are queued, paused and cancelled, requests are
    sent in turn, and answers to them arrive in any order, any number of times, or never. */
module DownloadRuns {
  import opened Bytes
  import opened Messages
  import opened Scheduling
  import opened Tiling
  import opened Downloads

  /** What stays the same during a run: the server's files, where each task saves, the wire. */
  datatype World = World(files: map<Int64, seq<Byte>>, pathOf: int -> string, wire: Wire)

  datatype System = System(schedule: Schedule, store: Store)

  datatype Move =
    | AddRow(id: int, block: Block)
    | Plan(event: Scheduling.Event)
    | Arrive(request: BlockInfo, requestId: Int64, canOpen: bool, io: Io)

  /** The request is made from a row of the block table. */
  predicate IsRow(blocks: map<int, Block>, r: BlockInfo) {
    && r.blockId in blocks
    && var b := blocks[r.blockId];
       b.fileId == r.fileId && b.taskId == r.taskId && b.offset == r.offset && b.blockSize == r.blockSize
  }

  /** What the block service returns for a task: its rows, each once, in some order. */
  ghost predicate ListsTask(blocks: map<int, Block>, taskId: int, rows: seq<BlockInfo>) {
    && (forall r | r in rows :: IsRow(blocks, r) && r.taskId == taskId)
    && (forall id | id in blocks && blocks[id].taskId == taskId :: exists k | 0 <= k < |rows| :: rows[k].blockId == id)
    && forall j, k | 0 <= j < k < |rows| :: rows[j].blockId != rows[k].blockId
  }

  predicate IsInt64(x: int) {
    -TWO_63 <= x < TWO_63
  }

  /** What fits in the columns of the block table, and in the messages. */
  predicate IsStorable(id: int, b: Block) {
    && IsInt64(id) && IsInt64(b.fileId) && IsInt64(b.taskId) && IsInt64(b.offset) && IsInt64(b.blockSize)
    && b.blockSize < TWO_32 - 1000
  }

  ghost predicate Allowed(world: World, s: System, m: Move) {
    match m
    case AddRow(id, block) =>
      id !in s.store.blocks && block.state == Waiting && IsStorable(id, block)
    case Plan(Enqueue(taskId, savedPath, rows)) =>
      savedPath == world.pathOf(taskId) && ListsTask(s.store.blocks, taskId, rows)
    case Plan(_) => true
    case Arrive(request, _, _, _) => request in s.schedule.published
  }

  function Next(world: World, s: System, m: Move): System
    requires world.wire.Valid()
  {
    match m
    case AddRow(id, block) => s.(store := s.store.(blocks := s.store.blocks[id := block]))
    case Plan(event) => s.(schedule := Step(s.schedule, event))
    case Arrive(request, requestId, canOpen, io) =>
      match Answer(world.files, canOpen, world.wire, request, requestId)
      case None => s
      case Some(response) =>
        var (pending, store) := Respond(s.schedule.pending, s.store, response, io);
        System(s.schedule.(pending := pending), store)
  }

  function After(world: World, s: System, moves: seq<Move>): System
    requires world.wire.Valid()
    decreases |moves|
  {
    if moves == [] then s else Next(world, After(world, s, moves[..|moves| - 1]), moves[|moves| - 1])
  }

  ghost predicate AllAllowed(world: World, s: System, moves: seq<Move>)
    requires world.wire.Valid()
    decreases |moves|
  {
    moves == []
    || (&& AllAllowed(world, s, moves[..|moves| - 1])
        && Allowed(world, After(world, s, moves[..|moves| - 1]), moves[|moves| - 1]))
  }

  function Start(): System {
    System(Schedule([], map[], [], []), Store(map[], map[], []))
  }

  // ---------------------------------------------------------------- the invariant

  predicate Holds(content: seq<Byte>, source: seq<Byte>, position: int) {
    0 <= position < |content| && content[position] == ByteAt(source, position)
  }

  ghost predicate HoldsRange(content: seq<Byte>, source: seq<Byte>, from: int, size: int) {
    forall p | from <= p < from + size :: Holds(content, source, p)
  }

  /** The block's range of the destination has the bytes that the server has there. */
  ghost predicate Rebuilt(world: World, disk: map<string, seq<Byte>>, b: Block) {
    && b.fileId in world.files
    && HoldsRange(Content(disk, world.pathOf(b.taskId)), world.files[b.fileId], b.offset, b.blockSize)
  }

  ghost predicate CompletedAreRebuilt(world: World, blocks: map<int, Block>, disk: map<string, seq<Byte>>) {
    forall id | id in blocks && blocks[id].state == Completed :: Rebuilt(world, disk, blocks[id])
  }

  ghost predicate RequestsAreRows(s: System) {
    && (forall r | r in s.schedule.queue :: IsRow(s.store.blocks, r))
    && (forall r | r in s.schedule.published :: IsRow(s.store.blocks, r))
  }

  ghost predicate PathsAgree(world: World, pending: map<Int64, Task>) {
    forall t | t in pending :: pending[t].savedPath == world.pathOf(t)
  }

  /** Whether the server has the block's file, the codec can carry it, and the client can seek to it. */
  predicate Carried(world: World, b: Block) {
    b.fileId in world.files && 2 <= b.blockSize <= MAX_BLOCK && b.offset >= 0
  }

  /** Whether anything can arrive for the block at all. */
  predicate Answerable(world: World, b: Block) {
    b.fileId in world.files && 1 <= b.blockSize <= MAX_BLOCK
  }

  ghost predicate RowsAreSound(world: World, blocks: map<int, Block>) {
    forall id | id in blocks ::
      && IsStorable(id, blocks[id])
      && (blocks[id].state == Waiting
          || (blocks[id].state == Failed && Answerable(world, blocks[id]))
          || (blocks[id].state == Completed && Carried(world, blocks[id])))
  }

  /** Holds in every run, whatever the tasks and their paths. */
  ghost predicate Structure(world: World, s: System) {
    RequestsAreRows(s) && PathsAgree(world, s.schedule.pending) && RowsAreSound(world, s.store.blocks)
  }

  ghost predicate Inv(world: World, s: System) {
    Structure(world, s) && CompletedAreRebuilt(world, s.store.blocks, s.store.disk)
  }

  /** Two blocks that are written to the same place with different bytes. */
  ghost predicate Clash(world: World, a: Block, b: Block) {
    && Carried(world, a) && Carried(world, b) && world.pathOf(a.taskId) == world.pathOf(b.taskId)
    && exists p ::
         && a.offset <= p < a.offset + a.blockSize && b.offset <= p < b.offset + b.blockSize
         && ByteAt(world.files[a.fileId], p) != ByteAt(world.files[b.fileId], p)
  }

  ghost predicate NoConflict(world: World, blocks: map<int, Block>) {
    forall i, j | i in blocks && j in blocks :: !Clash(world, blocks[i], blocks[j])
  }

  // ---------------------------------------------------------------- one write

  /** Writing the file's own bytes at their own place keeps every position that was right. */
  lemma WriteKeepsHolds(content: seq<Byte>, source: seq<Byte>, at: nat, data: seq<Byte>, position: int)
    requires forall i | 0 <= i < |data| :: data[i] == ByteAt(source, at + i)
    ensures Holds(content, source, position) || at <= position < at + |data| ==>
              Holds(WriteAt(content, at, data), source, position)
  {
    hide WriteAt;
    if position >= 0 {
      WriteAtBytes(content, at, data, position);
    }
  }

  /** What a response writes: nothing wrong anywhere, everything in its range if it succeeds, and nothing
      outside its range. */
  lemma {:induction false} FillKeepsHolds(content: seq<Byte>, source: seq<Byte>, at: nat, data: seq<Byte>,
                                          grants: seq<int>)
    requires forall i | 0 <= i < |data| :: data[i] == ByteAt(source, at + i)
    ensures var (r, ok) := WriteAll(content, at, data, grants);
            && (forall p | Holds(content, source, p) :: Holds(r, source, p))
            && (ok ==> HoldsRange(r, source, at, |data|))
            && (forall p | 0 <= p < |content| && !(at <= p < at + |data|) :: p < |r| && r[p] == content[p])
  {
    hide WriteAll, WriteAt, Holds;
    var k := WriteAllIsOneWrite(content, at, data, grants);
    var (r, ok) := WriteAll(content, at, data, grants);
    forall p ensures Holds(content, source, p) || at <= p < at + k ==> Holds(r, source, p) {
      WriteKeepsHolds(content, source, at, data[..k], p);
    }
    forall p | 0 <= p < |content| && !(at <= p < at + |data|) ensures p < |r| && r[p] == content[p] {
      WriteAtBytes(content, at, data[..k], p);
    }
  }

  predicate IsShort(response: BlockResponse) {
    |response.data| < response.block.blockSize
  }

  predicate IsWhole(world: World, response: BlockResponse) {
    && response.block.fileId in world.files && 2 <= response.block.blockSize <= MAX_BLOCK
    && response.data == ReadBlockData(world.files[response.block.fileId], response.block.offset,
                                      response.block.blockSize)
  }

  /** An answer is the whole block, or has less data than it announces. */
  lemma AnswerIsHonest(world: World, request: BlockInfo, requestId: Int64, canOpen: bool)
    requires world.wire.Valid() && request.blockSize < TWO_32 - 1000
    ensures var answer := Answer(world.files, canOpen, world.wire, request, requestId);
            answer.Some? ==>
              && answer.value.block == request && request.fileId in world.files && 1 <= request.blockSize <= MAX_BLOCK
              && (IsShort(answer.value) || IsWhole(world, answer.value))
  {
    hide Answer, ReadBlockData;
    AnswerArrivesIff(world.files, canOpen, world.wire, request, requestId);
  }

  // ---------------------------------------------------------------- one response

  /** Only the states of rows change. */
  ghost predicate SameRows(before: map<int, Block>, after: map<int, Block>) {
    && before.Keys == after.Keys
    && forall id | id in before :: after[id] == before[id].(state := after[id].state)
  }

  /** A response changes states of rows and opens tasks, and keeps the tables sound. */
  lemma UpdateKeepsRows(world: World, store: Store, id: int, state: BlockState, io: Io)
    requires id in store.blocks && RowsAreSound(world, store.blocks)
    requires if state == Failed then Answerable(world, store.blocks[id])
             else state == Completed && Carried(world, store.blocks[id])
    ensures var r := Update(store, id, state, io);
            RowsAreSound(world, r.blocks) && SameRows(store.blocks, r.blocks) && r.disk == store.disk
  {
  }

  lemma FillKeepsRows(world: World, store: Store, path: string, response: BlockResponse, io: Io)
    requires RowsAreSound(world, store.blocks) && IsRow(store.blocks, response.block)
    requires Answerable(world, store.blocks[response.block.blockId]) && (IsShort(response) || IsWhole(world, response))
    ensures var r := Fill(store, path, response, io);
            RowsAreSound(world, r.blocks) && SameRows(store.blocks, r.blocks)
  {
    hide RowsAreSound, SameRows, Update, WriteAll, Content, HasWaiting;
    var id := response.block.blockId;
    UpdateKeepsRows(world, store, id, Failed, io);
    if !IsShort(response) && response.block.offset >= 0 {
      var (content, ok) := WriteAll(Content(store.disk, path), response.block.offset,
                                    response.data[..response.block.blockSize], io.grants);
      var written := store.(disk := store.disk[path := content]);
      UpdateKeepsRows(world, written, id, if ok then Completed else Failed, io);
    }
  }

  lemma RespondKeepsRows(world: World, s: System, response: BlockResponse, io: Io)
    requires Structure(world, s) && IsRow(s.store.blocks, response.block)
    requires Answerable(world, s.store.blocks[response.block.blockId])
             && (IsShort(response) || IsWhole(world, response))
    ensures var (pending, store) := Respond(s.schedule.pending, s.store, response, io);
            PathsAgree(world, pending) && RowsAreSound(world, store.blocks) && SameRows(s.store.blocks, store.blocks)
  {
    hide RowsAreSound, Fill, Update, RequestsAreRows, IsShort, IsWhole;
    var taskId := response.block.taskId;
    if taskId in s.schedule.pending {
      var path := s.schedule.pending[taskId].savedPath;
      assert OpenFile(s.store, path).blocks == s.store.blocks;
      hide OpenFile;
      FillKeepsRows(world, s.store, path, response, io);
      FillKeepsRows(world, OpenFile(s.store, path), path, response, io);
      UpdateKeepsRows(world, s.store, response.block.blockId, Failed, io);
    }
    SameRowsItself(s.store.blocks);
  }

  lemma SameRowsItself(blocks: map<int, Block>)
    ensures SameRows(blocks, blocks)
  {
  }

  lemma UpdateKeeps(world: World, store: Store, id: int, state: BlockState, io: Io)
    requires id in store.blocks && CompletedAreRebuilt(world, store.blocks, store.disk)
    requires state == Failed || (state == Completed && Rebuilt(world, store.disk, store.blocks[id]))
    ensures var r := Update(store, id, state, io);
            CompletedAreRebuilt(world, r.blocks, r.disk)
  {
    hide HoldsRange;
  }

  /** Content that is right in the written range, and elsewhere as it was, keeps every completed block that
      does not clash with the written one. */
  lemma WrittenKeeps(world: World, blocks: map<int, Block>, disk: map<string, seq<Byte>>, w: Block, content: seq<Byte>)
    requires RowsAreSound(world, blocks) && CompletedAreRebuilt(world, blocks, disk) && Carried(world, w)
    requires forall id | id in blocks :: !Clash(world, blocks[id], w)
    requires var path, source := world.pathOf(w.taskId), world.files[w.fileId];
             && (forall p | Holds(Content(disk, path), source, p) :: Holds(content, source, p))
             && (forall p | 0 <= p < |Content(disk, path)| && !(w.offset <= p < w.offset + w.blockSize) ::
                   p < |content| && content[p] == Content(disk, path)[p])
    ensures CompletedAreRebuilt(world, blocks, disk[world.pathOf(w.taskId) := content])
  {
    var after := disk[world.pathOf(w.taskId) := content];
    forall id | id in blocks && blocks[id].state == Completed ensures Rebuilt(world, after, blocks[id]) {
      var b := blocks[id];
      assert Rebuilt(world, disk, b) && Carried(world, b) && !Clash(world, b, w);
      if world.pathOf(b.taskId) == world.pathOf(w.taskId) {
        WrittenKeepsOne(world, Content(disk, world.pathOf(w.taskId)), content, b, w);
      }
    }
  }

  lemma WrittenKeepsOne(world: World, was: seq<Byte>, content: seq<Byte>, b: Block, w: Block)
    requires Carried(world, b) && Carried(world, w) && !Clash(world, b, w)
             && world.pathOf(b.taskId) == world.pathOf(w.taskId)
    requires HoldsRange(was, world.files[b.fileId], b.offset, b.blockSize)
    requires forall p | Holds(was, world.files[w.fileId], p) :: Holds(content, world.files[w.fileId], p)
    requires forall p | 0 <= p < |was| && !(w.offset <= p < w.offset + w.blockSize) ::
             p < |content| && content[p] == was[p]
    ensures HoldsRange(content, world.files[b.fileId], b.offset, b.blockSize)
  {
    forall p | b.offset <= p < b.offset + b.blockSize ensures Holds(content, world.files[b.fileId], p) {
      assert Holds(was, world.files[b.fileId], p);
      if w.offset <= p < w.offset + w.blockSize {
        assert ByteAt(world.files[b.fileId], p) == ByteAt(world.files[w.fileId], p);
        assert Holds(was, world.files[w.fileId], p);
      }
    }
  }

  lemma FillKeeps(world: World, store: Store, response: BlockResponse, io: Io)
    requires RowsAreSound(world, store.blocks) && NoConflict(world, store.blocks)
    requires CompletedAreRebuilt(world, store.blocks, store.disk)
    requires IsRow(store.blocks, response.block) && 1 <= response.block.blockSize
    requires IsShort(response) || IsWhole(world, response)
    ensures var r := Fill(store, world.pathOf(response.block.taskId), response, io);
            CompletedAreRebuilt(world, r.blocks, r.disk)
  {
    hide RowsAreSound, CompletedAreRebuilt, Holds, HoldsRange, Update, WriteAll, Content, HasWaiting, Clash;
    var b, id := response.block, response.block.blockId;
    UpdateKeeps(world, store, id, Failed, io);
    if io.seekOk && !IsShort(response) && b.offset >= 0 {
      var path, source, row := world.pathOf(b.taskId), world.files[b.fileId], store.blocks[id];
      var data := response.data[..b.blockSize];
      assert data == response.data;
      FillKeepsHolds(Content(store.disk, path), source, b.offset, data, io.grants);
      var (content, ok) := WriteAll(Content(store.disk, path), b.offset, data, io.grants);
      WrittenKeeps(world, store.blocks, store.disk, row, content);
      var written := store.(disk := store.disk[path := content]);
      NewContent(store.disk, path, content);
      UpdateKeeps(world, written, id, if ok then Completed else Failed, io);
    }
  }

  lemma NewContent(disk: map<string, seq<Byte>>, path: string, content: seq<Byte>)
    ensures Content(disk[path := content], path) == content
  {
  }

  lemma OpenKeeps(world: World, store: Store, path: string)
    requires CompletedAreRebuilt(world, store.blocks, store.disk)
    ensures CompletedAreRebuilt(world, store.blocks, OpenFile(store, path).disk)
            && OpenFile(store, path).blocks == store.blocks
  {
    hide HoldsRange;
    var r := OpenFile(store, path);
    forall id | id in store.blocks && store.blocks[id].state == Completed
      ensures Rebuilt(world, r.disk, store.blocks[id])
    {
      assert Content(r.disk, world.pathOf(store.blocks[id].taskId))
        == Content(store.disk, world.pathOf(store.blocks[id].taskId));
    }
  }

  lemma RespondKeeps(world: World, s: System, response: BlockResponse, io: Io)
    requires Inv(world, s) && NoConflict(world, s.store.blocks)
    requires IsRow(s.store.blocks, response.block) && 1 <= response.block.blockSize
    requires IsShort(response) || IsWhole(world, response)
    ensures var store := Respond(s.schedule.pending, s.store, response, io).1;
            CompletedAreRebuilt(world, store.blocks, store.disk)
  {
    hide RowsAreSound, CompletedAreRebuilt, Fill, Update, OpenFile, RequestsAreRows, IsShort, IsWhole, NoConflict;
    var taskId := response.block.taskId;
    if taskId in s.schedule.pending {
      var path := s.schedule.pending[taskId].savedPath;
      FillKeeps(world, s.store, response, io);
      OpenKeeps(world, s.store, path);
      FillKeeps(world, OpenFile(s.store, path), response, io);
      UpdateKeeps(world, s.store, response.block.blockId, Failed, io);
    }
  }

  // ---------------------------------------------------------------- every run

  lemma AddRowKeeps(world: World, s: System, id: int, block: Block)
    requires Structure(world, s) && Allowed(world, s, AddRow(id, block)) && world.wire.Valid()
    ensures var t := Next(world, s, AddRow(id, block));
            && Structure(world, t)
            && (CompletedAreRebuilt(world, s.store.blocks, s.store.disk) ==>
                  CompletedAreRebuilt(world, t.store.blocks, t.store.disk))
  {
    hide HoldsRange, Carried;
  }

  lemma PlanKeeps(world: World, s: System, event: Scheduling.Event)
    requires Structure(world, s) && Allowed(world, s, Plan(event)) && world.wire.Valid()
    ensures Structure(world, Next(world, s, Plan(event)))
  {
    hide RowsAreSound, IsRow;
  }

  lemma ArriveKeeps(world: World, s: System, request: BlockInfo, requestId: Int64, canOpen: bool, io: Io)
    requires Structure(world, s) && world.wire.Valid() && request in s.schedule.published
    ensures Structure(world, Next(world, s, Arrive(request, requestId, canOpen, io)))
  {
    hide Answer, Respond, IsShort, IsWhole, Carried;
    AnswerIsHonest(world, request, requestId, canOpen);
    var answer := Answer(world.files, canOpen, world.wire, request, requestId);
    if answer.Some? {
      RespondKeepsRows(world, s, answer.value, io);
    }
  }

  lemma MoveKeepsStructure(world: World, s: System, m: Move)
    requires world.wire.Valid() && Structure(world, s) && Allowed(world, s, m)
    ensures Structure(world, Next(world, s, m))
  {
    hide Structure, Next;
    match m
    case AddRow(id, block) => AddRowKeeps(world, s, id, block);
    case Plan(event) => PlanKeeps(world, s, event);
    case Arrive(request, requestId, canOpen, io) => ArriveKeeps(world, s, request, requestId, canOpen, io);
  }

  /** In every reachable state each request is made from a row, and only blocks that the codec can carry
      are completed. */
  lemma {:induction false} EveryRunKeepsStructure(world: World, s: System, moves: seq<Move>)
    requires world.wire.Valid() && Structure(world, s) && AllAllowed(world, s, moves)
    ensures Structure(world, After(world, s, moves))
    decreases |moves|
  {
    if moves != [] {
      hide Structure, Next, Allowed;
      var init, last := moves[..|moves| - 1], moves[|moves| - 1];
      EveryRunKeepsStructure(world, s, init);
      MoveKeepsStructure(world, After(world, s, init), last);
    }
  }

  /** Rows stay as they are but for their states. */
  ghost predicate RowsGrow(before: map<int, Block>, after: map<int, Block>) {
    forall id | id in before :: id in after && after[id] == before[id].(state := after[id].state)
  }

  lemma MoveGrowsRows(world: World, s: System, m: Move)
    requires world.wire.Valid() && Structure(world, s) && Allowed(world, s, m)
    ensures RowsGrow(s.store.blocks, Next(world, s, m).store.blocks)
  {
    hide Answer, Respond, RowsAreSound, PathsAgree, IsShort, IsWhole;
    if m.Arrive? {
      assert IsRow(s.store.blocks, m.request);
      StorableRow(world, s.store.blocks, m.request);
      AnswerIsHonest(world, m.request, m.requestId, m.canOpen);
      var answer := Answer(world.files, m.canOpen, world.wire, m.request, m.requestId);
      if answer.Some? {
        RespondKeepsRows(world, s, answer.value, m.io);
      }
    }
  }

  lemma StorableRow(world: World, blocks: map<int, Block>, r: BlockInfo)
    requires RowsAreSound(world, blocks) && IsRow(blocks, r)
    ensures r.blockSize < TWO_32 - 1000
  {
  }

  /** Fewer rows clash less. */
  lemma NoConflictBefore(world: World, before: map<int, Block>, after: map<int, Block>)
    requires RowsGrow(before, after) && NoConflict(world, after)
    ensures NoConflict(world, before)
  {
    forall i, j | i in before && j in before ensures !Clash(world, before[i], before[j]) {
      assert !Clash(world, after[i], after[j]);
    }
  }

  lemma MoveKeepsInv(world: World, s: System, m: Move)
    requires world.wire.Valid() && Inv(world, s) && Allowed(world, s, m) && NoConflict(world, s.store.blocks)
    ensures Inv(world, Next(world, s, m))
  {
    hide Structure, RowsAreSound, CompletedAreRebuilt, NoConflict, Answer, Respond, IsShort, IsWhole;
    MoveKeepsStructure(world, s, m);
    if m.AddRow? {
      AddRowKeeps(world, s, m.id, m.block);
    } else if m.Arrive? {
      PublishedRow(world, s, m.request);
      AnswerIsHonest(world, m.request, m.requestId, m.canOpen);
      var answer := Answer(world.files, m.canOpen, world.wire, m.request, m.requestId);
      if answer.Some? {
        RespondKeeps(world, s, answer.value, m.io);
      }
    }
  }

  lemma PublishedRow(world: World, s: System, request: BlockInfo)
    requires Structure(world, s) && request in s.schedule.published
    ensures IsRow(s.store.blocks, request) && request.blockSize < TWO_32 - 1000
  {
  }

  /** In every run over a table without clashing blocks the invariant holds in every state: whatever the
      order, repetition, delay or loss of answers and the failures of the disk and the database, a block is
      marked completed only while its range of the destination has the server's bytes. */
  lemma {:induction false} EveryRunKeepsInv(world: World, s: System, moves: seq<Move>)
    requires world.wire.Valid() && Inv(world, s) && AllAllowed(world, s, moves)
    requires NoConflict(world, After(world, s, moves).store.blocks)
    ensures Inv(world, After(world, s, moves))
    decreases |moves|
  {
    if moves != [] {
      var init, last := moves[..|moves| - 1], moves[|moves| - 1];
      var now := After(world, s, init);
      EveryRunKeepsStructure(world, s, init);
      hide Structure, CompletedAreRebuilt, Next, Allowed, NoConflict;
      MoveGrowsRows(world, now, last);
      NoConflictBefore(world, now.store.blocks, Next(world, now, last).store.blocks);
      EveryRunKeepsInv(world, s, init);
      MoveKeepsInv(world, now, last);
    }
  }

  // ---------------------------------------------------------------- the finished file

  ghost predicate AllCompleted(blocks: map<int, Block>, taskId: int) {
    forall id | id in blocks && blocks[id].taskId == taskId :: blocks[id].state == Completed
  }

  lemma PositionIsRebuilt(
      world: World, s: System, taskId: int, fileId: Int64, fileSize: int, blockBytes: int, position: int)
    requires Inv(world, s) && blockBytes > 0
    requires IsTiled(s.store.blocks, taskId, fileId, fileSize, blockBytes) && AllCompleted(s.store.blocks, taskId)
    requires 0 <= position < fileSize
    ensures fileId in world.files
    ensures Holds(Content(s.store.disk, world.pathOf(taskId)), world.files[fileId], position)
  {
    hide Holds, RequestsAreRows, PathsAgree, RowsAreSound, Content;
    var blocks, tiles := s.store.blocks, Tiles(fileSize, blockBytes, 0);
    TilesPartition(fileSize, blockBytes, 0, position);
    var k :| 0 <= k < |tiles| && Covers(tiles[k], position);
    assert tiles[k] in tiles;
    var id :| id in blocks && IsRowOf(blocks[id], taskId, fileId, tiles[k]);
    assert Rebuilt(world, s.store.disk, blocks[id]);
  }

  lemma PrefixFromHolds(content: seq<Byte>, source: seq<Byte>, n: nat)
    requires n <= |source| && forall p | 0 <= p < n :: Holds(content, source, p)
    ensures source[..n] <= content
  {
    assert n == 0 || Holds(content, source, n - 1);
    forall p | 0 <= p < n ensures content[p] == source[p] {
      assert Holds(content, source, p);
    }
  }

  /** Once all blocks of a task that tile a file are completed, the destination starts with the file. */
  lemma CompletedTaskIsTheFile(
      world: World, s: System, taskId: int, fileId: Int64, fileSize: int, blockBytes: int)
    requires Inv(world, s) && blockBytes > 0
    requires IsTiled(s.store.blocks, taskId, fileId, fileSize, blockBytes) && AllCompleted(s.store.blocks, taskId)
    requires fileId in world.files && 0 <= fileSize <= |world.files[fileId]|
    ensures world.files[fileId][..fileSize] <= Content(s.store.disk, world.pathOf(taskId))
  {
    hide Inv, IsTiled, AllCompleted, Content;
    var content, source := Content(s.store.disk, world.pathOf(taskId)), world.files[fileId];
    forall p | 0 <= p < fileSize ensures Holds(content, source, p) {
      PositionIsRebuilt(world, s, taskId, fileId, fileSize, blockBytes, p);
    }
    PrefixFromHolds(content, source, fileSize);
  }

  // ---------------------------------------------------------------- which blocks can complete

  /** Whether the write loop gets through: no call fails before the data is used up. */
  predicate Finishes(size: nat, grants: seq<int>)
    decreases |grants|
  {
    size == 0 || grants == []
    || (grants[0] >= 0 && Finishes(if grants[0] < size then size - grants[0] else 0, grants[1..]))
  }

  lemma {:induction false} WriteAllFinishesIff(file: seq<Byte>, at: nat, data: seq<Byte>, grants: seq<int>)
    ensures WriteAll(file, at, data, grants).1 <==> Finishes(|data|, grants)
    decreases |grants|
  {
    hide WriteAt;
    if data != [] && grants != [] && grants[0] >= 0 {
      var n := if grants[0] < |data| then grants[0] else |data|;
      WriteAllFinishesIff(WriteAt(file, at, data[..n]), at + n, data[n..], grants[1..]);
    }
  }

  lemma FillCompletesIff(store: Store, path: string, response: BlockResponse, io: Io)
    requires response.block.blockId in store.blocks && 1 <= response.block.blockSize && io.updateOk
    requires |response.data| < response.block.blockSize || |response.data| == response.block.blockSize
    ensures var b := response.block;
            Fill(store, path, response, io).blocks
            == store.blocks[b.blockId := store.blocks[b.blockId].(
                 state := if |response.data| == b.blockSize && b.offset >= 0 && io.seekOk
                   && Finishes(b.blockSize, io.grants)
                          then Completed else Failed)]
  {
    hide WriteAll, HasWaiting, Finishes;
    var b := response.block;
    if |response.data| == b.blockSize && b.offset >= 0 {
      assert response.data[..b.blockSize] == response.data;
      WriteAllFinishesIff(Content(store.disk, path), b.offset, response.data, io.grants);
    }
  }

  /** The exact effect of an answer on its block: nothing when it does not arrive; completed if and only
      if the server has the file, the size can be carried by the codec, and the disk does its part. */
  lemma ArriveCompletesIff(world: World, s: System, request: BlockInfo, requestId: Int64, canOpen: bool, io: Io)
    requires world.wire.Valid() && Structure(world, s) && request in s.schedule.published
    requires request.taskId in s.schedule.pending && io.updateOk
    ensures var after := Next(world, s, Arrive(request, requestId, canOpen, io)).store.blocks;
            var found := request.fileId in world.files && canOpen;
            after == if !found || request.blockSize < 1 || request.blockSize > MAX_BLOCK then s.store.blocks
                     else s.store.blocks[request.blockId := s.store.blocks[request.blockId].(
                            state := if Writes(world, s, Arrive(request, requestId, canOpen, io))
                                     then Completed else Failed)]
  {
    hide Answer, Fill, Finishes, PathsAgree, RowsAreSound, ReadBlockData;
    PublishedRow(world, s, request);
    AnswerArrivesIff(world.files, canOpen, world.wire, request, requestId);
    var answer := Answer(world.files, canOpen, world.wire, request, requestId);
    if answer.Some? {
      var path := s.schedule.pending[request.taskId].savedPath;
      FillCompletesIff(s.store, path, answer.value, io);
      FillCompletesIff(OpenFile(s.store, path), path, answer.value, io);
    }
  }

  /** The move brings a whole block of a pending task, and the disk takes all of it. */
  predicate Writes(world: World, s: System, m: Move) {
    && m.Arrive? && m.request.taskId in s.schedule.pending && m.request.fileId in world.files && m.canOpen
    && 2 <= m.request.blockSize <= MAX_BLOCK && m.request.offset >= 0
    && Opens(s.schedule.pending[m.request.taskId], m.io) && m.io.seekOk && Finishes(m.request.blockSize, m.io.grants)
  }

  // ---------------------------------------------------------------- the signal

  lemma UpdateSignals(store: Store, id: int, state: BlockState, io: Io)
    requires id in store.blocks
    ensures Update(store, id, state, io).signals == store.signals
  {
  }

  lemma FillSignalsIff(store: Store, path: string, response: BlockResponse, io: Io)
    requires response.block.blockId in store.blocks && 1 <= response.block.blockSize
    requires |response.data| < response.block.blockSize || |response.data| == response.block.blockSize
    ensures var b := response.block;
            var after := Fill(store, path, response, io);
            after.signals
            == if && |response.data| == b.blockSize && b.offset >= 0 && io.seekOk && Finishes(b.blockSize, io.grants)
                  && !HasWaiting(after.blocks, b.taskId)
               then store.signals + [b.taskId] else store.signals
  {
    hide HasWaiting, WriteAll, Content, Update, Finishes;
    var b := response.block;
    UpdateSignals(store, b.blockId, Failed, io);
    if |response.data| == b.blockSize && b.offset >= 0 {
      assert response.data[..b.blockSize] == response.data;
      WriteAllFinishesIff(Content(store.disk, path), b.offset, response.data, io.grants);
      var content := WriteAll(Content(store.disk, path), b.offset, response.data, io.grants).0;
      var written := store.(disk := store.disk[path := content]);
      UpdateSignals(written, b.blockId, Failed, io);
      UpdateSignals(written, b.blockId, Completed, io);
    }
  }

  /** The completion of a task is signalled if and only if the move writes a whole block of it and no
      block of the task waits after that. */
  lemma SignalIff(world: World, s: System, m: Move)
    requires world.wire.Valid() && Structure(world, s) && Allowed(world, s, m)
    ensures var after := Next(world, s, m).store;
            after.signals == if Writes(world, s, m) && !HasWaiting(after.blocks, m.request.taskId)
                             then s.store.signals + [m.request.taskId] else s.store.signals
  {
    hide Answer, HasWaiting, Fill, Finishes, PathsAgree, RowsAreSound, ReadBlockData;
    if m.Arrive? {
      PublishedRow(world, s, m.request);
      AnswerArrivesIff(world.files, m.canOpen, world.wire, m.request, m.requestId);
      var answer := Answer(world.files, m.canOpen, world.wire, m.request, m.requestId);
      if answer.Some? && m.request.taskId in s.schedule.pending {
        var path := s.schedule.pending[m.request.taskId].savedPath;
        FillSignalsIff(s.store, path, answer.value, m.io);
        FillSignalsIff(OpenFile(s.store, path), path, answer.value, m.io);
        UpdateSignals(s.store, m.request.blockId, Failed, m.io);
      }
    }
  }

  ghost predicate NoneFailed(blocks: map<int, Block>, taskId: int) {
    forall id | id in blocks && blocks[id].taskId == taskId :: blocks[id].state != Failed
  }

  ghost predicate Reachable(world: World, s: System)
    requires world.wire.Valid()
  {
    exists moves :: AllAllowed(world, Start(), moves) && After(world, Start(), moves) == s
  }

  lemma StartHasInv(world: World)
    ensures Inv(world, Start())
  {
  }

  lemma ReachableHasStructure(world: World, s: System)
    requires world.wire.Valid() && Reachable(world, s)
    ensures Structure(world, s)
  {
    hide Structure, AllAllowed, After, Start;
    var moves :| AllAllowed(world, Start(), moves) && After(world, Start(), moves) == s;
    StartHasInv(world);
    EveryRunKeepsStructure(world, Start(), moves);
  }

  lemma ReachableHasInv(world: World, s: System)
    requires world.wire.Valid() && Reachable(world, s) && NoConflict(world, s.store.blocks)
    ensures Inv(world, s)
  {
    hide Inv, AllAllowed, After, Start, NoConflict;
    var moves :| AllAllowed(world, Start(), moves) && After(world, Start(), moves) == s;
    StartHasInv(world);
    EveryRunKeepsInv(world, Start(), moves);
  }

  lemma {:induction false} AfterOne(world: World, moves: seq<Move>, m: Move)
    requires world.wire.Valid() && AllAllowed(world, Start(), moves) && Allowed(world, After(world, Start(), moves), m)
    ensures AllAllowed(world, Start(), moves + [m])
    ensures After(world, Start(), moves + [m]) == Next(world, After(world, Start(), moves), m)
  {
    hide Next, Allowed;
    assert (moves + [m])[..|moves|] == moves;
  }

  lemma NextIsReachable(world: World, s: System, m: Move)
    requires world.wire.Valid() && Reachable(world, s) && Allowed(world, s, m)
    ensures Reachable(world, Next(world, s, m))
  {
    hide AllAllowed, After, Start, Next, Allowed;
    var moves :| AllAllowed(world, Start(), moves) && After(world, Start(), moves) == s;
    AfterOne(world, moves, m);
  }

  lemma SettledIsCompleteIff(world: World, blocks: map<int, Block>, taskId: int)
    requires RowsAreSound(world, blocks) && !HasWaiting(blocks, taskId)
    ensures AllCompleted(blocks, taskId) <==> NoneFailed(blocks, taskId)
  {
  }

  /** A signalled task is complete if and only if none of its blocks has failed. */
  lemma SignalledIsCompleteIff(world: World, s: System, m: Move, taskId: int)
    requires world.wire.Valid() && Reachable(world, s) && Allowed(world, s, m)
    requires Next(world, s, m).store.signals == s.store.signals + [taskId]
    ensures var blocks := Next(world, s, m).store.blocks;
            AllCompleted(blocks, taskId) <==> NoneFailed(blocks, taskId)
  {
    hide Reachable, Next, Allowed, Finishes, HasWaiting, RowsAreSound, AllCompleted, NoneFailed;
    ReachableHasStructure(world, s);
    MoveKeepsStructure(world, s, m);
    SignalIff(world, s, m);
    var after := Next(world, s, m).store;
    assert after.signals[|s.store.signals|] == taskId == m.request.taskId;
    SettledIsCompleteIff(world, after.blocks, taskId);
  }

  /** The main result, in every reachable state over a table without clashing blocks: when the completion of
      a task is signalled and none of its blocks is marked failed, the destination starts with the file. */
  lemma SignalledFileIsRebuilt(
      world: World, s: System, m: Move, taskId: int, fileId: Int64, fileSize: int, blockBytes: int)
    requires world.wire.Valid() && Reachable(world, s) && Allowed(world, s, m)
    requires var after := Next(world, s, m).store;
             && NoConflict(world, after.blocks) && after.signals == s.store.signals + [taskId]
             && NoneFailed(after.blocks, taskId)
             && blockBytes > 0 && IsTiled(after.blocks, taskId, fileId, fileSize, blockBytes)
    requires fileId in world.files && 0 <= fileSize <= |world.files[fileId]|
    ensures world.files[fileId][..fileSize] <= Content(Next(world, s, m).store.disk, world.pathOf(taskId))
  {
    hide Reachable, Next, Allowed, IsTiled, Content, Inv, NoneFailed, AllCompleted, NoConflict;
    SignalledIsCompleteIff(world, s, m, taskId);
    NextIsReachable(world, s, m);
    ReachableHasInv(world, Next(world, s, m));
    CompletedTaskIsTheFile(world, Next(world, s, m), taskId, fileId, fileSize, blockBytes);
  }
}
