/** The client's block controller and the server's block reader as they change their state. */
module Controllers {
  import opened Options
  import opened Bytes
  import opened Messages
  import opened Scheduling
  import opened Tiling
  import opened Downloads

  class BlockScheduleController {
    var queue: seq<BlockInfo>
    var pending: map<Int64, Task>
    /** What went out to the event hub, and which requests were given up. */
    var published: seq<BlockInfo>
    ghost var dropped: seq<BlockInfo>
    /** The block table, the disk, and the completion signals sent. */
    var blocks: map<int, Block>
    var disk: map<string, seq<Byte>>
    var signals: seq<Int64>

    ghost function Planned(): Schedule
      reads this
    {
      Schedule(queue, pending, published, dropped)
    }

    ghost function Stored(): Store
      reads this
    {
      Store(blocks, disk, signals)
    }

    constructor (blocks: map<int, Block>, disk: map<string, seq<Byte>>)
      ensures Planned() == Schedule([], map[], [], []) && Stored() == Store(blocks, disk, [])
    {
      queue, pending, published, dropped := [], map[], [], [];
      this.blocks, this.disk, signals := blocks, disk, [];
    }

    // -------------------------------------------------------------- scheduling

    /** rows is what the block service returns for the task. */
    method OnTaskEnqueue(taskId: Int64, savedPath: string, rows: seq<BlockInfo>)
      modifies this
      ensures Planned() == Step(old(Planned()), Enqueue(taskId, savedPath, rows))
      ensures Stored() == old(Stored())
    {
      pending := pending[taskId := Task(false, savedPath, false)];
      for i := 0 to |rows|
        invariant queue == old(queue) + rows[..i]
        invariant pending == old(pending)[taskId := Task(false, savedPath, false)]
        invariant published == old(published) && dropped == old(dropped) && Stored() == old(Stored())
      {
        queue := queue + [rows[i]];
      }
      assert rows[..|rows|] == rows;
    }

    method OnTaskCancel(taskId: Int64)
      modifies this
      ensures Planned() == Step(old(Planned()), Cancel(taskId))
      ensures Stored() == old(Stored())
    {
      if taskId !in pending {
        assert pending - {taskId} == pending;
        return;
      }
      pending := map t | t in pending && t != taskId :: pending[t];
    }

    method OnTaskPaused(taskId: Int64, isPaused: bool)
      modifies this
      ensures Planned() == Step(old(Planned()), Pause(taskId, isPaused))
      ensures Stored() == old(Stored())
    {
      if taskId !in pending {
        return;
      }
      pending := pending[taskId := pending[taskId].(isPaused := isPaused)];
    }

    method OnBlockRequest()
      modifies this
      ensures Planned() == Step(old(Planned()), Tick)
      ensures Stored() == old(Stored())
    {
      if queue == [] {
        return;
      }
      var request := queue[0];
      queue := queue[1..];
      if request.taskId !in pending {
        dropped := dropped + [request];
        return;
      }
      if pending[request.taskId].isPaused {
        queue := queue + [request];
        return;
      }
      published := published + [request];
    }

    // -------------------------------------------------------------- responses

    /** Stores the state of a block; a refusal of the database goes unnoticed. */
    method UpdateBlock(id: int, state: BlockState, io: Io)
      requires id in blocks
      modifies this`blocks
      ensures Stored() == Update(old(Stored()), id, state, io)
    {
      if io.updateOk {
        blocks := blocks[id := blocks[id].(state := state)];
      }
    }

    /** Opens the destination: its directory is made if need be, and the file if it does not exist. */
    method Open(taskId: Int64, io: Io) returns (ok: bool)
      requires taskId in pending
      modifies this`pending, this`disk
      ensures ok == Opens(old(pending)[taskId], io)
      ensures old(pending)[taskId].isOpen || !ok ==> pending == old(pending) && disk == old(disk)
      ensures !old(pending)[taskId].isOpen && ok ==>
                && pending == old(pending)[taskId := old(pending)[taskId].(isOpen := true)]
                && Stored() == OpenFile(old(Stored()), old(pending)[taskId].savedPath)
    {
      var task := pending[taskId];
      if task.isOpen {
        return true;
      }
      if !io.directoryOk {
        return false;
      }
      if !io.openOk {
        return false;
      }
      if task.savedPath !in disk {
        disk := disk[task.savedPath := []];
      }
      pending := pending[taskId := task.(isOpen := true)];
      return true;
    }

    /** Writes until nothing is left or a call fails. */
    method WriteData(path: string, at: nat, data: seq<Byte>, grants: seq<int>) returns (ok: bool)
      modifies this`disk
      ensures var (content, done) := WriteAll(old(Content(disk, path)), at, data, grants);
              ok == done && disk == old(disk)[path := content]
    {
      hide WriteAll, WriteAt;
      var restBytes, hasWrite, calls := |data|, 0, 0;
      var content := Content(disk, path);
      ghost var goal := WriteAll(content, at, data, grants);
      assert data[0..] == data && grants[0..] == grants;
      while restBytes > 0
        invariant 0 <= hasWrite <= |data| && restBytes == |data| - hasWrite && 0 <= calls <= |grants|
        invariant WriteAll(content, at + hasWrite, data[hasWrite..], grants[calls..]) == goal
        invariant disk == old(disk)
        decreases |grants| - calls, restBytes
      {
        var bytesWritten := restBytes;
        if calls < |grants| {
          bytesWritten := if grants[calls] < restBytes then grants[calls] else restBytes;
        }
        if bytesWritten < 0 {
          CallFails(content, at + hasWrite, data[hasWrite..], grants[calls..]);
          disk := disk[path := content];
          return false;
        }
        NextCall(content, at, data, grants, hasWrite, calls);
        content := WriteAt(content, at + hasWrite, data[hasWrite..hasWrite + bytesWritten]);
        restBytes := restBytes - bytesWritten;
        hasWrite := hasWrite + bytesWritten;
        calls := if calls < |grants| then calls + 1 else calls;
      }
      NothingLeft(content, at + hasWrite, data[hasWrite..], grants[calls..]);
      disk := disk[path := content];
      return true;
    }

    method OnBlockResponse(response: BlockResponse, io: Io)
      modifies this
      ensures (pending, Stored()) == Respond(old(pending), old(Stored()), response, io)
      ensures queue == old(queue) && published == old(published) && dropped == old(dropped)
    {
      hide WriteAll, WriteAt, HasWaiting;
      var taskId, id, size := response.block.taskId, response.block.blockId, response.block.blockSize;
      if taskId !in pending {
        return;
      }
      if id !in blocks {
        return;
      }
      var ok := Open(taskId, io);
      if !ok {
        UpdateBlock(id, Failed, io);
        return;
      }
      var path := pending[taskId].savedPath;
      if !io.seekOk || response.block.offset < 0 {
        UpdateBlock(id, Failed, io);
        return;
      }
      if ToUnsigned(size) > |response.data| {
        UpdateBlock(id, Failed, io);
        return;
      }
      ok := WriteData(path, response.block.offset, response.data[..if size < 0 then 0 else size], io.grants);
      if !ok {
        UpdateBlock(id, Failed, io);
        return;
      }
      UpdateBlock(id, Completed, io);
      if !HasWaiting(blocks, taskId) {
        signals := signals + [taskId];
      }
    }
  }

  lemma {:induction false} CallFails(content: seq<Byte>, at: nat, data: seq<Byte>, grants: seq<int>)
    requires data != [] && grants != [] && grants[0] < 0
    ensures WriteAll(content, at, data, grants) == (content, false)
  {
  }

  lemma {:induction false} NothingLeft(content: seq<Byte>, at: nat, data: seq<Byte>, grants: seq<int>)
    requires data == []
    ensures WriteAll(content, at, data, grants) == (content, true)
  {
  }

  /** One round of the write loop. */
  lemma NextCall(content: seq<Byte>, at: nat, data: seq<Byte>, grants: seq<int>, hasWrite: nat, calls: nat)
    requires hasWrite < |data| && calls <= |grants| && (calls < |grants| ==> grants[calls] >= 0)
    ensures var rest := |data| - hasWrite;
            var n := if calls < |grants| && grants[calls] < rest then grants[calls] else rest;
            WriteAll(content, at + hasWrite, data[hasWrite..], grants[calls..])
            == WriteAll(WriteAt(content, at + hasWrite, data[hasWrite..hasWrite + n]), at + hasWrite + n,
                        data[hasWrite + n..], grants[if calls < |grants| then calls + 1 else calls..])
  {
    hide WriteAt;
    var rest := data[hasWrite..];
    var n := if calls < |grants| && grants[calls] < |rest| then grants[calls] else |rest|;
    assert rest[..n] == data[hasWrite..hasWrite + n];
    assert rest[n..] == data[hasWrite + n..];
    if calls < |grants| {
      assert grants[calls..][1..] == grants[calls + 1..];
    } else {
      assert grants[calls..] == [] && rest[..n] == rest && data[hasWrite + n..] == [];
    }
  }

  /** The server's reader: a buffer of zeros, filled from the file as far as the file goes. */
  method HandleBlockRequest(files: map<Int64, seq<Byte>>, canOpen: bool, request: BlockInfo)
    returns (response: Option<BlockResponse>)
    ensures response == ServeBlock(files, canOpen, request)
  {
    if request.fileId !in files {
      return Some(BlockResponse(request.(blockSize := 0), []));
    }
    if request.blockSize < 0 {
      return None;
    }
    var size: nat := request.blockSize;
    var data := new Byte[size](_ => 0);
    if !canOpen {
      return Some(BlockResponse(request.(blockSize := 0), []));
    }
    var file := files[request.fileId];
    var count := 0;
    while request.offset >= 0 && count < size && request.offset + count < |file|
      invariant 0 <= count <= size && (request.offset < 0 ==> count == 0)
      invariant forall i | 0 <= i < size :: data[i] == if i < count then ServedByte(file, request.offset, i) else 0
      decreases size - count
    {
      data[count] := file[request.offset + count];
      count := count + 1;
    }
    assert data[..] == ReadBlockData(file, request.offset, size);
    return Some(BlockResponse(request, data[..]));
  }
}
