/** Rebuilding a file from the block responses (block_schedule_controller.cpp, business_runtime.cpp). */
module Downloads {
  import opened Options
  import opened Bytes
  import opened Codec
  import opened Messages
  import opened Envelopes
  import opened Scheduling
  import opened Tiling

  // ---------------------------------------------------------------- files

  function Zeros(n: nat): (s: seq<Byte>)
    ensures |s| == n && forall i :: 0 <= i < n ==> s[i] == 0
  {
    seq(n, _ => 0)
  }

  /** One positioned write; a gap behind the old end is filled with zeros. */
  function WriteAt(file: seq<Byte>, at: nat, data: seq<Byte>): (r: seq<Byte>)
    ensures |r| >= |file|
  {
    if data == [] then file
    else
      var padded := if |file| < at then file + Zeros(at - |file|) else file;
      padded[..at] + data + (if at + |data| < |padded| then padded[at + |data|..] else [])
  }

  lemma WriteAtBytes(file: seq<Byte>, at: nat, data: seq<Byte>, position: nat)
    ensures var r := WriteAt(file, at, data);
            && (at <= position < at + |data| ==> position < |r| && r[position] == data[position - at])
            && (position < |file| && !(at <= position < at + |data|) ==> r[position] == file[position])
  {
  }

  lemma WriteAtJoins(file: seq<Byte>, at: nat, a: seq<Byte>, b: seq<Byte>)
    ensures WriteAt(WriteAt(file, at, a), at + |a|, b) == WriteAt(file, at, a + b)
  {
    if a == [] {
      assert a + b == b;
    } else if b == [] {
      assert a + b == a;
    } else {
      var padded := if |file| < at then file + Zeros(at - |file|) else file;
      var once := WriteAt(file, at, a);
      assert once[..at + |a|] == padded[..at] + a;
    }
  }

  /** The write loop. Each grant says how many bytes the next call to write takes, a negative one that
      the call fails; when the grants are used up the rest is taken at once. */
  function WriteAll(file: seq<Byte>, at: nat, data: seq<Byte>, grants: seq<int>): (r: (seq<Byte>, bool))
    ensures |r.0| >= |file|
    decreases |grants|
  {
    if data == [] then (file, true)
    else if grants == [] then (WriteAt(file, at, data), true)
    else if grants[0] < 0 then (file, false)
    else
      var n := if grants[0] < |data| then grants[0] else |data|;
      WriteAll(WriteAt(file, at, data[..n]), at + n, data[n..], grants[1..])
  }

  /** However the calls split the data, what is on disk is one write of a prefix of it, and of all of
      it when the loop succeeds. */
  lemma {:induction false} WriteAllIsOneWrite(file: seq<Byte>, at: nat, data: seq<Byte>, grants: seq<int>)
    returns (k: nat)
    ensures k <= |data| && WriteAll(file, at, data, grants).0 == WriteAt(file, at, data[..k])
    ensures WriteAll(file, at, data, grants).1 <==> k == |data|
    decreases |grants|, 1
  {
    if data == [] || grants == [] {
      k := |data|;
      assert data[..k] == data;
    } else if grants[0] < 0 {
      k := 0;
    } else {
      k := WriteAllContinues(file, at, data, grants);
    }
  }

  lemma {:induction false} WriteAllContinues(file: seq<Byte>, at: nat, data: seq<Byte>, grants: seq<int>)
    returns (k: nat)
    requires data != [] && grants != [] && grants[0] >= 0
    ensures k <= |data| && WriteAll(file, at, data, grants).0 == WriteAt(file, at, data[..k])
    ensures WriteAll(file, at, data, grants).1 <==> k == |data|
    decreases |grants|, 0
  {
    hide WriteAt;
    var n := if grants[0] < |data| then grants[0] else |data|;
    var first, rest := data[..n], data[n..];
    var m := WriteAllIsOneWrite(WriteAt(file, at, first), at + n, rest, grants[1..]);
    k := n + m;
    assert data[..k] == first + rest[..m];
    WriteAtJoins(file, at, first, rest[..m]);
  }

  // ---------------------------------------------------------------- the client

  /** The block table, the files on disk, and the signals sent. */
  datatype Store = Store(blocks: map<int, Block>, disk: map<string, seq<Byte>>, signals: seq<Int64>)

  /** What the operating system and the database answer during one response. */
  datatype Io = Io(directoryOk: bool, openOk: bool, seekOk: bool, grants: seq<int>, updateOk: bool)

  function Update(store: Store, blockId: int, state: BlockState, io: Io): Store
    requires blockId in store.blocks
  {
    if io.updateOk then store.(blocks := store.blocks[blockId := store.blocks[blockId].(state := state)]) else store
  }

  predicate HasWaiting(blocks: map<int, Block>, taskId: int) {
    exists id | id in blocks :: blocks[id].taskId == taskId && blocks[id].state == Waiting
  }

  function OpenFile(store: Store, path: string): Store {
    if path in store.disk then store else store.(disk := store.disk[path := []])
  }

  function Content(disk: map<string, seq<Byte>>, path: string): seq<Byte> {
    if path in disk then disk[path] else []
  }

  predicate Opens(task: Task, io: Io) {
    task.isOpen || (io.directoryOk && io.openOk)
  }

  /** The part of a response from the seek on, with the file open. */
  function Fill(store: Store, path: string, response: BlockResponse, io: Io): Store
    requires response.block.blockId in store.blocks
  {
    var id, size := response.block.blockId, response.block.blockSize;
    if !io.seekOk || response.block.offset < 0 || ToUnsigned(size) > |response.data| then
      Update(store, id, Failed, io)
    else
      var data := response.data[..if size < 0 then 0 else size];
      var (content, ok) := WriteAll(Content(store.disk, path), response.block.offset, data, io.grants);
      var written := store.(disk := store.disk[path := content]);
      if ok then Completion(Update(written, id, Completed, io), response.block.taskId)
      else Update(written, id, Failed, io)
  }

  /** Sends the signal when the task has no waiting block. */
  function Completion(store: Store, taskId: Int64): Store {
    if HasWaiting(store.blocks, taskId) then store else store.(signals := store.signals + [taskId])
  }

  /** The effect of one response on the pending tasks and the store. */
  function Respond(pending: map<Int64, Task>, store: Store, response: BlockResponse, io: Io)
    : (map<Int64, Task>, Store)
  {
    var taskId, id := response.block.taskId, response.block.blockId;
    if taskId !in pending || id !in store.blocks then (pending, store)
    else
      var task := pending[taskId];
      if !Opens(task, io) then (pending, Update(store, id, Failed, io))
      else if task.isOpen then (pending, Fill(store, task.savedPath, response, io))
      else
        (pending[taskId := task.(isOpen := true)],
         Fill(OpenFile(store, task.savedPath), task.savedPath, response, io))
  }

  /** A response for a pending task and a known block opens the task's file, creating an empty one if there is none,
      and the task stays open; if the file cannot be opened the block is marked failed and nothing else changes. For
      any other task or block nothing changes at all. */
  lemma ResponseOpensTheFile(pending: map<Int64, Task>, store: Store, response: BlockResponse, io: Io)
    ensures var (after, left) := Respond(pending, store, response, io);
            var taskId, id := response.block.taskId, response.block.blockId;
            && after.Keys == pending.Keys && (forall t | t in pending && t != taskId :: after[t] == pending[t])
            && (!(taskId in pending && id in store.blocks) ==> after == pending && left == store)
            && (taskId in pending && id in store.blocks ==>
                  var task := pending[taskId];
                  if task.isOpen || (io.directoryOk && io.openOk) then
                    after[taskId] == task.(isOpen := true) && (!task.isOpen ==> task.savedPath in left.disk)
                  else
                    && after == pending && left.disk == store.disk && left.signals == store.signals
                    && left.blocks
                       == if io.updateOk then store.blocks[id := store.blocks[id].(state := Failed)] else store.blocks)
  {
    hide WriteAll, HasWaiting;
  }

  // ---------------------------------------------------------------- the server

  /** What a read of a block finds: the bytes of the file, and zeros where there are none. */
  function ByteAt(file: seq<Byte>, position: int): Byte {
    if 0 <= position < |file| then file[position] else 0
  }

  /** A failed seek leaves the buffer as it was made, all zeros. */
  function ServedByte(file: seq<Byte>, offset: int, i: nat): Byte {
    if offset < 0 then 0 else ByteAt(file, offset + i)
  }

  function ReadBlockData(file: seq<Byte>, offset: int, size: nat): (data: seq<Byte>)
    ensures |data| == size
  {
    seq(size, i requires 0 <= i < size => ServedByte(file, offset, i))
  }

  /** What is read is the file's own bytes in their place, as far as it goes, and zeros behind its end; all of
      it is zeros when the offset is negative. */
  lemma ReadIsTheFile(file: seq<Byte>, offset: int, size: nat)
    ensures var data := ReadBlockData(file, offset, size);
            && (0 <= offset && offset + size <= |file| ==> data == file[offset..offset + size])
            && (0 <= offset <= |file| < offset + size ==>
                  data == file[offset..] + Zeros(size - (|file| - offset)))
            && (offset < 0 || |file| <= offset ==> data == Zeros(size))
  {
  }

  /** The server's answer to a block request; a negative size throws, and nothing is sent. */
  function ServeBlock(files: map<Int64, seq<Byte>>, canOpen: bool, request: BlockInfo): Option<BlockResponse> {
    if request.fileId !in files then Some(BlockResponse(request.(blockSize := 0), []))
    else if request.blockSize < 0 then None
    else if !canOpen then Some(BlockResponse(request.(blockSize := 0), []))
    else Some(BlockResponse(request, ReadBlockData(files[request.fileId], request.offset, request.blockSize)))
  }

  /** An answer repeats the request and announces exactly the data that it has: the whole block, or nothing when the
      file is unknown or cannot be opened. Only a negative size of a known file is not answered. */
  lemma AnswerAnnouncesItsData(files: map<Int64, seq<Byte>>, canOpen: bool, request: BlockInfo)
    ensures var answer := ServeBlock(files, canOpen, request);
            && (answer.None? <==> request.fileId in files && request.blockSize < 0)
            && (answer.Some? ==>
                  && answer.value.block == request.(blockSize := |answer.value.data|)
                  && |answer.value.data| == if request.fileId in files && canOpen then request.blockSize else 0)
  {
  }

  /** What the client's and the server's members hold before an envelope is read, which the parsers
      keep for absent fields; and how a field of another type is rendered as text. */
  datatype Wire = Wire(
    host: ByteOrder,
    wasRequest: EnvelopeRequest,
    wasResponse: EnvelopeResponse,
    render: Fields.Field -> seq<Byte>)
  {
    predicate Valid() {
      wasRequest.version < 0x1_0000 && wasResponse.version < 0x1_0000 && wasResponse.status < 0x1_0000
    }
  }

  /** The whole way of a request: encoded, parsed by the server, served, encoded, parsed by the client. */
  function Answer(
      files: map<Int64, seq<Byte>>, canOpen: bool, wire: Wire, request: BlockInfo, requestId: Int64)
    : Option<BlockResponse>
    requires wire.Valid()
  {
    match ReadRequest(RequestMessage(BlockRequest(request), requestId, wire.host), wire.host, wire.wasRequest,
                      wire.render)
    case None => None
    case Some((id, received)) =>
      if !received.BlockRequest? then None
      else
        match ServeBlock(files, canOpen, received.block)
        case None => None
        case Some(response) =>
          match ReadBlockResponseMessage(BlockResponseMessage(response, ToSigned(id), wire.host), wire.host,
                                         wire.wasResponse)
          case None => None
          case Some((_, arrived)) => Some(arrived)
  }

  const MAX_BLOCK: nat := MAX_FIELD_VALUE_LENGTH - 146

  /** A served block of two bytes or more arrives unchanged, up to the codec's limit. A block of one
      byte arrives without its data, and in every other case nothing arrives. */
  lemma AnswerArrivesIff(
      files: map<Int64, seq<Byte>>, canOpen: bool, wire: Wire, request: BlockInfo, requestId: Int64)
    requires wire.Valid() && request.blockSize < TWO_32 - 1000
    ensures var found := request.fileId in files && canOpen;
            Answer(files, canOpen, wire, request, requestId)
            == if found && 2 <= request.blockSize <= MAX_BLOCK then
                 Some(BlockResponse(request, ReadBlockData(files[request.fileId], request.offset, request.blockSize)))
               else if found && request.blockSize == 1 then Some(BlockResponse(request, []))
               else None
  {
    hide RequestMessage, ReadRequest, BlockResponseMessage, ReadBlockResponseMessage;
    RequestRoundTripIff(BlockRequest(request), requestId, wire.host, wire.wasRequest, wire.render);
    assert ToSigned(ToUnsigned(requestId)) == requestId;
    var served := ServeBlock(files, canOpen, request);
    if served.Some? {
      BlockResponseRoundTripIff(served.value, requestId, wire.host, wire.wasResponse);
    }
  }
}
