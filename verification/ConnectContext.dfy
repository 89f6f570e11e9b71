/** Reading frames from and writing them to one socket (connect_context.cpp), over the partial-write
    loop of posix_socket_handle.cpp. What the system calls answer is given as a list. */
module ConnectContexts {
  import opened Options
  import opened Bytes
  import opened Framing
  import opened Sequences
  import opened Numbers

  /** One answer of write(2): that many bytes taken, interrupted, or no room now. */
  datatype WriteAnswer = Took(count: nat) | Interrupted | NoRoom

  /** One answer of read(2). */
  datatype ReadAnswer = Data(bytes: seq<Byte>) | PeerClosed | NothingNow | Failed

  /** How many of size bytes the socket takes before it has no room; a list that ends counts as that. */
  function Taken(answers: seq<WriteAnswer>, size: nat): (n: nat)
    ensures n <= size
  {
    if answers == [] || size == 0 then 0
    else
      match answers[0]
      case NoRoom => 0
      case Interrupted => Taken(answers[1..], size)
      case Took(count) =>
        var n := Min(count, size);
        n + Taken(answers[1..], size - n)
  }

  /** The data that read() collects before an answer that ends its loop. */
  function Received(answers: seq<ReadAnswer>): seq<Byte> {
    if answers == [] || !answers[0].Data? || answers[0].bytes == [] then []
    else answers[0].bytes + Received(answers[1..])
  }

  predicate ReadFails(answers: seq<ReadAnswer>) {
    answers != [] && (answers[0].Failed? || (answers[0].Data? && answers[0].bytes != [] && ReadFails(answers[1..])))
  }

  /** The partial-write loop: goes on until everything is written or the socket has no room. */
  method SocketWrite(buffer: seq<Byte>, answers: seq<WriteAnswer>) returns (hasWritten: nat, socketTook: seq<Byte>)
    ensures hasWritten == Taken(answers, |buffer|) && socketTook == buffer[..hasWritten]
  {
    hasWritten, socketTook := 0, [];
    var restSize: nat := |buffer|;
    var k := 0;
    while hasWritten < |buffer| && k < |answers|
      invariant hasWritten <= |buffer| && hasWritten + restSize == |buffer| && k <= |answers|
      invariant socketTook == buffer[..hasWritten]
      invariant hasWritten + Taken(answers[k..], restSize) == Taken(answers, |buffer|)
    {
      assert answers[k..][1..] == answers[k + 1..];
      match answers[k] {
        case NoRoom =>
          return;
        case Interrupted =>
        case Took(count) =>
          var n := Min(count, restSize);
          socketTook := socketTook + buffer[hasWritten..hasWritten + n];
          hasWritten := hasWritten + n;
          restSize := restSize - n;
      }
      k := k + 1;
    }
  }

  class ConnectContext {
    const connectId: nat
    const assembler: FrameAssembler
    var writeBuffer: seq<Byte>

    constructor (connectId: nat)
      ensures this.connectId == connectId && writeBuffer == []
      ensures fresh(assembler) && assembler.Valid() && assembler.Held() == []
    {
      this.connectId := connectId;
      writeBuffer := [];
      assembler := new FrameAssembler();
    }

    predicate HasPendingWrite()
      reads this
    {
      writeBuffer != []
    }

    /** Whatever the socket does, its bytes followed by the buffer are the old buffer followed by the
        frames; the frames may be a single one, several, or none. */
    method Write(frames: seq<seq<Byte>>, answers: seq<WriteAnswer>) returns (socketTook: seq<Byte>)
      modifies this`writeBuffer
      ensures socketTook + writeBuffer == old(writeBuffer) + Concat(frames)
      ensures |socketTook| == Taken(answers, |old(writeBuffer) + Concat(frames)|)
    {
      for k := 0 to |frames|
        invariant writeBuffer == old(writeBuffer) + Concat(frames[..k])
      {
        assert frames[..k + 1] == frames[..k] + [frames[k]];
        ConcatAppend(frames[..k], [frames[k]]);
        assert Concat([frames[k]]) == frames[k] + Concat([]);
        writeBuffer := writeBuffer + frames[k];
      }
      assert frames[..|frames|] == frames;
      var hasWritten;
      hasWritten, socketTook := SocketWrite(writeBuffer, answers);
      if hasWritten == 0 {
        return;
      }
      writeBuffer := writeBuffer[hasWritten..];
    }

    /** Takes in what the socket has and returns every frame that is complete now; after an error it
        returns none, and keeps what it has read. */
    method Read(answers: seq<ReadAnswer>) returns (frames: Option<seq<seq<Byte>>>)
      requires assembler.Valid()
      modifies assembler
      ensures assembler.Valid()
      ensures frames.None? <==> ReadFails(answers)
      ensures frames.None? ==> assembler.Held() == old(assembler.Held()) + Received(answers)
      ensures frames.Some? ==>
                var stream := old(assembler.Held()) + Received(answers);
                && AllMessages(Split(stream))
                && frames.value == FramesOf(Split(stream))
                && assembler.Held() == Leftover(stream)
    {
      var failed := ReceiveAll(answers);
      if failed {
        return None;
      }
      var popped := PopAll();
      return Some(popped);
    }

    method ReceiveAll(answers: seq<ReadAnswer>) returns (failed: bool)
      requires assembler.Valid()
      modifies assembler
      ensures assembler.Valid()
      ensures assembler.Held() == old(assembler.Held()) + Received(answers)
      ensures failed <==> ReadFails(answers)
    {
      var k := 0;
      ghost var got: seq<Byte> := [];
      while k < |answers| && answers[k].Data? && answers[k].bytes != []
        invariant k <= |answers|
        invariant assembler.Valid() && assembler.Held() == old(assembler.Held()) + got
        invariant got + Received(answers[k..]) == Received(answers)
        invariant ReadFails(answers[k..]) <==> ReadFails(answers)
      {
        assert answers[k..][1..] == answers[k + 1..];
        assembler.PushData(answers[k].bytes);
        got := got + answers[k].bytes;
        k := k + 1;
      }
      failed := k < |answers| && answers[k].Failed?;
    }

    method PopAll() returns (frames: seq<seq<Byte>>)
      requires assembler.Valid()
      modifies assembler
      ensures assembler.Valid()
      ensures AllMessages(Split(old(assembler.Held()))) && frames == FramesOf(Split(old(assembler.Held())))
      ensures assembler.Held() == Leftover(old(assembler.Held()))
    {
      hide Split, Leftover, FramesOf, FirstMessage, FrameOf;
      ghost var stream := assembler.Held();
      SplitIntoMessages(stream);
      ghost var done: seq<seq<Byte>> := [];
      frames := [];
      assert FramesOf(done) == [];
      while true
        invariant assembler.Valid()
        invariant done + Split(assembler.Held()) == Split(stream)
        invariant Leftover(assembler.Held()) == Leftover(stream)
        invariant AllMessages(done) && frames == FramesOf(done)
        decreases |assembler.Held()|
      {
        ghost var held := assembler.Held();
        SplitUnfolds(held);
        assert done + [] == done;
        var frame := assembler.PopFrame();
        if frame.None? {
          return;
        }
        ghost var message := FirstMessage(held);
        Regrouped(done, [message], Split(AfterMessage(held)));
        FramesOfAppend(done, message);
        frames := frames + [frame.value];
        done := done + [message];
      }
    }
  }

  /** The answers that hand over some chunks. */
  function Chunks(chunks: seq<seq<Byte>>): seq<ReadAnswer> {
    seq(|chunks|, k requires 0 <= k < |chunks| => Data(chunks[k]))
  }

  /** Whatever number of chunks comes before the answer that ends the loop, all of them are received, in order,
      and nothing behind; and reading fails exactly when that answer is an error. */
  lemma {:induction false} EveryChunkIsReceived(chunks: seq<seq<Byte>>, rest: seq<ReadAnswer>)
    requires forall k | 0 <= k < |chunks| :: chunks[k] != []
    requires rest != [] && rest[0].Data? ==> rest[0].bytes == []
    ensures Received(Chunks(chunks) + rest) == Concat(chunks)
    ensures ReadFails(Chunks(chunks) + rest) <==> rest != [] && rest[0].Failed?
    decreases |chunks|
  {
    if chunks == [] {
      assert Chunks(chunks) + rest == rest;
    } else {
      var answers := Chunks(chunks) + rest;
      EveryChunkIsReceived(chunks[1..], rest);
      assert answers[1..] == Chunks(chunks[1..]) + rest;
    }
  }

  /** Every list of answers is of that form. */
  lemma {:induction false} AnswersAreChunks(answers: seq<ReadAnswer>)
    returns (chunks: seq<seq<Byte>>, rest: seq<ReadAnswer>)
    ensures answers == Chunks(chunks) + rest && forall k | 0 <= k < |chunks| :: chunks[k] != []
    ensures rest != [] && rest[0].Data? ==> rest[0].bytes == []
  {
    if answers == [] || !answers[0].Data? || answers[0].bytes == [] {
      chunks, rest := [], answers;
    } else {
      var more;
      more, rest := AnswersAreChunks(answers[1..]);
      chunks := [answers[0].bytes] + more;
      assert Chunks(chunks) == [Data(answers[0].bytes)] + Chunks(more);
    }
  }

  predicate AreTaken(answers: seq<WriteAnswer>) {
    forall k | 0 <= k < |answers| :: !answers[k].NoRoom?
  }

  /** The sum of what the answers grant. */
  function Granted(answers: seq<WriteAnswer>): nat {
    if answers == [] then 0
    else (if answers[0].Took? then answers[0].count else 0) + Granted(answers[1..])
  }

  /** The socket takes what its answers up to the first refusal grant, at most everything; interruptions and
      what comes behind the refusal change nothing. */
  lemma {:induction false} TakenIsGranted(answers: seq<WriteAnswer>, rest: seq<WriteAnswer>, size: nat)
    requires AreTaken(answers) && (rest != [] ==> rest[0].NoRoom?)
    ensures Taken(answers + rest, size) == Min(Granted(answers), size)
    decreases |answers|
  {
    if answers == [] {
      assert answers + rest == rest;
    } else {
      var all := answers + rest;
      assert all[1..] == answers[1..] + rest;
      assert AreTaken(answers[1..]);
      if answers[0].Took? {
        TakenIsGranted(answers[1..], rest, size - Min(answers[0].count, size));
      } else {
        TakenIsGranted(answers[1..], rest, size);
      }
    }
  }

  lemma {:induction false} SplitUnfolds(held: seq<Byte>)
    ensures HasMessage(held) ==>
              && Split(held) == [FirstMessage(held)] + Split(AfterMessage(held))
              && Leftover(held) == Leftover(AfterMessage(held))
              && |AfterMessage(held)| < |held|
    ensures !HasMessage(held) ==> Split(held) == [] && Leftover(held) == held
  {
  }

  lemma FramesOfAppend(messages: seq<seq<Byte>>, m: seq<Byte>)
    requires AllMessages(messages) && IsMessage(m)
    ensures AllMessages(messages + [m]) && FramesOf(messages + [m]) == FramesOf(messages) + [FrameOf(m)]
    ensures AllMessages([]) && FramesOf([]) == []
  {
  }

  lemma {:induction false} SplitIntoMessages(stream: seq<Byte>)
    ensures AllMessages(Split(stream))
    decreases |stream|
  {
    if HasMessage(stream) {
      SplitIntoMessages(AfterMessage(stream));
    }
  }
}
