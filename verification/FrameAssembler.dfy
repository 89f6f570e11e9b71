/** Cutting a byte stream into frames (frame_assembler.cpp). */
module Framing {
  import opened Options
  import opened Bytes
  import opened Headers
  import opened Sequences

  // ---------------------------------------------------------------- specification

  /** The frame size as the code computes it, in 32 bits. */
  function FrameSize(messageLength: nat): nat {
    (HEADER_SIZE + messageLength) % TWO_32
  }

  /** The stream holds a complete message at its front. */
  predicate HasMessage(stream: seq<Byte>) {
    |stream| >= HEADER_SIZE && |stream| >= HEADER_SIZE + MessageLength(stream)
  }

  /** The bytes of the first message, header included. */
  function FirstMessage(stream: seq<Byte>): (message: seq<Byte>)
    requires HasMessage(stream)
    ensures |message| >= HEADER_SIZE && |message| == HEADER_SIZE + MessageLength(message)
  {
    LengthFromPrefix(stream, HEADER_SIZE + MessageLength(stream));
    stream[..HEADER_SIZE + MessageLength(stream)]
  }

  function AfterMessage(stream: seq<Byte>): seq<Byte>
    requires HasMessage(stream)
  {
    stream[HEADER_SIZE + MessageLength(stream)..]
  }

  /** What pop_frame hands out for a message: all of it, unless its size wraps around in 32 bits. */
  function FrameOf(message: seq<Byte>): seq<Byte>
    requires |message| >= HEADER_SIZE && |message| == HEADER_SIZE + MessageLength(message)
  {
    message[..FrameSize(MessageLength(message))]
  }

  /** The greedy split of a stream by the lengths in its headers. */
  function Split(stream: seq<Byte>): seq<seq<Byte>> {
    if HasMessage(stream) then [FirstMessage(stream)] + Split(AfterMessage(stream)) else []
  }

  /** What the greedy split leaves over. */
  function Leftover(stream: seq<Byte>): seq<Byte> {
    if HasMessage(stream) then Leftover(AfterMessage(stream)) else stream
  }


  function Concat(parts: seq<seq<Byte>>): seq<Byte> {
    if parts == [] then [] else parts[0] + Concat(parts[1..])
  }

  // ---------------------------------------------------------------- the assembler

  class FrameAssembler {
    var buffer: seq<Byte>
    var currentFrame: seq<Byte>
    var currentFrameIndex: nat
    var currentHeader: Header
    var isGotHeader: bool

    ghost predicate Valid()
      reads this
    {
      if isGotHeader then
        && currentFrameIndex == HEADER_SIZE <= |currentFrame|
        && DecodeHeader(currentFrame[..HEADER_SIZE]) == Some(currentHeader)
        && currentHeader.messageLength < TWO_32
      else
        currentFrameIndex == 0
    }

    /** The bytes received and not yet handed out. */
    ghost function Held(): seq<Byte>
      reads this
      requires Valid()
    {
      (if isGotHeader then currentFrame[..HEADER_SIZE] else []) + buffer
    }

    constructor ()
      ensures Valid() && Held() == []
    {
      buffer := [];
      currentFrame := [];
      currentFrameIndex := 0;
      isGotHeader := false;
      currentHeader := Header(MAGIC, 1, 0, 0, 0, 0);
    }

    method PushData(data: seq<Byte>)
      requires Valid()
      modifies this`buffer
      ensures Valid() && Held() == old(Held()) + data
    {
      for k := 0 to |data|
        invariant buffer == old(buffer) + data[..k]
      {
        buffer := buffer + [data[k]];
      }
    }

    method PopData(size: nat) returns (data: seq<Byte>)
      modifies this`buffer
      ensures data + buffer == old(buffer)
      ensures |data| == if size < |old(buffer)| then size else |old(buffer)|
    {
      data := [];
      var i := 0;
      while i < size && buffer != []
        invariant i == |data| <= size
        invariant data + buffer == old(buffer)
      {
        data := data + [buffer[0]];
        buffer := buffer[1..];
        i := i + 1;
      }
    }

    method ClearCurrentFrame()
      modifies this`currentFrameIndex, this`isGotHeader
      ensures currentFrameIndex == 0 && !isGotHeader
    {
      currentFrameIndex := 0;
      isGotHeader := false;
    }

    /** Copies bytes into the reused frame, from currentFrameIndex up to size, growing it first. */
    method CopyIntoFrame(data: seq<Byte>, size: nat)
      requires size <= currentFrameIndex + |data|
      requires currentFrameIndex <= |currentFrame|
      modifies this`currentFrame, this`currentFrameIndex
      ensures |currentFrame| >= size
      ensures size <= old(currentFrameIndex) ==>
                currentFrameIndex == old(currentFrameIndex) && currentFrame == old(currentFrame)
      ensures size > old(currentFrameIndex) ==>
                && currentFrameIndex == size
                && currentFrame[..size] == old(currentFrame)[..old(currentFrameIndex)]
                   + data[..size - old(currentFrameIndex)]
    {
      if |currentFrame| < size {
        currentFrame := currentFrame + seq(size - |currentFrame|, _ => 0);
      }
      var start := currentFrameIndex;
      while currentFrameIndex < size
        invariant start <= currentFrameIndex
        invariant size > start ==> currentFrameIndex <= size <= |currentFrame|
        invariant size <= start ==> currentFrameIndex == start && currentFrame == old(currentFrame)
        invariant size > start ==>
                    currentFrame[..currentFrameIndex] == old(currentFrame)[..start] + data[..currentFrameIndex - start]
      {
        ghost var before := currentFrame[..currentFrameIndex];
        currentFrame := currentFrame[currentFrameIndex := data[currentFrameIndex - start]];
        currentFrameIndex := currentFrameIndex + 1;
        assert currentFrame[..currentFrameIndex] == before + [data[currentFrameIndex - 1 - start]];
      }
    }

    /** The first half of pop_frame: moves a header from the buffer into the frame. */
    method TakeHeader()
      requires Valid() && !isGotHeader && |buffer| >= HEADER_SIZE
      modifies this
      ensures Valid() && isGotHeader && Held() == old(Held())
    {
      var headerData := PopData(HEADER_SIZE);
      assert headerData == old(buffer)[..HEADER_SIZE];
      CopyIntoFrame(headerData, HEADER_SIZE);
      assert currentFrame[..HEADER_SIZE] == headerData;
      // sixteen bytes always make a header, so the error branch after this is never taken
      HeaderBytesDetermined(headerData);
      currentHeader := DecodeHeader(headerData).value;
      isGotHeader := true;
    }

    /** The second half: moves the body behind the header and gives the frame its exact size. */
    method TakeBody() returns (frame: seq<Byte>)
      requires Valid() && isGotHeader && |buffer| >= currentHeader.messageLength
      modifies this
      ensures Valid()
      ensures Held() == old(buffer)[old(currentHeader.messageLength)..]
      ensures frame == (old(currentFrame)[..HEADER_SIZE] + old(buffer)[..old(currentHeader.messageLength)])
                       [..FrameSize(old(currentHeader.messageLength))]
    {
      var bodyData := PopData(currentHeader.messageLength);
      assert bodyData == old(buffer)[..currentHeader.messageLength];
      var frameSize := FrameSize(currentHeader.messageLength);
      CopyIntoFrame(bodyData, frameSize);
      currentFrame := currentFrame[..frameSize];
      ClearCurrentFrame();
      return currentFrame;
    }

    /** Hands out the first message of the bytes held, and only then removes it. */
    method PopFrame() returns (frame: Option<seq<Byte>>)
      requires Valid()
      modifies this
      ensures Valid()
      ensures frame.Some? <==> HasMessage(old(Held()))
      ensures frame.Some? ==> frame.value == FrameOf(FirstMessage(old(Held()))) && Held() == AfterMessage(old(Held()))
      ensures frame.None? ==> Held() == old(Held())
    {
      if !isGotHeader {
        if |buffer| < HEADER_SIZE {
          return None;
        }
        TakeHeader();
      }
      HeldLength();
      if |buffer| < currentHeader.messageLength {
        return None;
      }
      var popped := TakeBody();
      return Some(popped);
    }

    /** How the fields show in the bytes held, once the header is read. */
    lemma HeldLength()
      requires Valid() && isGotHeader
      ensures |Held()| == HEADER_SIZE + |buffer| && MessageLength(Held()) == currentHeader.messageLength
      ensures |buffer| >= currentHeader.messageLength ==>
                && FirstMessage(Held()) == currentFrame[..HEADER_SIZE] + buffer[..currentHeader.messageLength]
                && AfterMessage(Held()) == buffer[currentHeader.messageLength..]
    {
      LengthFromPrefix(Held(), HEADER_SIZE);
      assert Held()[..HEADER_SIZE] == currentFrame[..HEADER_SIZE];
    }
  }

  // ---------------------------------------------------------------- whole sessions

  datatype Event = Push(data: seq<Byte>) | Pop

  /** The bytes held and the messages handed out so far. */
  datatype Session = Session(held: seq<Byte>, messages: seq<seq<Byte>>)

  function Play(events: seq<Event>): Session {
    if events == [] then Session([], [])
    else
      var before := Play(events[..|events| - 1]);
      match events[|events| - 1]
      case Push(data) => before.(held := before.held + data)
      case Pop =>
        if HasMessage(before.held) then
          Session(AfterMessage(before.held), before.messages + [FirstMessage(before.held)])
        else
          before
  }

  function Pushed(events: seq<Event>): seq<Byte> {
    if events == [] then []
    else
      Pushed(events[..|events| - 1])
      + match events[|events| - 1] { case Push(data) => data case Pop => [] }
  }

  predicate IsMessage(m: seq<Byte>) {
    |m| >= HEADER_SIZE && |m| == HEADER_SIZE + MessageLength(m)
  }

  predicate AllMessages(messages: seq<seq<Byte>>) {
    forall k :: 0 <= k < |messages| ==> IsMessage(messages[k])
  }

  function FramesOf(messages: seq<seq<Byte>>): (frames: seq<seq<Byte>>)
    requires AllMessages(messages)
    ensures |frames| == |messages|
  {
    seq(|messages|, k requires 0 <= k < |messages| => FrameOf(messages[k]))
  }

  lemma {:induction false} PlayedAreMessages(events: seq<Event>)
    ensures AllMessages(Play(events).messages)
  {
    if events != [] {
      PlayedAreMessages(events[..|events| - 1]);
    }
  }

  /** Runs an assembler through any sequence of calls. */
  method Replay(events: seq<Event>) returns (assembler: FrameAssembler, frames: seq<seq<Byte>>)
    ensures fresh(assembler) && assembler.Valid()
    ensures assembler.Held() == Play(events).held
    ensures AllMessages(Play(events).messages) && frames == FramesOf(Play(events).messages)
  {
    assembler := new FrameAssembler();
    frames := [];
    for k := 0 to |events|
      invariant fresh(assembler) && assembler.Valid()
      invariant assembler.Held() == Play(events[..k]).held
      invariant AllMessages(Play(events[..k]).messages) && frames == FramesOf(Play(events[..k]).messages)
    {
      PlayedAreMessages(events[..k + 1]);
      assert events[..k + 1][..k] == events[..k];
      match events[k]
      case Push(data) => assembler.PushData(data);
      case Pop =>
        var frame := assembler.PopFrame();
        if frame.Some? {
          frames := frames + [frame.value];
        }
    }
    assert events[..|events|] == events;
  }

  lemma MessageSurvivesExtension(s: seq<Byte>, t: seq<Byte>)
    requires HasMessage(s)
    ensures HasMessage(s + t)
    ensures FirstMessage(s + t) == FirstMessage(s)
    ensures AfterMessage(s + t) == AfterMessage(s) + t
  {
    LengthFromPrefix(s + t, |s|);
    assert (s + t)[..|s|] == s;
  }

  /** Splitting may stop anywhere and go on once more bytes have arrived. */
  lemma {:induction false} SplitResumes(s: seq<Byte>, t: seq<Byte>)
    ensures Split(s + t) == Split(s) + Split(Leftover(s) + t)
    ensures Leftover(s + t) == Leftover(Leftover(s) + t)
    decreases |s|
  {
    if HasMessage(s) {
      MessageSurvivesExtension(s, t);
      SplitResumes(AfterMessage(s), t);
    }
  }

  lemma {:induction false} ConcatAppend(parts: seq<seq<Byte>>, more: seq<seq<Byte>>)
    ensures Concat(parts + more) == Concat(parts) + Concat(more)
  {
    if parts == [] {
      assert parts + more == more;
    } else {
      assert (parts + more)[1..] == parts[1..] + more;
      ConcatAppend(parts[1..], more);
    }
  }

  lemma {:induction false} SplitCoversStream(s: seq<Byte>)
    ensures Concat(Split(s)) + Leftover(s) == s
    decreases |s|
  {
    if HasMessage(s) {
      SplitCoversStream(AfterMessage(s));
      assert FirstMessage(s) + AfterMessage(s) == s;
      assert Split(s) == [FirstMessage(s)] + Split(AfterMessage(s));
      assert Leftover(s) == Leftover(AfterMessage(s));
      hide HasMessage, FirstMessage, AfterMessage, Split, Leftover;
      assert Split(s)[1..] == Split(AfterMessage(s));
      Regrouped(FirstMessage(s), Concat(Split(AfterMessage(s))), Leftover(s));
    }
  }

  /** Chunking independence: however the stream is cut into pushes and whenever pops happen, what has
      been handed out, followed by the split of what is held, is the greedy split of the whole stream,
      and no byte is lost, repeated or reordered. */
  lemma {:induction false} ChunkingIndependence(events: seq<Event>)
    ensures Play(events).messages + Split(Play(events).held) == Split(Pushed(events))
    ensures Leftover(Play(events).held) == Leftover(Pushed(events))
    ensures Concat(Play(events).messages) + Play(events).held == Pushed(events)
  {
    if events != [] {
      var n := |events| - 1;
      var init := events[..n];
      ChunkingIndependence(init);
      match events[n]
      case Push(data) => PushKeepsSplit(Play(init), Pushed(init), data);
      case Pop =>
        assert Pushed(events) == Pushed(init);
        if HasMessage(Play(init).held) {
          PopKeepsSplit(Play(init));
        }
    }
  }

  lemma {:induction false} PushKeepsSplit(before: Session, stream: seq<Byte>, data: seq<Byte>)
    requires before.messages + Split(before.held) == Split(stream)
    requires Leftover(before.held) == Leftover(stream)
    requires Concat(before.messages) + before.held == stream
    ensures before.messages + Split(before.held + data) == Split(stream + data)
    ensures Leftover(before.held + data) == Leftover(stream + data)
    ensures Concat(before.messages) + (before.held + data) == stream + data
  {
    SplitResumes(before.held, data);
    SplitResumes(stream, data);
    Regrouped(before.messages, Split(before.held), Split(Leftover(stream) + data));
    Regrouped(Concat(before.messages), before.held, data);
  }

  lemma PopKeepsSplit(before: Session)
    requires HasMessage(before.held)
    ensures var m := FirstMessage(before.held);
            && (before.messages + [m]) + Split(AfterMessage(before.held)) == before.messages + Split(before.held)
            && Concat(before.messages + [m]) + AfterMessage(before.held) == Concat(before.messages) + before.held
  {
    var m := FirstMessage(before.held);
    ConcatAppend(before.messages, [m]);
    assert Concat([m]) == m + Concat([]) == m;
    Regrouped(before.messages, [m], Split(AfterMessage(before.held)));
    Regrouped(Concat(before.messages), m, AfterMessage(before.held));
    assert m + AfterMessage(before.held) == before.held;
  }

  lemma {:induction false} DrainedSession(events: seq<Event>)
    requires !HasMessage(Play(events).held)
    ensures Play(events) == Session(Leftover(Pushed(events)), Split(Pushed(events)))
  {
    var now := Play(events);
    assert Split(now.held) == [] && Leftover(now.held) == now.held;
    hide Play, Split, Leftover, Pushed;
    ChunkingIndependence(events);
  }

  /** Once all complete messages are taken out, the result depends on the stream alone. */
  lemma {:induction false} DrainedSessionsAgree(events: seq<Event>, others: seq<Event>)
    requires Pushed(events) == Pushed(others)
    requires !HasMessage(Play(events).held) && !HasMessage(Play(others).held)
    ensures Play(events) == Play(others)
    ensures Play(events) == Session(Leftover(Pushed(events)), Split(Pushed(events)))
  {
    hide Play, Split, Leftover, Pushed;
    DrainedSession(events);
    DrainedSession(others);
  }

  /** The frame handed out is the message if and only if its size fits in 32 bits. */
  lemma FrameIsMessageIff(message: seq<Byte>)
    requires IsMessage(message)
    ensures FrameOf(message) == message <==> |message| < TWO_32
    ensures |message| >= TWO_32 ==> |FrameOf(message)| < HEADER_SIZE
  {
    LengthFits(message);
    FrameSizeWraps(MessageLength(message));
  }

  lemma LengthFits(s: seq<Byte>)
    requires |s| >= HEADER_SIZE
    ensures MessageLength(s) < TWO_32
  {
    HeaderBytesDetermined(s);
  }

  lemma FrameSizeWraps(messageLength: nat)
    requires messageLength < TWO_32
    ensures FrameSize(messageLength) == if HEADER_SIZE + messageLength < TWO_32
                                        then HEADER_SIZE + messageLength
                                        else HEADER_SIZE + messageLength - TWO_32
  {
  }

  /** Bytes pushed are bytes handed out plus bytes held if and only if every message handed out is
      shorter than 2^32. */
  lemma {:induction false} BytesAreConservedIff(events: seq<Event>)
    requires AllMessages(Play(events).messages)
    ensures |Concat(FramesOf(Play(events).messages))| + |Play(events).held| == |Pushed(events)|
            <==> forall m :: m in Play(events).messages ==> |m| < TWO_32
  {
    ChunkingIndependence(events);
    FramesShrinkIff(Play(events).messages);
  }

  lemma {:induction false} FramesShrinkIff(messages: seq<seq<Byte>>)
    requires AllMessages(messages)
    ensures |Concat(FramesOf(messages))| <= |Concat(messages)|
    ensures |Concat(FramesOf(messages))| == |Concat(messages)| <==> forall m :: m in messages ==> |m| < TWO_32
  {
    if messages != [] {
      var rest := messages[1..];
      assert messages == [messages[0]] + rest;
      assert AllMessages(rest);
      FramesShrinkIff(rest);
      FrameIsMessageIff(messages[0]);
      assert FramesOf(messages)[1..] == FramesOf(rest);
    }
  }

  lemma LengthFromPrefix(stream: seq<Byte>, n: nat)
    requires HEADER_SIZE <= n <= |stream|
    ensures DecodeHeader(stream[..n]) == DecodeHeader(stream)
  {
    var s := stream[..n];
    assert s[0..4] == stream[0..4] && s[4..5] == stream[4..5] && s[5..9] == stream[5..9];
    assert s[9..10] == stream[9..10] && s[10..14] == stream[10..14] && s[14..16] == stream[14..16];
  }
}
