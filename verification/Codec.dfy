/** Building and reading whole messages (serialize_codec.cpp and .hpp). */
module Codec {
  import opened Options
  import opened Bytes
  import opened Headers
  import opened Fields
  import opened Framing
  import opened Sequences

  const MAX_FIELD_VALUE_LENGTH: nat := 256 * 1024 * 1024
  const MAX_FIELD_NAME_LENGTH: nat := 128
  const PRE_ALLOCATED_SIZE: nat := 4 * 1024

  // ---------------------------------------------------------------- specification

  function EncodeFields(fields: seq<Field>): seq<Byte> {
    if fields == [] then [] else EncodeFields(fields[..|fields| - 1]) + EncodeField(fields[|fields| - 1])
  }

  /** The header of a finished message; the field count is cut to its 16 bits. */
  function HeaderFor(fields: seq<Field>): Header {
    Header(MAGIC, 1, |EncodeFields(fields)|, 0, 0, |fields| % 0x1_0000)
  }

  function Message(fields: seq<Field>): seq<Byte> {
    EncodeHeader(HeaderFor(fields)) + EncodeFields(fields)
  }

  function DecodeFields(s: seq<Byte>, count: nat): Option<seq<Field>> {
    if count == 0 then Some([])
    else
      match DecodeField(s)
      case None => None
      case Some(r) =>
        match DecodeFields(s[r.1..], count - 1)
        case None => None
        case Some(fields) => Some([r.0] + fields)
  }

  /** The header is there and promises no more than the data has, as computed in 32 bits. */
  predicate IsAccepted(data: seq<Byte>) {
    |data| >= HEADER_SIZE && (MessageLength(data) + HEADER_SIZE) % TWO_32 <= |data|
  }

  /** Every field lies within the data. The reader does not check this; data that violates it makes
      it read out of range. */
  predicate StaysInRange(data: seq<Byte>) {
    IsAccepted(data) ==> DecodeFields(data[HEADER_SIZE..], DecodeHeader(data).value.fieldCount).Some?
  }

  /** The fields that deserialize adds to the parsed map; data that is not accepted adds none. (Where
      the reader would run out of range the model adds none either.) */
  function Parsed(data: seq<Byte>): seq<Field> {
    if IsAccepted(data) then
      match DecodeFields(data[HEADER_SIZE..], DecodeHeader(data).value.fieldCount)
      case Some(fields) => fields
      case None => []
    else
      []
  }

  predicate WithinLimits(f: Field) {
    f.nameLength <= MAX_FIELD_NAME_LENGTH && f.valueLength <= MAX_FIELD_VALUE_LENGTH
  }

  /** Every field of the list can be written, and the message fits in 32 bits. */
  ghost predicate Buildable(fields: seq<Field>) {
    && (forall k :: 0 <= k < |fields| ==> fields[k].SizesAgree())
    && HEADER_SIZE + |EncodeFields(fields)| < TWO_32
  }

  // ---------------------------------------------------------------- the codec object

  class SerializeCodec {
    const host: ByteOrder
    var build: seq<Byte>
    var currentIndex: nat
    var buildMap: multiset<Field>
    var parsedData: seq<Byte>
    var parsedMap: multiset<Field>
    /** The fields of buildMap, in the order in which they were written. */
    ghost var built: seq<Field>

    /** What has been written behind the room left for the header. */
    ghost function Body(): seq<Byte>
      reads this
      requires HEADER_SIZE == currentIndex || HEADER_SIZE <= currentIndex <= |build|
    {
      if currentIndex == HEADER_SIZE then [] else build[HEADER_SIZE..currentIndex]
    }

    ghost predicate Valid()
      reads this
    {
      && (HEADER_SIZE == currentIndex || HEADER_SIZE <= currentIndex <= |build|)
      && Body() == EncodeFields(built)
      && buildMap == multiset(built)
      && Buildable(built)
    }

    constructor (host: ByteOrder)
      ensures Valid() && built == [] && parsedMap == multiset{} && this.host == host
    {
      this.host := host;
      build := seq(PRE_ALLOCATED_SIZE, _ => 0);
      currentIndex := HEADER_SIZE;
      buildMap, parsedMap := multiset{}, multiset{};
      parsedData := [];
      built := [];
    }

    method ResetBuild()
      modifies this`build, this`buildMap, this`currentIndex, this`built
      ensures Valid() && built == []
    {
      build := [];
      buildMap := multiset{};
      currentIndex := HEADER_SIZE;
      built := [];
    }

    /** Appends one field, or skips it when its name or value is too long. */
    method Serialize(field: Field)
      requires Valid() && field.SizesAgree()
      requires WithinLimits(field) ==> currentIndex + SerializedSize(field) < TWO_32
      modifies this`build, this`buildMap, this`currentIndex, this`built
      ensures Valid()
      ensures built == if WithinLimits(field) then old(built) + [field] else old(built)
    {
      hide EncodeField, SerializedSize, EncodeFields;
      if field.nameLength > MAX_FIELD_NAME_LENGTH {
        return;
      }
      if field.valueLength > MAX_FIELD_VALUE_LENGTH {
        return;
      }
      WriteField(field);
      BuildableAppend(built, field);
      buildMap := buildMap + multiset{field};
      built := built + [field];
    }

    /** Grows the buffer where needed and copies the encoded field behind what has been written. */
    method WriteField(field: Field)
      requires field.SizesAgree()
      requires HEADER_SIZE == currentIndex || HEADER_SIZE <= currentIndex <= |build|
      modifies this`build, this`currentIndex
      ensures currentIndex == old(currentIndex) + SerializedSize(field) <= |build|
      ensures Body() == old(Body()) + EncodeField(field)
    {
      hide EncodeField;
      EnsureEnoughCapacityRestToBuild(SerializedSize(field));
      assert Body() == old(Body()) by {
        assert currentIndex > HEADER_SIZE ==> build[..|old(build)|][HEADER_SIZE..currentIndex] == Body();
      }
      var data := ToSerializedByteArray(field, host);
      Append(data[..]);
    }

    method EnsureEnoughCapacityRestToBuild(size: nat)
      modifies this`build
      ensures |build| >= currentIndex + size && |build| >= |old(build)|
      ensures build[..|old(build)|] == old(build)
    {
      if currentIndex + size > |build| {
        build := build + seq(currentIndex + size - |build|, _ => 0);
      }
    }

    /** The copy at the current position, which then moves on. */
    method Append(data: seq<Byte>)
      requires HEADER_SIZE <= currentIndex && currentIndex + |data| <= |build|
      modifies this`build, this`currentIndex
      ensures currentIndex == old(currentIndex) + |data| <= |build|
      ensures build[HEADER_SIZE..currentIndex] == old(build[HEADER_SIZE..currentIndex]) + data
    {
      build := Overwrite(build, currentIndex, data);
      currentIndex := currentIndex + |data|;
    }

    /** Cuts the buffer to size and writes the header; more fields may follow and be finalized again. */
    method FinalizeMessageHeader()
      requires Valid()
      modifies this`build
      ensures Valid() && build == Message(built)
    {
      hide EncodeHeader, EncodeFields;
      ghost var body := EncodeFields(built);
      if |build| < currentIndex {
        build := build + seq(currentIndex - |build|, _ => 0);
      }
      build := build[..currentIndex];
      var header := Header(MAGIC, 1, currentIndex - HEADER_SIZE, 0, 0, |buildMap| % 0x1_0000);
      assert build[HEADER_SIZE..] == body;
      build := Overwrite(build, 0, EncodeHeader(header));
      assert |multiset(built)| == |built|;
    }

    method GetSerializedDataVectorBuild() returns (data: seq<Byte>)
      requires Valid()
      modifies this`build
      ensures Valid() && data == Message(built)
    {
      FinalizeMessageHeader();
      return build;
    }

    /** Reads the fields of a message into the parsed map, adding to what is there. */
    method Deserialize(data: seq<Byte>)
      requires StaysInRange(data)
      modifies this`parsedData, this`parsedMap
      ensures parsedMap == old(parsedMap) + multiset(Parsed(data))
    {
      hide DecodeFields, DecodeHeader;
      if |data| < HEADER_SIZE {
        return;
      }
      var header := DecodeHeader(data).value;
      if (header.messageLength + HEADER_SIZE) % TWO_32 > |data| {
        return;
      }
      parsedData := data;
      ReadFields(data, header.fieldCount);
    }

    method ReadFields(data: seq<Byte>, count: nat)
      requires |data| >= HEADER_SIZE && DecodeFields(data[HEADER_SIZE..], count).Some?
      modifies this`parsedMap
      ensures parsedMap == old(parsedMap) + multiset(DecodeFields(data[HEADER_SIZE..], count).value)
    {
      hide DecodeField;
      var index := HEADER_SIZE;
      ghost var all := DecodeFields(data[HEADER_SIZE..], count).value;
      ghost var rest := all;
      for i := 0 to count
        invariant HEADER_SIZE <= index <= |data|
        invariant DecodeFields(data[index..], count - i) == Some(rest)
        invariant parsedMap + multiset(rest) == old(parsedMap) + multiset(all)
      {
        var read := DecodeField(data[index..]).value;
        assert data[index..][read.1..] == data[index + read.1..];
        assert rest == [rest[0]] + rest[1..];
        parsedMap := parsedMap + multiset{read.0};
        rest := rest[1..];
        index := index + read.1;
      }
    }

    /** Finds a field by name; which one, if several bear it, is left open. */
    method GetParsedField(key: seq<Byte>) returns (field: Option<Field>)
      ensures field.Some? ==> field.value in parsedMap && field.value.name == key
      ensures field.None? ==> forall f :: f in parsedMap ==> f.name != key
    {
      if f :| f in parsedMap && f.name == key {
        return Some(f);
      }
      return None;
    }
  }

  lemma {:induction false} BuildableAppend(fields: seq<Field>, field: Field)
    requires Buildable(fields) && field.SizesAgree()
    requires HEADER_SIZE + |EncodeFields(fields)| + SerializedSize(field) < TWO_32
    ensures EncodeFields(fields + [field]) == EncodeFields(fields) + EncodeField(field)
    ensures Buildable(fields + [field])
  {
    assert (fields + [field])[..|fields|] == fields;
  }

  // ---------------------------------------------------------------- round trip

  lemma {:induction false} EncodeFieldsSplit(fields: seq<Field>, more: seq<Field>)
    ensures EncodeFields(fields + more) == EncodeFields(fields) + EncodeFields(more)
  {
    hide EncodeField;
    if more == [] {
      assert fields + more == fields;
    } else {
      var n := |more| - 1;
      EncodeFieldsSplit(fields, more[..n]);
      assert (fields + more)[..|fields + more| - 1] == fields + more[..n];
      Regrouped(EncodeFields(fields), EncodeFields(more[..n]), EncodeField(more[n]));
    }
  }

  lemma {:induction false} EncodeFieldsHead(fields: seq<Field>)
    requires fields != []
    ensures EncodeFields(fields) == EncodeField(fields[0]) + EncodeFields(fields[1..])
  {
    hide EncodeField;
    assert fields == [fields[0]] + fields[1..];
    EncodeFieldsSplit([fields[0]], fields[1..]);
    assert [fields[0]][..0] == [];
    assert EncodeFields([fields[0]]) == EncodeFields([]) + EncodeField(fields[0]);
  }

  lemma {:induction false} FieldsRoundTrip(fields: seq<Field>, count: nat)
    requires count <= |fields|
    requires forall k :: 0 <= k < |fields| ==> fields[k].SizesAgree() && fields[k].LengthIsKnown()
    ensures DecodeFields(EncodeFields(fields), count) == Some(fields[..count])
    decreases count
  {
    hide DecodeField, EncodeField;
    if count > 0 {
      EncodeFieldsHead(fields);
      var s, rest := EncodeFields(fields), EncodeFields(fields[1..]);
      FieldRoundTripIff(fields[0], rest);
      assert DecodeField(s) == Some((fields[0], SerializedSize(fields[0])));
      assert s[SerializedSize(fields[0])..] == rest;
      FieldsRoundTrip(fields[1..], count - 1);
      assert fields[..count] == [fields[0]] + fields[1..][..count - 1];
    }
  }

  /** A finished message is exactly one frame to the assembler. */
  lemma {:induction false} MessageIsFrame(fields: seq<Field>, rest: seq<Byte>)
    requires Buildable(fields)
    ensures DecodeHeader(Message(fields) + rest) == Some(HeaderFor(fields))
    ensures |Message(fields)| == HEADER_SIZE + |EncodeFields(fields)|
  {
    HeaderRoundTrip(HeaderFor(fields), EncodeFields(fields) + rest);
    assert Message(fields) + rest == EncodeHeader(HeaderFor(fields)) + (EncodeFields(fields) + rest);
  }

  /** The fields that the 16-bit count in the header covers. */
  function Counted(fields: seq<Field>): seq<Field> {
    fields[..|fields| % 0x1_0000]
  }

  /** Reading a finished message back gives exactly its fields, if and only if there are fewer than
      2^16 of them; otherwise it gives only the first |fields| mod 2^16. */
  lemma MessageRoundTripIff(fields: seq<Field>)
    requires Buildable(fields)
    requires forall k :: 0 <= k < |fields| ==> fields[k].LengthIsKnown()
    ensures StaysInRange(Message(fields))
    ensures Parsed(Message(fields)) == Counted(fields)
    ensures multiset(Parsed(Message(fields))) == multiset(fields) <==> |fields| < 0x1_0000
  {
    hide DecodeHeader, EncodeHeader, EncodeFields, DecodeFields;
    MessageIsAccepted(fields);
    FieldsRoundTrip(fields, |fields| % 0x1_0000);
    TruncationLosesFieldsIff(fields, |fields| % 0x1_0000);
  }

  lemma {:induction false} MessageIsAccepted(fields: seq<Field>)
    requires Buildable(fields)
    ensures IsAccepted(Message(fields))
    ensures DecodeHeader(Message(fields)).value.fieldCount == |fields| % 0x1_0000
    ensures Message(fields)[HEADER_SIZE..] == EncodeFields(fields)
  {
    hide DecodeHeader, EncodeHeader, EncodeFields;
    MessageIsFrame(fields, []);
    assert Message(fields) + [] == Message(fields);
  }

  lemma TruncationLosesFieldsIff(fields: seq<Field>, count: nat)
    requires count <= |fields|
    ensures multiset(fields[..count]) == multiset(fields) <==> count == |fields|
  {
    assert |multiset(fields[..count])| == count;
    assert |multiset(fields)| == |fields|;
    if count == |fields| {
      assert fields[..count] == fields;
    }
  }

  /** A stream of finished messages. */
  function Stream(builds: seq<seq<Field>>): seq<Byte> {
    if builds == [] then [] else Message(builds[0]) + Stream(builds[1..])
  }

  function Messages(builds: seq<seq<Field>>): seq<seq<Byte>> {
    if builds == [] then [] else [Message(builds[0])] + Messages(builds[1..])
  }

  ghost predicate AllBuildable(builds: seq<seq<Field>>) {
    forall k :: 0 <= k < |builds| ==> Buildable(builds[k])
  }

  /** The greedy split finds the messages again, with nothing left over. */
  lemma {:induction false} StreamSplitsIntoMessages(builds: seq<seq<Field>>)
    requires AllBuildable(builds)
    ensures Split(Stream(builds)) == Messages(builds)
    ensures Leftover(Stream(builds)) == []
  {
    if builds != [] {
      var rest := builds[1..];
      var stream := Stream(builds);
      MessageIsFrame(builds[0], Stream(rest));
      assert stream == Message(builds[0]) + Stream(rest);
      assert HasMessage(stream);
      assert FirstMessage(stream) == Message(builds[0]);
      assert AfterMessage(stream) == Stream(rest);
      StreamSplitsIntoMessages(rest);
    }
  }

  /** End to end: any concatenation of finished messages, cut into pushes in any way and popped at any
      times until nothing complete is left, comes out as the messages themselves. */
  lemma {:induction false} MessagesSurviveFraming(builds: seq<seq<Field>>, events: seq<Event>)
    requires AllBuildable(builds)
    requires Pushed(events) == Stream(builds) && !HasMessage(Play(events).held)
    ensures Play(events) == Session([], Messages(builds))
    ensures AllMessages(Messages(builds)) && FramesOf(Messages(builds)) == Messages(builds)
  {
    DrainedSessionsAgree(events, events);
    StreamSplitsIntoMessages(builds);
    PlayedAreMessages(events);
    MessagesAreShort(builds);
    forall k | 0 <= k < |Messages(builds)| ensures FrameOf(Messages(builds)[k]) == Messages(builds)[k] {
      FrameIsMessageIff(Messages(builds)[k]);
    }
  }

  lemma {:induction false} MessagesAreShort(builds: seq<seq<Field>>)
    requires AllBuildable(builds)
    ensures forall k :: 0 <= k < |Messages(builds)| ==> |Messages(builds)[k]| < TWO_32
  {
    if builds != [] {
      MessagesAreShort(builds[1..]);
      MessageIsFrame(builds[0], []);
    }
  }
}
