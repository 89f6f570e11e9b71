/** What is on the wire, in plain numbers: every byte of header and field, the widths and codes of the types,
    what the two sides put into their envelopes, and the limits. */
module WireFormat {
  import opened Options
  import opened Bytes
  import opened Headers
  import opened Fields
  import opened Codec
  import opened ArrayValues
  import opened Messages
  import opened Envelopes

  // ---------------------------------------------------------------- bytes

  lemma {:induction false} OneByteOnWire(v: nat)
    requires v < 0x100
    ensures NetworkBytes(v, 1) == [v]
  {
    assert NetworkBytes(v / 256, 0) == [];
  }

  /** Two bytes, most significant first. */
  lemma {:induction false} TwoBytesOnWire(v: nat)
    requires v < 0x1_0000
    ensures NetworkBytes(v, 2) == [v / 0x100, v % 0x100]
  {
    OneByteOnWire(v / 256);
  }

  /** Four bytes, most significant first. */
  lemma {:induction false} FourBytesOnWire(v: nat)
    requires v < 0x1_0000_0000
    ensures NetworkBytes(v, 4) == [v / 0x100_0000, v / 0x1_0000 % 0x100, v / 0x100 % 0x100, v % 0x100]
  {
    TwoBytesOnWire(v / 256 / 256);
    assert NetworkBytes(v / 256, 3) == NetworkBytes(v / 256 / 256, 2) + [v / 256 % 256];
  }

  // ---------------------------------------------------------------- header and field

  /** The sixteen bytes of a header: magic, version, length, flag, checksum, field count. */
  lemma HeaderOnWire(h: Header)
    requires h.Fits()
    ensures EncodeHeader(h)
            == [h.magic / 0x100_0000, h.magic / 0x1_0000 % 0x100, h.magic / 0x100 % 0x100, h.magic % 0x100,
                h.version,
                h.messageLength / 0x100_0000, h.messageLength / 0x1_0000 % 0x100,
                h.messageLength / 0x100 % 0x100, h.messageLength % 0x100,
                h.flag,
                h.checksum / 0x100_0000, h.checksum / 0x1_0000 % 0x100, h.checksum / 0x100 % 0x100, h.checksum % 0x100,
                h.fieldCount / 0x100, h.fieldCount % 0x100]
  {
    hide NetworkBytes;
    FourBytesOnWire(h.magic);
    OneByteOnWire(h.version);
    FourBytesOnWire(h.messageLength);
    OneByteOnWire(h.flag);
    FourBytesOnWire(h.checksum);
    TwoBytesOnWire(h.fieldCount);
  }

  /** A finished message starts with 66 66 66 66 (hexadecimal), version 1, the number of bytes behind the header,
      no flag, checksum 0, and the number of fields. */
  lemma {:induction false} MessageOnWire(fields: seq<Field>)
    requires |EncodeFields(fields)| < 0x1_0000_0000 && |fields| < 0x1_0000
    ensures var n, m := |EncodeFields(fields)|, Message(fields);
            && |m| == 16 + n && m[16..] == EncodeFields(fields)
            && m[..4] == [0x66, 0x66, 0x66, 0x66] && m[4] == 1
            && m[5..9] == [n / 0x100_0000, n / 0x1_0000 % 0x100, n / 0x100 % 0x100, n % 0x100]
            && m[9..14] == [0, 0, 0, 0, 0]
            && m[14..16] == [|fields| / 0x100, |fields| % 0x100]
  {
    hide EncodeFields, EncodeHeader;
    HeaderOnWire(HeaderFor(fields));
    var header := EncodeHeader(HeaderFor(fields));
    assert Message(fields)[..16] == header;
    assert forall i, j | 0 <= i <= j <= 16 :: Message(fields)[i..j] == header[i..j];
  }

  /** Four bytes as a number. */
  function FourBytes(a: int, b: int, c: int, d: int): int {
    0x100_0000 * a + 0x1_0000 * b + 0x100 * c + d
  }

  lemma {:induction false} FourBytesAreRead(a: Byte, b: Byte, c: Byte, d: Byte)
    ensures FromNetworkBytes([a, b, c, d]) == FourBytes(a, b, c, d)
  {
    assert [a, b, c, d][..3] == [a, b, c] && [a, b, c][..2] == [a, b] && [a, b][..1] == [a] && [a][..0] == [];
    assert FromNetworkBytes([a]) == a;
    assert FromNetworkBytes([a, b]) == 256 * a + b;
  }

  /** Data shorter than a header, or than what bytes 5 to 8 announce behind it, has no fields; the announced size is
      computed in 32 bits. */
  lemma {:induction false} ShortDataIsRefused(data: seq<Byte>)
    requires |data| < 16 || (FourBytes(data[5], data[6], data[7], data[8]) + 16) % 0x1_0000_0000 > |data|
    ensures Parsed(data) == []
  {
    hide FourBytes, FromNetworkBytes, DecodeFields;
    if |data| >= 16 {
      FourBytesAreRead(data[5], data[6], data[7], data[8]);
      assert data[5..9] == [data[5], data[6], data[7], data[8]];
    }
  }

  /** A field: the length of its name in two bytes, the name, the code of its type, the flag, the length of its
      value in four bytes if the flag is odd, the value. */
  lemma FieldOnWire(f: Field)
    requires f.SizesAgree()
    ensures var n, v := |f.name|, |f.value|;
            EncodeField(f)
            == [n / 0x100, n % 0x100] + f.name + [f.dataType, f.flag]
               + (if f.flag % 2 == 1 then [v / 0x100_0000, v / 0x1_0000 % 0x100, v / 0x100 % 0x100, v % 0x100] else [])
               + f.value
  {
    hide NetworkBytes;
    TwoBytesOnWire(f.nameLength);
    FourBytesOnWire(f.valueLength);
    assert f.name + [f.dataType] + [f.flag] == f.name + [f.dataType, f.flag];
  }

  /** Fields follow each other in their order. */
  lemma {:induction false} FieldsOnWire(fields: seq<Field>)
    ensures EncodeFields([]) == []
    ensures fields != [] ==> EncodeFields(fields) == EncodeField(fields[0]) + EncodeFields(fields[1..])
  {
    if fields != [] {
      EncodeFieldsHead(fields);
    }
  }

  /** The width of every type, by its code. */
  lemma TypeWidths()
    ensures TypeLength(1) == 1 && TypeLength(2) == 1
    ensures TypeLength(3) == 2 && TypeLength(4) == 2
    ensures TypeLength(5) == 4 && TypeLength(6) == 4 && TypeLength(9) == 4
    ensures TypeLength(7) == 8 && TypeLength(8) == 8 && TypeLength(10) == 8
    ensures forall code: Byte :: code == 0 || code > 10 ==> TypeLength(code) == 0
  {
  }

  /** Characters are sent by their code. */
  lemma TextOnWire(s: string)
    requires forall i | 0 <= i < |s| :: s[i] as int < 256
    ensures |Text(s)| == |s| && forall i | 0 <= i < |s| :: Text(s)[i] == s[i] as int
  {
  }

  /** A number: its name, the code of its type, no flag, and its bytes in the order of the sender. */
  lemma {:induction false} NumberOnWire(name: string, dataType: Byte, value: nat, width: nat)
    ensures var big := UnsignedField(name, dataType, value, width, BigEndian);
            && big.name == Text(name) && big.dataType == dataType && big.flag == 0
            && big.value == NetworkBytes(value, width)
    ensures var little := UnsignedField(name, dataType, value, width, LittleEndian);
            && little.name == Text(name) && little.dataType == dataType && little.flag == 0
            && little.value == Reversed(NetworkBytes(value, width))
  {
    LittleEndianIsReversed(value, width);
  }

  lemma {:induction false} WidthOnWire()
    ensures EncodeLengths([1]) == [0, 0, 0, 1]
  {
    FourBytesOnWire(1);
    assert [1 as nat][..0] == [];
  }

  lemma {:induction false} ByteArrayOnWire(data: seq<Byte>)
    requires |data| < 0x1_0000_0000
    ensures var n := |data|;
            EncodeArray(ArrayOf(data, 1, 1))
            == [1, n / 0x100_0000, n / 0x1_0000 % 0x100, n / 0x100 % 0x100, n % 0x100, 0, 0, 0, 0, 1] + data
  {
    hide NetworkBytes, EncodeElements, EncodeLengths;
    FourBytesOnWire(|data|);
    WidthOnWire();
    SingleByteElements(data);
  }

  lemma {:induction false} OneByteIsItself(b: Byte, host: ByteOrder)
    ensures ObjectBytes(b, 1, host) == [b]
  {
    OneByteOnWire(b);
    LittleEndianIsReversed(b, 1);
    assert Reversed([b]) == [b];
  }

  /** Two or more bytes are an array of unsigned bytes: the element type, the count in four bytes, no flag, the
      width 1 in four bytes, the bytes. A single byte is a plain number, and no bytes are not sent at all. */
  lemma {:induction false} BytesOnWire(name: string, data: seq<Byte>, host: ByteOrder)
    requires |data| < 0x1_0000_0000
    ensures var f, n := BytesField(name, data, host), |data|;
            && (f.Some? <==> n > 0)
            && (n > 0 ==> f.value.name == Text(name))
            && (n == 1 ==> f.value.dataType == 1 && f.value.flag == 0 && f.value.value == data)
            && (n > 1 ==> && f.value.dataType == 15 && f.value.flag == 1
                          && f.value.value
                             == [1, n / 0x100_0000, n / 0x1_0000 % 0x100, n / 0x100 % 0x100, n % 0x100,
                                 0, 0, 0, 0, 1] + data)
  {
    hide EncodeArray, ObjectBytes, Text;
    if |data| == 1 {
      OneByteIsItself(data[0], host);
    } else if |data| > 1 {
      ByteArrayOnWire(data);
    }
  }

  /** The lengths of the elements, four bytes each. */
  function LengthBytes(lengths: seq<nat>): seq<int> {
    if lengths == [] then []
    else
      var n := lengths[|lengths| - 1];
      LengthBytes(lengths[..|lengths| - 1])
      + [n / 0x100_0000, n / 0x1_0000 % 0x100, n / 0x100 % 0x100, n % 0x100]
  }

  lemma {:induction false} LengthsOnWire(lengths: seq<nat>)
    requires forall k | 0 <= k < |lengths| :: lengths[k] < 0x1_0000_0000
    ensures EncodeLengths(lengths) == LengthBytes(lengths)
  {
    if lengths != [] {
      hide NetworkBytes;
      LengthsOnWire(lengths[..|lengths| - 1]);
      FourBytesOnWire(lengths[|lengths| - 1]);
    }
  }

  /** An array value: the type of its elements, their number, the flag, the lengths, the bytes; nothing at all when
      there are several lengths and another number of elements. */
  lemma ArrayOnWire(a: ArrayValue)
    requires a.Fits() && a.elementValueLength != []
    ensures var n := a.elementCount;
            EncodeArray(a)
            == if |a.elementValueLength| >= 2 && n != |a.elementValueLength| then []
               else [a.elementType, n / 0x100_0000, n / 0x1_0000 % 0x100, n / 0x100 % 0x100, n % 0x100, a.flag]
                    + LengthBytes(a.elementValueLength) + a.elementValue
  {
    hide NetworkBytes, EncodeLengths, LengthBytes;
    FourBytesOnWire(a.elementCount);
    LengthsOnWire(a.elementValueLength);
  }

  /** The reader goes by the flag: odd, there is one length for each element and the bytes are as many as their sum;
      even, there is one length, and the bytes are as many as the elements have with it. */
  lemma ArrayIsReadByItsFlag(a: ArrayValue)
    requires a.Fits() && a.elementValueLength != []
    requires if a.flag % 2 == 1 then
               |a.elementValueLength| == a.elementCount && |a.elementValue| == Sum(a.elementValueLength) % 0x1_0000_0000
             else
               |a.elementValueLength| == 1 && |a.elementValue|
                 == a.elementValueLength[0] * a.elementCount % 0x1_0000_0000
    ensures DecodeArray(EncodeArray(a)) == Some(a)
  {
    hide DecodeArray, EncodeArray, Sum;
    ArrayRoundTripIff(a);
  }

  /** An array of another element type, or with lengths of its own for the elements, is read as empty. */
  lemma WrongArrayIsEmpty(field: Field, elementType: Byte, width: nat)
    requires var a := DecodeArray(field.value);
             a.None? || a.value.elementType != elementType || a.value.flag % 2 == 1
    ensures ToArray(field, elementType, width) == []
  {
    hide DecodeArray;
  }

  /** The fields have these names and types, one after the other. */
  ghost predicate AreNamed(fields: seq<Field>, names: seq<string>, types: seq<Byte>) {
    && |fields| == |names| == |types|
    && forall k | 0 <= k < |fields| :: fields[k].name == Text(names[k]) && fields[k].dataType == types[k]
  }

  lemma BodyIsKept(body: seq<Byte>, host: ByteOrder)
    requires 2 <= |body| <= 0x1000_0000 - 10
    ensures var f := BytesField("body", body, host);
            f.Some? && Kept(f) == [f.value] && f.value.name == Text("body") && f.value.dataType == 15
  {
    hide Text;
    BytesOnWire("body", body, host);
  }

  /** The members of a request's envelope with a body that is within the limit. */
  lemma RequestMembersOnWire(e: EnvelopeRequest, host: ByteOrder)
    requires 2 <= |e.body| <= 0x1000_0000 - 10 && |e.path| <= 128
    ensures AreNamed(EnvelopeRequestFields(e, host),
                     ["version", "request_id", "request_type", "path", "content_type", "body"],
                     [3, 7, 1, 12, 1, 15])
  {
    hide Text, BytesField, ObjectBytes;
    BodyIsKept(e.body, host);
    var path := StringField("path", e.path);
    assert Kept(Some(path)) == [path];
  }

  lemma ResponseMembersOnWire(e: EnvelopeResponse, host: ByteOrder)
    requires 2 <= |e.body| <= 0x1000_0000 - 10
    ensures AreNamed(EnvelopeResponseFields(e, host),
                     ["version", "request_id", "status", "content_type", "body"],
                     [3, 7, 3, 1, 15])
  {
    hide Text, BytesField, ObjectBytes;
    BodyIsKept(e.body, host);
  }

  lemma BlockMembersOnWire(block: BlockInfo, host: ByteOrder)
    ensures AreNamed(BlockFields(block, host),
                     ["block_id", "file_id", "task_id", "offset", "block_size"],
                     [8, 8, 8, 8, 8])
  {
    hide Text, ObjectBytes;
  }

  ghost predicate Lacks(fields: seq<Field>, name: string) {
    forall k | 0 <= k < |fields| :: fields[k].name != Text(name)
  }

  lemma LacksFindsNothing(fields: seq<Field>)
    ensures forall name: string | Lacks(fields, name) :: FindField(fields, Text(name)) == None
  {
    hide FindField, Text;
    forall name: string | Lacks(fields, name) ensures FindField(fields, Text(name)) == None {
      FindsNothing(fields, Text(name));
    }
  }

  /** Numbers that a request lacks stay what they were before; a missing path or body is empty. */
  lemma MissingInRequest(fields: seq<Field>, host: ByteOrder, was: EnvelopeRequest, render: Field -> seq<Byte>)
    requires was.version < 0x1_0000 && ReadEnvelopeRequest(fields, host, was, render).Some?
    ensures var e := ReadEnvelopeRequest(fields, host, was, render).value;
            && (Lacks(fields, "version") ==> e.version == was.version)
            && (Lacks(fields, "request_id") ==> e.requestId == was.requestId)
            && (Lacks(fields, "request_type") ==> e.requestType == was.requestType)
            && (Lacks(fields, "content_type") ==> e.contentType == was.contentType)
            && (Lacks(fields, "path") ==> e.path == [])
            && (Lacks(fields, "body") ==> e.body == [])
  {
    LacksFindsNothing(fields);
    hide Lacks, FindField, Text, ToValue, ToBytes, TextOf, Pow256;
  }

  lemma MissingInResponse(fields: seq<Field>, host: ByteOrder, was: EnvelopeResponse)
    requires was.version < 0x1_0000 && was.status < 0x1_0000 && ReadEnvelopeResponse(fields, host, was).Some?
    ensures var e := ReadEnvelopeResponse(fields, host, was).value;
            && (Lacks(fields, "version") ==> e.version == was.version)
            && (Lacks(fields, "request_id") ==> e.requestId == was.requestId)
            && (Lacks(fields, "status") ==> e.status == was.status)
            && (Lacks(fields, "content_type") ==> e.contentType == was.contentType)
            && (Lacks(fields, "body") ==> e.body == [])
  {
    LacksFindsNothing(fields);
    hide Lacks, FindField, Text, ToValue, ToBytes, Pow256;
  }

  /** A block without a task id has task -1; without another of its numbers, or without the data of a response,
      nothing is read. */
  lemma MissingInBlock(fields: seq<Field>, host: ByteOrder)
    ensures ReadBlock(fields, host).Some? ==>
              && !Lacks(fields, "block_id") && !Lacks(fields, "file_id")
              && !Lacks(fields, "offset") && !Lacks(fields, "block_size")
              && (Lacks(fields, "task_id") ==> ReadBlock(fields, host).value.taskId == -1)
    ensures ReadBlockResponse(fields, host).Some? ==> !Lacks(fields, "data") && ReadBlock(fields, host).Some?
  {
    LacksFindsNothing(fields);
    hide Lacks, FindField, Text, ToInt64, ToBytes;
  }

  ghost predicate IsUnreadable(f: Field, dataType: Byte, width: nat) {
    f.dataType != dataType || |f.value| < width
  }

  /** A request in which a number of the envelope has another type, or too few bytes, is refused, and so is one
      with an empty path. */
  lemma MalformedRequestIsRefused(
      fields: seq<Field>, k: nat, host: ByteOrder, was: EnvelopeRequest, render: Field -> seq<Byte>)
    requires was.version < 0x1_0000 && DistinctNames(fields) && k < |fields|
    requires var f := fields[k];
             || (f.name == Text("version") && IsUnreadable(f, 3, 2))
             || (f.name == Text("request_id") && IsUnreadable(f, 7, 8))
             || (f.name == Text("request_type") && IsUnreadable(f, 1, 1))
             || (f.name == Text("content_type") && IsUnreadable(f, 1, 1))
             || (f.name == Text("path") && f.dataType == 12 && f.value == [])
    ensures ReadEnvelopeRequest(fields, host, was, render).None?
  {
    hide Text, DistinctNames;
    FindsMember(fields, k);
  }

  lemma MalformedResponseIsRefused(fields: seq<Field>, k: nat, host: ByteOrder, was: EnvelopeResponse)
    requires was.version < 0x1_0000 && was.status < 0x1_0000 && DistinctNames(fields) && k < |fields|
    requires var f := fields[k];
             || (f.name == Text("version") && IsUnreadable(f, 3, 2))
             || (f.name == Text("request_id") && IsUnreadable(f, 7, 8))
             || (f.name == Text("status") && IsUnreadable(f, 3, 2))
             || (f.name == Text("content_type") && IsUnreadable(f, 1, 1))
    ensures ReadEnvelopeResponse(fields, host, was).None?
  {
    hide Text, DistinctNames;
    FindsMember(fields, k);
  }

  /** A block in which a number has another type or too few bytes is refused, but for the task id, which is then -1. */
  lemma MalformedBlockIsRefused(fields: seq<Field>, k: nat, host: ByteOrder)
    requires DistinctNames(fields) && k < |fields| && IsUnreadable(fields[k], 8, 8)
    ensures var f := fields[k];
            f.name == Text("block_id") || f.name == Text("file_id") || f.name == Text("offset")
            || f.name == Text("block_size") ==>
              ReadBlock(fields, host).None? && ReadBlockResponse(fields, host).None?
    ensures fields[k].name == Text("task_id") && ReadBlock(fields, host).Some? ==>
              ReadBlock(fields, host).value.taskId == -1
  {
    hide Text, DistinctNames;
    FindsMember(fields, k);
  }

  /** A request for any other path than the three is refused. */
  lemma UnknownPathIsRefused(data: seq<Byte>, host: ByteOrder, was: EnvelopeRequest, render: Field -> seq<Byte>)
    requires was.version < 0x1_0000 && ReadRequest(data, host, was, render).Some?
    ensures var e := ReadEnvelopeRequest(Parsed(data), host, was, render);
            && e.Some?
            && ReadRequest(data, host, was, render).value.0 == e.value.requestId
            && match ReadRequest(data, host, was, render).value.1
               case BlockRequest(_) => e.value.path == Text("/block")
               case DownloadRequest(_, _) => e.value.path == Text("/download")
               case TestRequest(_) => e.value.path == Text("/test")
  {
    hide Text, ReadEnvelopeRequest, Parsed, ReadBlock, TextOf;
  }

  // ---------------------------------------------------------------- envelopes

  /** The method, path and body of a request: GET is 0, POST is 1. */
  ghost predicate IsEnvelopeOf(e: EnvelopeRequest, r: Request, requestId: Int64, host: ByteOrder) {
    && e.version == 1
    && e.requestId == (if requestId < 0 then requestId + 0x1_0000_0000_0000_0000 else requestId)
    && e.contentType == 1
    && match r
       case BlockRequest(_) => e.requestType == 0 && e.path == Text("/block")
       case DownloadRequest(_, _) => e.requestType == 0 && e.path == Text("/download")
       case TestRequest(_) => e.requestType == 1 && e.path == Text("/test")
  }

  /** The server reads from a client's request the version, the id, the method, the path and the content type that
      belong to it, and the body as it was built. */
  lemma RequestEnvelopeArrives(
      r: Request, requestId: Int64, host: ByteOrder, was: EnvelopeRequest, render: Field -> seq<Byte>)
    requires was.version < 0x1_0000 && (r.TestRequest? ==> |r.message| <= 0x1000_0000 - 41)
    ensures var e := ReadEnvelopeRequest(Parsed(RequestMessage(r, requestId, host)), host, was, render);
            e.Some? && IsEnvelopeOf(e.value, r, requestId, host) && e.value.body == Message(RequestFields(r, host))
  {
    hide Message, Parsed, ReadEnvelopeRequest, EnvelopeRequestFields, RequestFields, Text;
    RequestBodySize(r, host);
    EnvelopeRequestReads(RequestEnvelope(r, requestId, host), host, was, render);
  }

  /** The client reads from a server's block response version 1, its id, status 200 and content type 1. */
  lemma ResponseEnvelopeArrives(r: BlockResponse, requestId: Int64, host: ByteOrder, was: EnvelopeResponse)
    requires was.version < 0x1_0000 && was.status < 0x1_0000 && |r.data| <= 0x1000_0000 - 146
    ensures var e := ReadEnvelopeResponse(Parsed(BlockResponseMessage(r, requestId, host)), host, was);
            && e.Some? && e.value.version == 1 && e.value.status == 200 && e.value.contentType == 1
            && e.value.requestId == (if requestId < 0 then requestId + 0x1_0000_0000_0000_0000 else requestId)
            && e.value.body == Message(BlockResponseFields(r, host))
  {
    hide Message, Parsed, ReadEnvelopeResponse, EnvelopeResponseFields, BlockResponseFields, Text;
    BlockResponseSize(r, host);
    EnvelopeResponseReads(
      EnvelopeResponse(1, ToUnsigned(requestId), STATUS_OK, CONTENT_DANEJOE, Message(BlockResponseFields(r, host))),
      host, was);
  }

  // ---------------------------------------------------------------- limits

  /** 268435310 bytes are the most that a block response can carry. */
  lemma LargestBlock(r: BlockResponse, requestId: Int64, host: ByteOrder, was: EnvelopeResponse)
    requires was.version < 0x1_0000 && was.status < 0x1_0000 && |r.data| < 0x1_0000_0000 - 1000
    ensures var read := ReadBlockResponseMessage(BlockResponseMessage(r, requestId, host), host, was);
            && (2 <= |r.data| <= 268435310 ==> read.Some? && read.value.1 == r)
            && (|r.data| >= 268435311 ==> read.None?)
  {
    hide BlockResponseMessage, ReadBlockResponseMessage;
    BlockResponseRoundTripIff(r, requestId, host, was);
  }

  /** 268435415 bytes are the most that a test request can carry. */
  lemma LargestTestMessage(
      message: seq<Byte>, requestId: Int64, host: ByteOrder, was: EnvelopeRequest, render: Field -> seq<Byte>)
    requires was.version < 0x1_0000 && |message| < 0x1_0000_0000 - 100
    ensures ReadRequest(RequestMessage(TestRequest(message), requestId, host), host, was, render)
            == Some((ToUnsigned(requestId), TestRequest(message)))
            <==> |message| <= 268435415
  {
    hide RequestMessage, ReadRequest;
    RequestRoundTripIff(TestRequest(message), requestId, host, was, render);
  }

  /** Names of 128 bytes and values of 268435456 are kept, longer ones are skipped. */
  lemma FieldLimits(f: Field)
    requires f.SizesAgree()
    ensures Kept(Some(f)) == if |f.name| <= 128 && |f.value| <= 268435456 then [f] else []
  {
  }
}
