/** Requests and responses inside their envelopes, from one side's builders to the other side's
    parsers. */
module Envelopes {
  import opened Options
  import opened Bytes
  import opened Headers
  import opened Fields
  import opened Codec
  import opened ArrayValues
  import opened Messages

  // ---------------------------------------------------------------- building

  /** serialize() on one field: nothing without a field, and fields over the limits are skipped. */
  function Kept(field: Option<Field>): seq<Field> {
    if field.Some? && WithinLimits(field.value) then [field.value] else []
  }

  function EnvelopeRequestFields(e: EnvelopeRequest, host: ByteOrder): seq<Field> {
    [UnsignedField("version", UINT16, e.version, 2, host),
     UnsignedField("request_id", UINT64, e.requestId, 8, host),
     UnsignedField("request_type", UINT8, e.requestType, 1, host)]
    + Kept(Some(StringField("path", e.path)))
    + [UnsignedField("content_type", UINT8, e.contentType, 1, host)]
    + Kept(BytesField("body", e.body, host))
  }

  function EnvelopeResponseFields(e: EnvelopeResponse, host: ByteOrder): seq<Field> {
    [UnsignedField("version", UINT16, e.version, 2, host),
     UnsignedField("request_id", UINT64, e.requestId, 8, host),
     UnsignedField("status", UINT16, e.status, 2, host),
     UnsignedField("content_type", UINT8, e.contentType, 1, host)]
    + Kept(BytesField("body", e.body, host))
  }

  function BlockFields(b: BlockInfo, host: ByteOrder): seq<Field> {
    [Int64Field("block_id", b.blockId, host),
     Int64Field("file_id", b.fileId, host),
     Int64Field("task_id", b.taskId, host),
     Int64Field("offset", b.offset, host),
     Int64Field("block_size", b.blockSize, host)]
  }

  function RequestFields(r: Request, host: ByteOrder): seq<Field> {
    match r
    case BlockRequest(block) => BlockFields(block, host)
    case DownloadRequest(fileId, taskId) => [Int64Field("file_id", fileId, host), Int64Field("task_id", taskId, host)]
    case TestRequest(message) => Kept(Some(StringField("message", message)))
  }

  function PathOf(r: Request): seq<Byte> {
    match r
    case BlockRequest(_) => Text("/block")
    case DownloadRequest(_, _) => Text("/download")
    case TestRequest(_) => Text("/test")
  }

  function RequestEnvelope(r: Request, requestId: Int64, host: ByteOrder): EnvelopeRequest {
    EnvelopeRequest(1, ToUnsigned(requestId), if r.TestRequest? then 1 else 0, PathOf(r), CONTENT_DANEJOE,
                    Message(RequestFields(r, host)))
  }

  /** What the client sends for a request. */
  function RequestMessage(r: Request, requestId: Int64, host: ByteOrder): seq<Byte> {
    Message(EnvelopeRequestFields(RequestEnvelope(r, requestId, host), host))
  }

  function BlockResponseFields(r: BlockResponse, host: ByteOrder): seq<Field> {
    BlockFields(r.block, host) + Kept(BytesField("data", r.data, host))
  }

  /** What the server sends for a block. */
  function BlockResponseMessage(r: BlockResponse, requestId: Int64, host: ByteOrder): seq<Byte> {
    Message(EnvelopeResponseFields(
              EnvelopeResponse(1, ToUnsigned(requestId), STATUS_OK, CONTENT_DANEJOE,
                               Message(BlockResponseFields(r, host))),
              host))
  }

  // ---------------------------------------------------------------- reading

  /** An optional unsigned field: absent, it leaves the member as it was; of another type, it makes
      the parser give up. */
  function Optional(fields: seq<Field>, name: string, dataType: Byte, width: nat, host: ByteOrder, was: nat)
    : (r: Option<nat>)
    requires was < Pow256(width)
    ensures r.Some? ==> r.value < Pow256(width)
  {
    match FindField(fields, Text(name))
    case None => Some(was)
    case Some(f) =>
      if |f.value| >= width then
        var bytes := f.value[..width];
        assert FromObjectBytes(bytes, host) < Pow256(width) by {
          NetworkBytesDetermined(if host == BigEndian then bytes else Reversed(bytes));
        }
        ToValue(f, dataType, width, host)
      else
        None
  }

  function BodyOf(fields: seq<Field>): seq<Byte> {
    match FindField(fields, Text("body"))
    case None => []
    case Some(f) => ToBytes(f)
  }

  /** to_string(field); how a field of another type is printed is the parameter render. */
  function TextOf(f: Field, render: Field -> seq<Byte>): seq<Byte> {
    if f.dataType == STRING then f.value else render(f)
  }

  /** The envelope as the server reads it. was holds what the members contained before. */
  function ReadEnvelopeRequest(fields: seq<Field>, host: ByteOrder, was: EnvelopeRequest, render: Field -> seq<Byte>)
    : Option<EnvelopeRequest>
    requires was.version < 0x1_0000
  {
    Pow256Sizes();
    var version := Optional(fields, "version", UINT16, 2, host, was.version);
    var requestId := Optional(fields, "request_id", UINT64, 8, host, was.requestId);
    var requestType := Optional(fields, "request_type", UINT8, 1, host, was.requestType);
    var path := match FindField(fields, Text("path")) { case None => [] case Some(f) => TextOf(f, render) };
    var contentType := Optional(fields, "content_type", UINT8, 1, host, was.contentType);
    if version.None? || requestId.None? || requestType.None? || contentType.None? then None
    else if FindField(fields, Text("path")).Some? && path == [] then None
    else
      Some(EnvelopeRequest(version.value, requestId.value, requestType.value, path, contentType.value, BodyOf(fields)))
  }

  function ReadEnvelopeResponse(fields: seq<Field>, host: ByteOrder, was: EnvelopeResponse)
    : Option<EnvelopeResponse>
    requires was.version < 0x1_0000 && was.status < 0x1_0000
  {
    Pow256Sizes();
    var version := Optional(fields, "version", UINT16, 2, host, was.version);
    var requestId := Optional(fields, "request_id", UINT64, 8, host, was.requestId);
    var status := Optional(fields, "status", UINT16, 2, host, was.status);
    var contentType := Optional(fields, "content_type", UINT8, 1, host, was.contentType);
    if version.None? || requestId.None? || status.None? || contentType.None? then None
    else Some(EnvelopeResponse(version.value, requestId.value, status.value, contentType.value, BodyOf(fields)))
  }

  function RequiredInt64(fields: seq<Field>, name: string, host: ByteOrder): Option<Int64> {
    match FindField(fields, Text(name))
    case None => None
    case Some(f) => ToInt64(f, host)
  }

  /** The task id may be missing or malformed; it then keeps its initial -1. */
  function ReadTaskId(fields: seq<Field>, host: ByteOrder): Int64 {
    match RequiredInt64(fields, "task_id", host)
    case None => -1
    case Some(v) => v
  }

  function ReadBlock(fields: seq<Field>, host: ByteOrder): Option<BlockInfo> {
    var blockId := RequiredInt64(fields, "block_id", host);
    var fileId := RequiredInt64(fields, "file_id", host);
    var offset := RequiredInt64(fields, "offset", host);
    var blockSize := RequiredInt64(fields, "block_size", host);
    if blockId.None? || fileId.None? || offset.None? || blockSize.None? then None
    else Some(BlockInfo(blockId.value, fileId.value, ReadTaskId(fields, host), offset.value, blockSize.value))
  }

  function ReadBlockResponse(fields: seq<Field>, host: ByteOrder): Option<BlockResponse> {
    match ReadBlock(fields, host)
    case None => None
    case Some(block) =>
      match FindField(fields, Text("data"))
      case None => None
      case Some(f) => Some(BlockResponse(block, ToBytes(f)))
  }

  /** handle_request up to the handlers: the envelope, then the body according to the path. */
  function ReadRequest(data: seq<Byte>, host: ByteOrder, was: EnvelopeRequest, render: Field -> seq<Byte>)
    : Option<(UInt64, Request)>
    requires was.version < 0x1_0000
  {
    match ReadEnvelopeRequest(Parsed(data), host, was, render)
    case None => None
    case Some(e) =>
      var fields := Parsed(e.body);
      if e.path == Text("/download") then
        match RequiredInt64(fields, "file_id", host)
        case None => None
        case Some(fileId) => Some((e.requestId, DownloadRequest(fileId, ReadTaskId(fields, host))))
      else if e.path == Text("/test") then
        match FindField(fields, Text("message"))
        case None => None
        case Some(f) => Some((e.requestId, TestRequest(TextOf(f, render))))
      else if e.path == Text("/block") then
        match ReadBlock(fields, host)
        case None => None
        case Some(block) => Some((e.requestId, BlockRequest(block)))
      else
        None
  }

  /** The client's side: the envelope, then the body for the handler of that request id. */
  function ReadBlockResponseMessage(data: seq<Byte>, host: ByteOrder, was: EnvelopeResponse)
    : Option<(UInt64, BlockResponse)>
    requires was.version < 0x1_0000 && was.status < 0x1_0000
  {
    match ReadEnvelopeResponse(Parsed(data), host, was)
    case None => None
    case Some(e) =>
      match ReadBlockResponse(Parsed(e.body), host)
      case None => None
      case Some(r) => Some((e.requestId, r))
  }

  // ---------------------------------------------------------------- small messages

  ghost predicate Sound(fields: seq<Field>) {
    forall k :: 0 <= k < |fields| ==> fields[k].SizesAgree() && fields[k].LengthIsKnown() && WithinLimits(fields[k])
  }

  lemma {:induction false} EncodedSizeBound(fields: seq<Field>)
    requires Sound(fields)
    ensures |EncodeFields(fields)| <= |fields| * (MAX_FIELD_VALUE_LENGTH + MAX_FIELD_NAME_LENGTH + 8)
  {
    hide EncodeField;
    if fields != [] {
      var n := |fields| - 1;
      EncodedSizeBound(fields[..n]);
      assert SerializedSize(fields[n]) <= MAX_FIELD_VALUE_LENGTH + MAX_FIELD_NAME_LENGTH + 8;
    }
  }

  lemma SmallMessageReads(fields: seq<Field>)
    requires Sound(fields) && |fields| <= 10
    ensures Buildable(fields)
    ensures Parsed(Message(fields)) == fields
  {
    hide EncodeFields, Message, Parsed, StaysInRange;
    EncodedSizeBound(fields);
    MessageRoundTripIff(fields);
    assert fields[..|fields|] == fields;
  }

  // ---------------------------------------------------------------- names

  lemma TextDiffers(a: string, b: string)
    requires a != b
    requires forall k :: 0 <= k < |a| ==> a[k] as int < 256
    requires forall k :: 0 <= k < |b| ==> b[k] as int < 256
    ensures Text(a) != Text(b)
  {
    if |a| == |b| {
      var k :| 0 <= k < |a| && a[k] != b[k];
      assert Text(a)[k] != Text(b)[k];
    }
  }

  lemma EnvelopeNamesDiffer()
    ensures Text("request_type") != Text("content_type") && Text("path") != Text("body")
            && Text("status") != Text("body")
  {
    TextDiffers("request_type", "content_type");
    TextDiffers("path", "body");
  }

  lemma BlockNamesDiffer()
    ensures Text("file_id") != Text("task_id")
  {
    TextDiffers("file_id", "task_id");
  }

  lemma PathsDiffer()
    ensures Text("/block") != Text("/test") && Text("/block") != Text("/download") && Text("/test") != Text("/download")
  {
  }

  // ---------------------------------------------------------------- envelopes

  /** The body as it arrives: nothing when it has fewer than two bytes or is over the limit. */
  function Delivered(body: seq<Byte>): seq<Byte> {
    if 2 <= |body| <= MAX_FIELD_VALUE_LENGTH - 10 then body else []
  }

  lemma BodyFieldReads(name: string, body: seq<Byte>, host: ByteOrder)
    requires 10 + |body| < TWO_32 && |name| <= MAX_FIELD_NAME_LENGTH
    ensures Sound(Kept(BytesField(name, body, host)))
    ensures |body| > 0 ==> BytesField(name, body, host).Some? && BytesField(name, body, host).value.name == Text(name)
    ensures Kept(BytesField(name, body, host)) != [] <==> 0 < |body| <= MAX_FIELD_VALUE_LENGTH - 10
    ensures Kept(BytesField(name, body, host)) != [] ==> ToBytes(BytesField(name, body, host).value) == Delivered(body)
  {
    hide DecodeArray;
    BytesRoundTripIff(name, body, host);
    assert |body| >= 2 ==> |BytesField(name, body, host).value.value| == 10 + |body|;
  }

  lemma UnsignedFieldIsSound(name: string, dataType: Byte, value: nat, width: nat, host: ByteOrder)
    requires |name| <= MAX_FIELD_NAME_LENGTH && width == TypeLength(dataType)
    ensures Sound([UnsignedField(name, dataType, value, width, host)])
  {
  }

  lemma EnvelopeRequestReads(e: EnvelopeRequest, host: ByteOrder, was: EnvelopeRequest, render: Field -> seq<Byte>)
    requires e.version < 0x1_0000 && was.version < 0x1_0000
    requires 0 < |e.path| <= 128 && 10 + |e.body| < TWO_32
    ensures var fields := EnvelopeRequestFields(e, host);
            && Parsed(Message(fields)) == fields
            && ReadEnvelopeRequest(fields, host, was, render) == Some(e.(body := Delivered(e.body)))
  {
    hide DecodeArray, EncodeArray, ToBytes, VectorField, ToValue, ObjectBytes, Parsed, Message, Text;
    var fields := EnvelopeRequestFields(e, host);
    var body := Kept(BytesField("body", e.body, host));
    BodyFieldReads("body", e.body, host);
    var version := UnsignedField("version", UINT16, e.version, 2, host);
    var requestId := UnsignedField("request_id", UINT64, e.requestId, 8, host);
    var requestType := UnsignedField("request_type", UINT8, e.requestType, 1, host);
    var path := StringField("path", e.path);
    var contentType := UnsignedField("content_type", UINT8, e.contentType, 1, host);
    assert Kept(Some(path)) == [path];
    assert fields == [version, requestId, requestType, path, contentType] + body;
    hide EnvelopeRequestFields, FindField;
    EnvelopeNamesDiffer();
    assert DistinctNames(fields);
    SmallMessageReads(fields);
    hide DistinctNames;
    UnsignedRoundTrip("version", UINT16, e.version, 2, host);
    UnsignedRoundTrip("request_id", UINT64, e.requestId, 8, host);
    UnsignedRoundTrip("request_type", UINT8, e.requestType, 1, host);
    UnsignedRoundTrip("content_type", UINT8, e.contentType, 1, host);
    FindsMember(fields, 0);
    FindsMember(fields, 1);
    FindsMember(fields, 2);
    FindsMember(fields, 3);
    FindsMember(fields, 4);
    if body != [] {
      FindsMember(fields, 5);
    } else {
      FindsNothing(fields, Text("body"));
    }
  }

  lemma EnvelopeResponseReads(e: EnvelopeResponse, host: ByteOrder, was: EnvelopeResponse)
    requires e.version < 0x1_0000 && e.status < 0x1_0000 && was.version < 0x1_0000 && was.status < 0x1_0000
    requires 10 + |e.body| < TWO_32
    ensures var fields := EnvelopeResponseFields(e, host);
            && Parsed(Message(fields)) == fields
            && ReadEnvelopeResponse(fields, host, was) == Some(e.(body := Delivered(e.body)))
  {
    hide DecodeArray, EncodeArray, ToBytes, VectorField, ToValue, ObjectBytes, Parsed, Message, Text;
    var fields := EnvelopeResponseFields(e, host);
    var body := Kept(BytesField("body", e.body, host));
    BodyFieldReads("body", e.body, host);
    var version := UnsignedField("version", UINT16, e.version, 2, host);
    var requestId := UnsignedField("request_id", UINT64, e.requestId, 8, host);
    var status := UnsignedField("status", UINT16, e.status, 2, host);
    var contentType := UnsignedField("content_type", UINT8, e.contentType, 1, host);
    assert fields == [version, requestId, status, contentType] + body;
    EnvelopeNamesDiffer();
    assert DistinctNames(fields);
    SmallMessageReads(fields);
    UnsignedRoundTrip("version", UINT16, e.version, 2, host);
    UnsignedRoundTrip("request_id", UINT64, e.requestId, 8, host);
    UnsignedRoundTrip("status", UINT16, e.status, 2, host);
    UnsignedRoundTrip("content_type", UINT8, e.contentType, 1, host);
    FindsMember(fields, 0);
    FindsMember(fields, 1);
    FindsMember(fields, 2);
    FindsMember(fields, 3);
    if body != [] {
      FindsMember(fields, 4);
    } else {
      FindsNothing(fields, Text("body"));
    }
  }

  // ---------------------------------------------------------------- bodies

  lemma Int64FieldIsSound(name: string, value: Int64, host: ByteOrder)
    requires |name| <= MAX_FIELD_NAME_LENGTH
    ensures var f := Int64Field(name, value, host);
            f.name == Text(name) && f.SizesAgree() && f.LengthIsKnown() && WithinLimits(f)
  {
  }

  /** The five block fields read back, with or without a data field behind them. */
  lemma BlockReads(b: BlockInfo, data: seq<Field>, host: ByteOrder)
    requires |data| <= 1 && Sound(data) && (data != [] ==> data[0].name == Text("data"))
    ensures var fields := BlockFields(b, host) + data;
            && DistinctNames(fields)
            && Parsed(Message(fields)) == fields
            && ReadBlock(fields, host) == Some(b)
            && FindField(fields, Text("data")) == if data == [] then None else Some(data[0])
  {
    hide ToInt64, ToValue, ObjectBytes, Parsed, Message, Text, Int64Field;
    var fields := BlockFields(b, host) + data;
    Int64FieldIsSound("block_id", b.blockId, host);
    Int64FieldIsSound("file_id", b.fileId, host);
    Int64FieldIsSound("task_id", b.taskId, host);
    Int64FieldIsSound("offset", b.offset, host);
    Int64FieldIsSound("block_size", b.blockSize, host);
    BlockNamesDiffer();
    assert DistinctNames(fields);
    SmallMessageReads(fields);
    Int64RoundTrip("block_id", b.blockId, host);
    Int64RoundTrip("file_id", b.fileId, host);
    Int64RoundTrip("task_id", b.taskId, host);
    Int64RoundTrip("offset", b.offset, host);
    Int64RoundTrip("block_size", b.blockSize, host);
    FindsMember(fields, 0);
    FindsMember(fields, 1);
    FindsMember(fields, 2);
    FindsMember(fields, 3);
    FindsMember(fields, 4);
    if data != [] {
      FindsMember(fields, 5);
    } else {
      FindsNothing(fields, Text("data"));
    }
  }

  lemma DownloadReads(fileId: Int64, taskId: Int64, host: ByteOrder)
    ensures var fields := RequestFields(DownloadRequest(fileId, taskId), host);
            && Parsed(Message(fields)) == fields
            && RequiredInt64(fields, "file_id", host) == Some(fileId)
            && ReadTaskId(fields, host) == taskId
  {
    hide ToInt64, ToValue, ObjectBytes, Parsed, Message, Text;
    var fields := RequestFields(DownloadRequest(fileId, taskId), host);
    BlockNamesDiffer();
    SmallMessageReads(fields);
    Int64RoundTrip("file_id", fileId, host);
    Int64RoundTrip("task_id", taskId, host);
    FindsMember(fields, 0);
    FindsMember(fields, 1);
  }

  lemma TestReads(message: seq<Byte>, host: ByteOrder)
    requires |message| <= MAX_FIELD_VALUE_LENGTH
    ensures var fields := RequestFields(TestRequest(message), host);
            && Parsed(Message(fields)) == fields
            && FindField(fields, Text("message")) == Some(StringField("message", message))
  {
    hide Parsed, Message, Text;
    var fields := RequestFields(TestRequest(message), host);
    assert fields == [StringField("message", message)];
    SmallMessageReads(fields);
    FindsMember(fields, 0);
  }

  lemma NothingReads()
    ensures Parsed([]) == []
  {
  }

  /** How long the message of a request body is. */
  lemma RequestBodySize(r: Request, host: ByteOrder)
    requires r.TestRequest? ==> |r.message| <= MAX_FIELD_VALUE_LENGTH
    ensures var size := |Message(RequestFields(r, host))|;
            && size >= 2
            && (r.TestRequest? ==> size == 31 + |r.message|)
            && (!r.TestRequest? ==> size < 1000)
  {
    hide Text;
    var fields := RequestFields(r, host);
    match r
    case TestRequest(message) =>
      assert fields == [StringField("message", message)];
      EncodeFieldsHead(fields);
    case BlockRequest(block) => BlockFieldsSize(block, host);
    case DownloadRequest(fileId, taskId) =>
      EncodeFieldsHead(fields);
      EncodeFieldsHead(fields[1..]);
  }

  lemma BlockFieldsSize(b: BlockInfo, host: ByteOrder)
    ensures |EncodeFields(BlockFields(b, host))| == 98
  {
    var fields := BlockFields(b, host);
    EncodeFieldsHead(fields);
    EncodeFieldsHead(fields[1..]);
    EncodeFieldsHead(fields[1..][1..]);
    EncodeFieldsHead(fields[1..][1..][1..]);
    EncodeFieldsHead(fields[1..][1..][1..][1..]);
  }

  // ---------------------------------------------------------------- both ends together

  /** The server reads back exactly the request id and the request that the client sent, if and only
      if the message of a test request, with its own envelope, stays within the limit on values. */
  lemma RequestRoundTripIff(r: Request, requestId: Int64, host: ByteOrder, was: EnvelopeRequest,
                            render: Field -> seq<Byte>)
    requires was.version < 0x1_0000
    requires r.TestRequest? ==> |r.message| < TWO_32 - 100
    ensures ReadRequest(RequestMessage(r, requestId, host), host, was, render) == Some((ToUnsigned(requestId), r))
            <==> (r.TestRequest? ==> |r.message| <= MAX_FIELD_VALUE_LENGTH - 41)
  {
    hide Message, Parsed, ReadEnvelopeRequest, EnvelopeRequestFields, RequestFields, Text, ReadBlock;
    var e := RequestEnvelope(r, requestId, host);
    if r.TestRequest? && |r.message| > MAX_FIELD_VALUE_LENGTH {
      SkippedMessage(r.message, host);
      EnvelopeRequestReads(e, host, was, render);
    } else {
      RequestBodySize(r, host);
      PathsDiffer();
      EnvelopeRequestReads(e, host, was, render);
      NothingReads();
      match r
      case BlockRequest(block) => BlockRequestFieldsRead(block, host);
      case DownloadRequest(fileId, taskId) => DownloadReads(fileId, taskId, host);
      case TestRequest(message) => TestReads(message, host);
    }
  }

  lemma BlockRequestFieldsRead(block: BlockInfo, host: ByteOrder)
    ensures var fields := RequestFields(BlockRequest(block), host);
            Parsed(Message(fields)) == fields && ReadBlock(fields, host) == Some(block)
  {
    BlockReads(block, [], host);
    assert BlockFields(block, host) + [] == BlockFields(block, host);
  }

  /** A message over the limit by itself is left out of the body, which then has no field at all. */
  lemma SkippedMessage(message: seq<Byte>, host: ByteOrder)
    requires |message| > MAX_FIELD_VALUE_LENGTH
    ensures RequestFields(TestRequest(message), host) == []
    ensures |Message(RequestFields(TestRequest(message), host))| == HEADER_SIZE
    ensures Parsed(Message(RequestFields(TestRequest(message), host))) == []
  {
    SmallMessageReads([]);
  }

  /** The client reads back exactly the block response that the server sent, if and only if its data
      has at least two bytes and, with its own envelope, stays within the limit on values. */
  lemma BlockResponseRoundTripIff(r: BlockResponse, requestId: Int64, host: ByteOrder, was: EnvelopeResponse)
    requires was.version < 0x1_0000 && was.status < 0x1_0000
    requires |r.data| < TWO_32 - 1000
    ensures ReadBlockResponseMessage(BlockResponseMessage(r, requestId, host), host, was)
            == Some((ToUnsigned(requestId), r))
            <==> 2 <= |r.data| <= MAX_FIELD_VALUE_LENGTH - 146
    ensures |r.data| == 0 || |r.data| > MAX_FIELD_VALUE_LENGTH - 146 ==>
              ReadBlockResponseMessage(BlockResponseMessage(r, requestId, host), host, was) == None
    ensures |r.data| == 1 ==>
              ReadBlockResponseMessage(BlockResponseMessage(r, requestId, host), host, was)
              == Some((ToUnsigned(requestId), r.(data := [])))
  {
    hide Message, Parsed, ReadEnvelopeResponse, EnvelopeResponseFields, Text, ReadBlock, ToBytes, VectorField,
      BlockFields;
    var data := Kept(BytesField("data", r.data, host));
    BodyFieldReads("data", r.data, host);
    BlockReads(r.block, data, host);
    BlockResponseSize(r, host);
    var body := Message(BlockResponseFields(r, host));
    EnvelopeResponseReads(EnvelopeResponse(1, ToUnsigned(requestId), STATUS_OK, CONTENT_DANEJOE, body), host, was);
    NothingReads();
  }

  lemma BlockResponseSize(r: BlockResponse, host: ByteOrder)
    requires |r.data| < TWO_32 - 1000
    ensures var size := |Message(BlockResponseFields(r, host))|;
            && 114 <= size
            && (2 <= |r.data| <= MAX_FIELD_VALUE_LENGTH - 10 ==> size == 136 + |r.data|)
            && (|r.data| <= 1 || |r.data| > MAX_FIELD_VALUE_LENGTH - 10 ==> size < 1000)
  {
    hide Text, BlockFields, EncodeFields, BytesField;
    var data := Kept(BytesField("data", r.data, host));
    BodyFieldReads("data", r.data, host);
    BlockFieldsSize(r.block, host);
    EncodeFieldsSplit(BlockFields(r.block, host), data);
    DataFieldSize(r.data, host);
  }

  lemma DataFieldSize(data: seq<Byte>, host: ByteOrder)
    requires 10 + |data| < TWO_32
    ensures var size := |EncodeFields(Kept(BytesField("data", data, host)))|;
            && (2 <= |data| <= MAX_FIELD_VALUE_LENGTH - 10 ==> size == 22 + |data|)
            && (|data| <= 1 || |data| > MAX_FIELD_VALUE_LENGTH - 10 ==> size < 100)
  {
    hide Text, EncodeField;
    var kept := Kept(BytesField("data", data, host));
    if kept != [] {
      EncodeFieldsHead(kept);
    }
  }
}
