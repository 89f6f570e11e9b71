/** The two message codecs as they drive a codec object, tied to the functions of Envelopes. */
module MessageCodecs {
  import opened Options
  import opened Bytes
  import opened Fields
  import opened Codec
  import opened ArrayValues
  import opened Messages
  import opened Envelopes

  /** serialize() on a codec that holds few fields: room is never a problem. */
  method SerializeKept(codec: SerializeCodec, field: Option<Field>)
    requires codec.Valid() && Sound(codec.built) && |codec.built| < 10
    requires field.Some? ==> field.value.SizesAgree() && field.value.LengthIsKnown()
    modifies codec`build, codec`buildMap, codec`currentIndex, codec`built
    ensures codec.Valid() && codec.built == old(codec.built) + Kept(field) && Sound(codec.built)
  {
    hide EncodeField, EncodeFields;
    EncodedSizeBound(codec.built);
    if field.Some? {
      codec.Serialize(field.value);
    }
  }

  method SerializeUnsigned(codec: SerializeCodec, name: string, dataType: Byte, value: nat, width: nat)
    requires codec.Valid() && Sound(codec.built) && |codec.built| < 10
    requires |name| <= MAX_FIELD_NAME_LENGTH && width == TypeLength(dataType)
    modifies codec`build, codec`buildMap, codec`currentIndex, codec`built
    ensures codec.Valid() && Sound(codec.built)
    ensures codec.built == old(codec.built) + [UnsignedField(name, dataType, value, width, codec.host)]
  {
    UnsignedFieldIsSound(name, dataType, value, width, codec.host);
    var field := UnsignedField(name, dataType, value, width, codec.host);
    assert [field][0] == field;
    SerializeKept(codec, Some(field));
  }

  method SerializeString(codec: SerializeCodec, name: string, value: seq<Byte>)
    requires codec.Valid() && Sound(codec.built) && |codec.built| < 10
    requires |name| <= MAX_FIELD_NAME_LENGTH && |value| < TWO_32
    modifies codec`build, codec`buildMap, codec`currentIndex, codec`built
    ensures codec.Valid() && Sound(codec.built)
    ensures codec.built == old(codec.built) + Kept(Some(StringField(name, value)))
    ensures |codec.built| <= |old(codec.built)| + 1
  {
    SerializeKept(codec, Some(StringField(name, value)));
  }

  lemma BlockFieldsInOrder(b: BlockInfo, host: ByteOrder)
    ensures BlockFields(b, host)
            == BlockIds(b, host)
               + [UnsignedField("offset", INT64, ToUnsigned(b.offset), 8, host)]
               + [UnsignedField("block_size", INT64, ToUnsigned(b.blockSize), 8, host)]
  {
    hide UnsignedField;
  }

  ghost function BlockIds(b: BlockInfo, host: ByteOrder): (s: seq<Field>)
    ensures |s| == 3
  {
    [UnsignedField("block_id", INT64, ToUnsigned(b.blockId), 8, host)]
    + [UnsignedField("file_id", INT64, ToUnsigned(b.fileId), 8, host)]
    + [UnsignedField("task_id", INT64, ToUnsigned(b.taskId), 8, host)]
  }

  method SerializeBlockIds(codec: SerializeCodec, block: BlockInfo)
    requires codec.Valid() && codec.built == []
    modifies codec`build, codec`buildMap, codec`currentIndex, codec`built
    ensures codec.Valid() && Sound(codec.built) && codec.built == BlockIds(block, codec.host)
  {
    hide SerializeCodec.Valid, UnsignedField, Sound;
    NothingIsSound();
    SerializeUnsigned(codec, "block_id", INT64, ToUnsigned(block.blockId), 8);
    SerializeUnsigned(codec, "file_id", INT64, ToUnsigned(block.fileId), 8);
    SerializeUnsigned(codec, "task_id", INT64, ToUnsigned(block.taskId), 8);
  }

  method SerializeBlock(codec: SerializeCodec, block: BlockInfo)
    requires codec.Valid() && codec.built == []
    modifies codec`build, codec`buildMap, codec`currentIndex, codec`built
    ensures codec.Valid() && Sound(codec.built) && codec.built == BlockFields(block, codec.host)
  {
    hide SerializeCodec.Valid, UnsignedField, Sound, BlockFields, BlockIds;
    SerializeBlockIds(codec, block);
    SerializeUnsigned(codec, "offset", INT64, ToUnsigned(block.offset), 8);
    SerializeUnsigned(codec, "block_size", INT64, ToUnsigned(block.blockSize), 8);
    BlockFieldsInOrder(block, codec.host);
  }

  /** The two fields that requests and responses begin with. */
  method SerializeHead(codec: SerializeCodec, version: nat, requestId: UInt64)
    requires codec.Valid() && codec.built == []
    modifies codec`build, codec`buildMap, codec`currentIndex, codec`built
    ensures codec.Valid() && Sound(codec.built)
    ensures codec.built == [UnsignedField("version", UINT16, version, 2, codec.host),
                            UnsignedField("request_id", UINT64, requestId, 8, codec.host)]
  {
    hide SerializeCodec.Valid, UnsignedField, Sound;
    NothingIsSound();
    SerializeUnsigned(codec, "version", UINT16, version, 2);
    SerializeUnsigned(codec, "request_id", UINT64, requestId, 8);
  }

  lemma NothingIsSound()
    ensures Sound([])
  {
  }

  lemma RequestFieldsInOrder(e: EnvelopeRequest, host: ByteOrder)
    ensures EnvelopeRequestFields(e, host)
            == [UnsignedField("version", UINT16, e.version, 2, host),
                UnsignedField("request_id", UINT64, e.requestId, 8, host)]
               + [UnsignedField("request_type", UINT8, e.requestType, 1, host)]
               + Kept(Some(StringField("path", e.path)))
               + [UnsignedField("content_type", UINT8, e.contentType, 1, host)]
               + Kept(BytesField("body", e.body, host))
  {
    hide UnsignedField, BytesField, StringField, Kept;
    var head := [UnsignedField("version", UINT16, e.version, 2, host),
                 UnsignedField("request_id", UINT64, e.requestId, 8, host)];
    var third := UnsignedField("request_type", UINT8, e.requestType, 1, host);
    assert head + [third] == [head[0], head[1], third];
  }

  method BuildRequestByteArray(e: EnvelopeRequest, host: ByteOrder) returns (data: seq<Byte>)
    requires 10 + |e.body| < TWO_32 && |e.path| < TWO_32
    ensures data == Message(EnvelopeRequestFields(e, host))
  {
    hide SerializeCodec.Valid, UnsignedField, BytesField, StringField, Kept, Sound, Message, EnvelopeRequestFields;
    var codec := new SerializeCodec(host);
    SerializeHead(codec, e.version, e.requestId);
    SerializeUnsigned(codec, "request_type", UINT8, e.requestType, 1);
    SerializeString(codec, "path", e.path);
    SerializeUnsigned(codec, "content_type", UINT8, e.contentType, 1);
    BodyFieldFits("body", e.body, host);
    SerializeKept(codec, BytesField("body", e.body, host));
    RequestFieldsInOrder(e, host);
    data := codec.GetSerializedDataVectorBuild();
  }

  method BuildResponseByteArray(e: EnvelopeResponse, host: ByteOrder) returns (data: seq<Byte>)
    requires 10 + |e.body| < TWO_32
    ensures data == Message(EnvelopeResponseFields(e, host))
  {
    hide SerializeCodec.Valid, UnsignedField, BytesField, StringField, Kept, Sound, Message;
    var codec := new SerializeCodec(host);
    SerializeHead(codec, e.version, e.requestId);
    SerializeUnsigned(codec, "status", UINT16, e.status, 2);
    SerializeUnsigned(codec, "content_type", UINT8, e.contentType, 1);
    BodyFieldFits("body", e.body, host);
    SerializeKept(codec, BytesField("body", e.body, host));
    assert codec.built == EnvelopeResponseFields(e, host);
    data := codec.GetSerializedDataVectorBuild();
  }

  lemma BodyFieldFits(name: string, data: seq<Byte>, host: ByteOrder)
    requires 10 + |data| < TWO_32 && |name| <= MAX_FIELD_NAME_LENGTH
    ensures var f := BytesField(name, data, host); f.Some? ==> f.value.SizesAgree() && f.value.LengthIsKnown()
  {
  }

  method BuildBlockRequestByteArray(block: BlockInfo, requestId: Int64, host: ByteOrder) returns (data: seq<Byte>)
    ensures data == RequestMessage(BlockRequest(block), requestId, host)
  {
    hide Message, Text, SerializeCodec.Valid, BlockFields, EnvelopeRequestFields;
    var body := new SerializeCodec(host);
    SerializeBlock(body, block);
    var bytes := body.GetSerializedDataVectorBuild();
    RequestBodySize(BlockRequest(block), host);
    data := BuildRequestByteArray(
      EnvelopeRequest(1, ToUnsigned(requestId), 0, Text("/block"), CONTENT_DANEJOE, bytes), host);
  }

  method BuildBlockResponseByteArray(r: BlockResponse, requestId: Int64, host: ByteOrder) returns (data: seq<Byte>)
    requires |r.data| < TWO_32 - 1000
    ensures data == BlockResponseMessage(r, requestId, host)
  {
    hide Message, VectorField, BlockFields, Text;
    var body := new SerializeCodec(host);
    SerializeBlock(body, r.block);
    BodyFieldFits("data", r.data, host);
    BlockFieldCount(r.block, host);
    SerializeKept(body, BytesField("data", r.data, host));
    var bytes := body.GetSerializedDataVectorBuild();
    BlockResponseSize(r, host);
    data := BuildResponseByteArray(
      EnvelopeResponse(1, ToUnsigned(requestId), STATUS_OK, CONTENT_DANEJOE, bytes), host);
  }

  lemma BlockFieldCount(block: BlockInfo, host: ByteOrder)
    ensures |BlockFields(block, host)| == 5
  {
  }

  // ---------------------------------------------------------------- parsing

  /** Takes the field that a lookup returned to the front; other names are found as before. */
  lemma {:induction false} FoundFirst(order: seq<Field>, key: seq<Byte>, found: Option<Field>)
    returns (next: seq<Field>)
    requires found.Some? ==> found.value in multiset(order) && found.value.name == key
    requires found.None? ==> forall f :: f in multiset(order) ==> f.name != key
    ensures multiset(next) == multiset(order) && FindField(next, key) == found
    ensures forall other: seq<Byte> :: other != key ==> FindField(next, other) == FindField(order, other)
  {
    match found
    case None =>
      next := order;
      forall k | 0 <= k < |order| ensures order[k].name != key {
        assert order[k] in multiset(order);
      }
      FindsNothing(order, key);
    case Some(f) =>
      var j :| 0 <= j < |order| && order[j] == f;
      next := [f] + (order[..j] + order[j + 1..]);
      assert order == order[..j] + ([f] + order[j + 1..]);
      assert next[1..] == order[..j] + order[j + 1..];
      forall other: seq<Byte> | other != key ensures FindField(next, other) == FindField(order, other) {
        SkipsOtherName(order[..j], f, order[j + 1..], other);
      }
  }

  lemma {:induction false} SkipsOtherName(front: seq<Field>, f: Field, back: seq<Field>, key: seq<Byte>)
    requires f.name != key
    ensures FindField(front + ([f] + back), key) == FindField(front + back, key)
  {
    if front == [] {
      assert front + ([f] + back) == [f] + back && ([f] + back)[1..] == back && front + back == back;
    } else {
      SkipsOtherName(front[1..], f, back, key);
      assert (front + ([f] + back))[1..] == front[1..] + ([f] + back);
      assert (front + back)[1..] == front[1..] + back;
    }
  }

  /** With distinct names it does not matter in which order the fields are. */
  lemma {:induction false} OrderIsImmaterial(fields: seq<Field>, order: seq<Field>, key: seq<Byte>)
    requires DistinctNames(fields) && multiset(order) == multiset(fields)
    ensures FindField(order, key) == FindField(fields, key)
  {
    FindsSome(order, key);
    LookupAgrees(fields, key, FindField(order, key));
  }

  lemma {:induction false} FindsSome(order: seq<Field>, key: seq<Byte>)
    ensures var found := FindField(order, key);
            && (found.Some? ==> found.value in multiset(order) && found.value.name == key)
            && (found.None? ==> forall f :: f in multiset(order) ==> f.name != key)
  {
    if order != [] {
      FindsSome(order[1..], key);
      assert order == [order[0]] + order[1..];
    }
  }

  lemma ReadsAlike(fields: seq<Field>, order: seq<Field>, host: ByteOrder)
    requires DistinctNames(fields) && multiset(order) == multiset(fields)
    ensures ReadBlock(order, host) == ReadBlock(fields, host)
    ensures ReadBlockResponse(order, host) == ReadBlockResponse(fields, host)
  {
    hide DistinctNames, ToInt64, ToBytes, FindField, Text;
    OrderIsImmaterial(fields, order, Text("block_id"));
    OrderIsImmaterial(fields, order, Text("file_id"));
    OrderIsImmaterial(fields, order, Text("task_id"));
    OrderIsImmaterial(fields, order, Text("offset"));
    OrderIsImmaterial(fields, order, Text("block_size"));
    OrderIsImmaterial(fields, order, Text("data"));
  }

  /** A lookup, with an order of the parsed fields in which it returns the first field of its name. */
  method GetField(codec: SerializeCodec, name: string, ghost order: seq<Field>)
    returns (field: Option<Field>, ghost next: seq<Field>)
    requires codec.parsedMap == multiset(order)
    ensures multiset(next) == codec.parsedMap && field == FindField(next, Text(name))
    ensures forall key: seq<Byte> :: key != Text(name) ==> FindField(next, key) == FindField(order, key)
  {
    field := codec.GetParsedField(Text(name));
    next := FoundFirst(order, Text(name), field);
  }

  method GetInt64(codec: SerializeCodec, name: string, ghost order: seq<Field>)
    returns (value: Option<Int64>, ghost next: seq<Field>)
    requires codec.parsedMap == multiset(order)
    ensures multiset(next) == codec.parsedMap && value == RequiredInt64(next, name, codec.host)
    ensures forall key: seq<Byte> :: key != Text(name) ==> FindField(next, key) == FindField(order, key)
  {
    var field: Option<Field>;
    field, next := GetField(codec, name, order);
    value := match field { case None => None case Some(f) => ToInt64(f, codec.host) };
  }

  /** try_parse_byte_array_block_request, and the first part of try_parse_byte_array_block_response. */
  method ParseBlock(codec: SerializeCodec, ghost fields: seq<Field>)
    returns (block: Option<BlockInfo>, ghost order: seq<Field>)
    requires codec.parsedMap == multiset(fields)
    ensures multiset(order) == codec.parsedMap && block == ReadBlock(order, codec.host)
  {
    hide ToInt64, Text, FindField;
    BlockNamesDiffer();
    var blockId, fileId, taskId, offset, blockSize: Option<Int64>;
    blockId, order := GetInt64(codec, "block_id", fields);
    if blockId.None? {
      return None, order;
    }
    fileId, order := GetInt64(codec, "file_id", order);
    if fileId.None? {
      return None, order;
    }
    taskId, order := GetInt64(codec, "task_id", order);
    offset, order := GetInt64(codec, "offset", order);
    if offset.None? {
      return None, order;
    }
    blockSize, order := GetInt64(codec, "block_size", order);
    if blockSize.None? {
      return None, order;
    }
    return Some(BlockInfo(blockId.value, fileId.value, if taskId.Some? then taskId.value else -1,
                          offset.value, blockSize.value)), order;
  }

  lemma {:induction false} SameBlock(a: seq<Field>, b: seq<Field>, host: ByteOrder)
    requires forall key: seq<Byte> :: key != Text("data") ==> FindField(a, key) == FindField(b, key)
    ensures ReadBlock(a, host) == ReadBlock(b, host)
  {
    hide ToInt64, Text, FindField;
    BlockNamesDiffer();
  }

  method ParseBlockResponse(codec: SerializeCodec, ghost fields: seq<Field>)
    returns (response: Option<BlockResponse>, ghost order: seq<Field>)
    requires codec.parsedMap == multiset(fields)
    ensures multiset(order) == codec.parsedMap && response == ReadBlockResponse(order, codec.host)
  {
    hide ToBytes, Text, ReadBlock, FindField;
    var block: Option<BlockInfo>, field: Option<Field>;
    block, order := ParseBlock(codec, fields);
    if block.None? {
      return None, order;
    }
    ghost var was := order;
    field, order := GetField(codec, "data", order);
    SameBlock(was, order, codec.host);
    if field.None? {
      return None, order;
    }
    return Some(BlockResponse(block.value, ToBytes(field.value))), order;
  }

  /** Of several fields of one name any may be read: the result is what some order of the fields gives, and
      with distinct names they all give the same. */
  method TryParseByteArrayBlockRequest(data: seq<Byte>, host: ByteOrder) returns (block: Option<BlockInfo>)
    requires StaysInRange(data)
    ensures exists order :: multiset(order) == multiset(Parsed(data)) && block == ReadBlock(order, host)
    ensures DistinctNames(Parsed(data)) ==> block == ReadBlock(Parsed(data), host)
  {
    hide Parsed, StaysInRange, ReadBlock, ReadBlockResponse;
    var codec := new SerializeCodec(host);
    codec.Deserialize(data);
    ghost var order;
    block, order := ParseBlock(codec, Parsed(data));
    if DistinctNames(Parsed(data)) {
      ReadsAlike(Parsed(data), order, host);
    }
  }

  method TryParseByteArrayBlockResponse(data: seq<Byte>, host: ByteOrder) returns (response: Option<BlockResponse>)
    requires StaysInRange(data)
    ensures exists order :: multiset(order) == multiset(Parsed(data)) && response == ReadBlockResponse(order, host)
    ensures DistinctNames(Parsed(data)) ==> response == ReadBlockResponse(Parsed(data), host)
  {
    hide Parsed, StaysInRange, ToBytes, Text;
    var codec := new SerializeCodec(host);
    codec.Deserialize(data);
    ghost var order;
    response, order := ParseBlockResponse(codec, Parsed(data));
    if DistinctNames(Parsed(data)) {
      ReadsAlike(Parsed(data), order, host);
    }
  }
}
