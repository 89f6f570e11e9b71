/** The client's and the server's messages: an envelope whose body is itself a message
    (client_message_codec.cpp, server_message_codec.cpp). */
module Messages {
  import opened Options
  import opened Bytes
  import opened Fields
  import opened ArrayValues

  const TWO_63: int := 0x8000_0000_0000_0000
  const TWO_64: int := 0x1_0000_0000_0000_0000

  type Int64 = x: int | -TWO_63 <= x < TWO_63
  type UInt64 = x: int | 0 <= x < TWO_64

  function ToUnsigned(x: Int64): UInt64 {
    if x < 0 then x + TWO_64 else x
  }

  function ToSigned(x: UInt64): Int64 {
    if x >= TWO_63 then x - TWO_64 else x
  }

  // ---------------------------------------------------------------- what is sent

  datatype BlockInfo = BlockInfo(blockId: Int64, fileId: Int64, taskId: Int64, offset: Int64, blockSize: Int64)

  datatype Request =
    | BlockRequest(block: BlockInfo)
    | DownloadRequest(fileId: Int64, taskId: Int64)
    | TestRequest(message: seq<Byte>)

  datatype BlockResponse = BlockResponse(block: BlockInfo, data: seq<Byte>)

  datatype EnvelopeRequest = EnvelopeRequest(
    version: nat,
    requestId: UInt64,
    requestType: Byte,
    path: seq<Byte>,
    contentType: Byte,
    body: seq<Byte>)

  datatype EnvelopeResponse = EnvelopeResponse(
    version: nat,
    requestId: UInt64,
    status: nat,
    contentType: Byte,
    body: seq<Byte>)

  const CONTENT_DANEJOE: Byte := 1
  const STATUS_OK: nat := 200

  /** The bytes of a string of plain characters. */
  function Text(s: string): (r: seq<Byte>)
    ensures |r| == |s|
  {
    seq(|s|, i requires 0 <= i < |s| => s[i] as int % 256)
  }

  // ---------------------------------------------------------------- fields by name

  function FindField(fields: seq<Field>, key: seq<Byte>): Option<Field> {
    if fields == [] then None
    else if fields[0].name == key then Some(fields[0])
    else FindField(fields[1..], key)
  }

  ghost predicate DistinctNames(fields: seq<Field>) {
    forall i, j :: 0 <= i < j < |fields| ==> fields[i].name != fields[j].name
  }

  lemma {:induction false} FindsMember(fields: seq<Field>, k: nat)
    requires DistinctNames(fields) && k < |fields|
    ensures FindField(fields, fields[k].name) == Some(fields[k])
  {
    if k > 0 {
      FindsMember(fields[1..], k - 1);
    }
  }

  lemma {:induction false} FindsNothing(fields: seq<Field>, key: seq<Byte>)
    requires forall k :: 0 <= k < |fields| ==> fields[k].name != key
    ensures FindField(fields, key) == None
  {
    if fields != [] {
      FindsNothing(fields[1..], key);
    }
  }

  /** Looking a name up in the unordered map finds the same field when names are distinct. */
  lemma {:induction false} LookupAgrees(fields: seq<Field>, key: seq<Byte>, found: Option<Field>)
    requires DistinctNames(fields)
    requires found.Some? ==> found.value in multiset(fields) && found.value.name == key
    requires found.None? ==> forall f :: f in multiset(fields) ==> f.name != key
    ensures found == FindField(fields, key)
  {
    match found
    case Some(f) =>
      var k :| 0 <= k < |fields| && fields[k] == f;
      FindsMember(fields, k);
    case None =>
      forall k | 0 <= k < |fields| ensures fields[k].name != key {
        assert fields[k] in multiset(fields);
      }
      FindsNothing(fields, key);
  }

  function UnsignedField(name: string, dataType: Byte, value: nat, width: nat, host: ByteOrder): Field {
    MakeField(Text(name), dataType, NO_FLAG, ObjectBytes(value, width, host))
  }

  function Int64Field(name: string, value: Int64, host: ByteOrder): Field {
    UnsignedField(name, INT64, ToUnsigned(value), 8, host)
  }

  function StringField(name: string, value: seq<Byte>): Field {
    MakeField(Text(name), STRING, HAS_VALUE_LENGTH, value)
  }

  function BytesField(name: string, data: seq<Byte>, host: ByteOrder): Option<Field> {
    VectorField(data, UINT8, 1, Text(name), host)
  }

  /** to_value<T>: the type must match and the value must be wide enough. */
  function ToValue(field: Field, dataType: Byte, width: nat, host: ByteOrder): Option<nat> {
    if field.dataType != dataType || |field.value| < width then None
    else Some(FromObjectBytes(field.value[..width], host))
  }

  function ToInt64(field: Field, host: ByteOrder): Option<Int64> {
    match ToValue(field, INT64, 8, host)
    case Some(v) =>
      assert v < TWO_64 by { EightBytesFit(field.value[..8], host); }
      Some(ToSigned(v))
    case None => None
  }

  lemma EightBytesFit(s: seq<Byte>, host: ByteOrder)
    requires |s| == 8
    ensures FromObjectBytes(s, host) < TWO_64
  {
    Pow256Sizes();
    NetworkBytesDetermined(if host == BigEndian then s else Reversed(s));
  }

  lemma {:induction false} OneByte(x: Byte)
    ensures NetworkBytes(x, 1) == [x]
  {
    assert NetworkBytes(x / 256, 0) == [];
  }

  lemma {:induction false} SingleByteElements(s: seq<Byte>)
    ensures EncodeElements(s, 1) == s
  {
    if s != [] {
      hide NetworkBytes;
      var n := |s| - 1;
      assert EncodeElements(s, 1) == EncodeElements(s[..n], 1) + NetworkBytes(s[n], 1);
      hide EncodeElements;
      SingleByteElements(s[..n]);
      OneByte(s[n]);
      assert s == s[..n] + [s[n]];
    }
  }

  lemma {:induction false} SingleByteDecoding(s: seq<Byte>)
    ensures DecodeElements(s, 1, |s|) == s
  {
    if s != [] {
      var n := |s| - 1;
      SingleByteDecoding(s[..n]);
      assert s[n..] == [s[n]] && [s[n]][..0] == [];
      assert FromNetworkBytes(s[n..]) == s[n];
    }
  }

  lemma ElementsAreBytes(field: Field)
    ensures forall k | 0 <= k < |ToArray(field, UINT8, 1)| :: ToArray(field, UINT8, 1)[k] < 256
  {
    hide DecodeArray;
    var a := DecodeArray(field.value);
    if a.Some? && a.value.elementCount <= |a.value.elementValue| {
      SingleByteDecoding(a.value.elementValue[..a.value.elementCount]);
    }
  }

  /** to_array<uint8_t>. */
  function ToBytes(field: Field): seq<Byte> {
    ElementsAreBytes(field);
    ToArray(field, UINT8, 1)
  }

  lemma Int64RoundTrip(name: string, value: Int64, host: ByteOrder)
    ensures ToInt64(Int64Field(name, value, host), host) == Some(value)
  {
    UnsignedRoundTrip(name, INT64, ToUnsigned(value), 8, host);
  }

  lemma UnsignedRoundTrip(name: string, dataType: Byte, value: nat, width: nat, host: ByteOrder)
    requires width in {1, 2, 8} && (width == 1 ==> value < 256) && (width == 2 ==> value < 0x1_0000)
    requires width == 8 ==> value < TWO_64
    ensures ToValue(UnsignedField(name, dataType, value, width, host), dataType, width, host) == Some(value)
  {
    hide ObjectBytes, FromObjectBytes;
    Pow256Sizes();
    ObjectRoundTrip(value, width, host);
    assert ObjectBytes(value, width, host)[..width] == ObjectBytes(value, width, host);
  }

  lemma NoArrayReadsEmpty(field: Field)
    requires DecodeArray(field.value) == None
    ensures ToBytes(field) == []
  {
    hide DecodeArray;
  }

  /** The bytes written for an unsigned member are its network bytes if and only if the sender is big-endian
      or they read the same backwards. */
  lemma {:induction false} SentInNetworkOrderIff(name: string, dataType: Byte, value: nat, width: nat,
                                                 sender: ByteOrder)
    ensures var sent := UnsignedField(name, dataType, value, width, sender).value;
            Converted(sent, 1, |sent|, sender) == NetworkBytes(value, width)
            <==> sender == BigEndian || ReadsTheSameBackwards(value, width)
  {
    hide ObjectBytes, ReadsTheSameBackwards;
    BytewiseConversionIsIdentity(ObjectBytes(value, width, sender), sender);
    ObjectBytesAreNetworkBytesIff(value, width, sender);
  }

  /** An unsigned member crosses to another host if and only if the hosts order bytes alike or its bytes
      read the same backwards. */
  lemma {:induction false} UnsignedCrossesIff(
      name: string, dataType: Byte, value: nat, width: nat, sender: ByteOrder, receiver: ByteOrder)
    requires value < Pow256(width)
    ensures ToValue(UnsignedField(name, dataType, value, width, sender), dataType, width, receiver) == Some(value)
            <==> sender == receiver || ReadsTheSameBackwards(value, width)
  {
    hide ObjectBytes, FromObjectBytes, ReadsTheSameBackwards;
    ObjectBytesCrossIff(value, width, sender, receiver);
    assert ObjectBytes(value, width, sender)[..width] == ObjectBytes(value, width, sender);
  }

  /** Bytes come back from their field if and only if there are at least two of them. */
  lemma BytesRoundTripIff(name: string, data: seq<Byte>, host: ByteOrder)
    requires 10 + |data| < TWO_32
    ensures |data| == 0 ==> BytesField(name, data, host) == None
    ensures |data| >= 1 ==>
              && BytesField(name, data, host).Some?
              && ToBytes(BytesField(name, data, host).value) == if |data| >= 2 then data else []
  {
    hide DecodeArray, ToArray;
    assert ElementsFit(data, 1) by {
      assert Pow256(1) == 256;
    }
    VectorRoundTripIff(data, UINT8, 1, Text(name), host);
    if |data| >= 1 {
      var f := BytesField(name, data, host).value;
      if |data| == 1 {
        ScalarIsNoArray(f.value);
        NoArrayReadsEmpty(f);
      }
    }
  }
}
