/** One field of a message (serialize_field.cpp): name, type, flag, optional length, value. */
module Fields {
  import opened Options
  import opened Bytes

  // DataType, by its wire code
  const UINT8: Byte := 1
  const INT8: Byte := 2
  const UINT16: Byte := 3
  const INT16: Byte := 4
  const UINT32: Byte := 5
  const INT32: Byte := 6
  const UINT64: Byte := 7
  const INT64: Byte := 8
  const FLOAT: Byte := 9
  const DOUBLE: Byte := 10
  const BOOL: Byte := 11
  const STRING: Byte := 12
  const BYTE_ARRAY: Byte := 13
  const MAP: Byte := 14
  const ARRAY: Byte := 15
  const DICTIONARY: Byte := 16

  const NO_FLAG: Byte := 0
  const HAS_VALUE_LENGTH: Byte := 1

  /** get_data_type_length: zero for everything without a fixed width, Bool included. */
  function TypeLength(dataType: Byte): nat {
    if dataType == UINT8 || dataType == INT8 then 1
    else if dataType == UINT16 || dataType == INT16 then 2
    else if dataType == UINT32 || dataType == INT32 || dataType == FLOAT then 4
    else if dataType == UINT64 || dataType == INT64 || dataType == DOUBLE then 8
    else 0
  }

  predicate HasValueLength(flag: Byte) {
    flag % 2 == 1
  }

  /** The types whose value is copied as it stands; the others go through byte order conversion. */
  predicate IsRaw(dataType: Byte) {
    dataType in {STRING, BYTE_ARRAY, DICTIONARY, ARRAY, MAP}
  }

  datatype Field = Field(
    nameLength: nat,
    name: seq<Byte>,
    dataType: Byte,
    flag: Byte,
    valueLength: nat,
    value: seq<Byte>)
  {
    /** The stored lengths are the lengths of the stored sequences, and fit their integer types. */
    predicate SizesAgree() {
      nameLength == |name| < 0x1_0000 && valueLength == |value| < TWO_32
    }

    /** The reader can tell where the value ends. */
    predicate LengthIsKnown() {
      HasValueLength(flag) || valueLength == TypeLength(dataType)
    }
  }

  function SerializedSize(f: Field): nat {
    2 + |f.name| + 1 + 1 + |f.value| + if HasValueLength(f.flag) then 4 else 0
  }

  function EncodeField(f: Field): (s: seq<Byte>)
    ensures |s| == SerializedSize(f)
  {
    NetworkBytes(f.nameLength, 2) + f.name + [f.dataType] + [f.flag]
    + (if HasValueLength(f.flag) then NetworkBytes(f.valueLength, 4) else [])
    + f.value
  }

  /** Reads one field off the front and says how many bytes it took; None when they run out. */
  function DecodeField(s: seq<Byte>): (r: Option<(Field, nat)>)
    ensures r.Some? ==> 0 < r.value.1 <= |s|
  {
    if |s| < 2 then None
    else
      var nameLength := FromNetworkBytes(s[..2]);
      var at := 2 + nameLength;
      if |s| < at + 2 then None
      else
        var flag := s[at + 1];
        if HasValueLength(flag) then
          if |s| < at + 6 then None
          else
            DecodeValue(s, nameLength, at + 6, FromNetworkBytes(s[at + 2..at + 6]))
        else
          DecodeValue(s, nameLength, at + 2, TypeLength(s[at]))
  }

  function DecodeValue(s: seq<Byte>, nameLength: nat, start: nat, valueLength: nat): (r: Option<(Field, nat)>)
    requires nameLength + 4 <= start <= |s|
    ensures r.Some? ==> 0 < r.value.1 <= |s|
  {
    if |s| < start + valueLength then None
    else
      Some((Field(nameLength, s[2..2 + nameLength], s[2 + nameLength], s[3 + nameLength],
                  valueLength, s[start..start + valueLength]),
            start + valueLength))
  }

  /** Byte order conversion of a scalar value works on single bytes, so it changes nothing: scalars
      travel in the byte order of the sender. */
  lemma {:induction false} BytewiseConversionIsIdentity(s: seq<Byte>, host: ByteOrder)
    ensures Converted(s, 1, |s|, host) == s
    decreases |s|
  {
    if s != [] {
      var n := |s| - 1;
      BytewiseConversionIsIdentity(s[..n], host);
      assert s[n..] == [s[n]];
      assert s == s[..n] + s[n..];
    }
  }

  /** Writes bytes at an index, after what has been written so far, and moves the index on. */
  method Put(data: array<Byte>, index: nat, bytes: seq<Byte>, ghost done: seq<Byte>)
    returns (next: nat, ghost written: seq<Byte>)
    requires index + |bytes| <= data.Length && data[..index] == done
    modifies data
    ensures next == index + |bytes| && written == done + bytes && data[..next] == written
  {
    for k := 0 to |bytes|
      invariant data[..index] == done
      invariant data[index..index + k] == bytes[..k]
    {
      data[index + k] := bytes[k];
      assert data[index..index + k + 1] == data[index..index + k] + [bytes[k]];
    }
    next, written := index + |bytes|, done + bytes;
    assert data[..next] == data[..index] + data[index..next];
  }

  /** The value: raw types are copied, scalars pass through byte order conversion. */
  method PutValue(data: array<Byte>, index: nat, f: Field, host: ByteOrder, ghost done: seq<Byte>)
    requires index + |f.value| == data.Length && data[..index] == done && f.valueLength == |f.value|
    modifies data
    ensures data[..] == done + f.value
  {
    if IsRaw(f.dataType) {
      var next, _ := Put(data, index, f.value, done);
      assert data[..] == data[..next];
    } else {
      BytewiseConversionIsIdentity(f.value, host);
      ConvertByteOrder(data, index, f.value, 1, f.valueLength, host);
    }
  }

  /** What comes before the value. */
  function FieldHead(f: Field): seq<Byte> {
    NetworkBytes(f.nameLength, 2) + f.name + [f.dataType] + [f.flag]
    + (if HasValueLength(f.flag) then NetworkBytes(f.valueLength, 4) else [])
  }

  method PutHead(data: array<Byte>, f: Field) returns (index: nat)
    requires |FieldHead(f)| <= data.Length
    modifies data
    ensures index == |FieldHead(f)| && data[..index] == FieldHead(f)
  {
    hide NetworkBytes;
    ghost var done;
    index, done := Put(data, 0, NetworkBytes(f.nameLength, 2), []);
    assert done == NetworkBytes(f.nameLength, 2);
    index, done := Put(data, index, f.name, done);
    index, done := Put(data, index, [f.dataType], done);
    index, done := Put(data, index, [f.flag], done);
    assert done == NetworkBytes(f.nameLength, 2) + f.name + [f.dataType] + [f.flag];
    if HasValueLength(f.flag) {
      index, done := Put(data, index, NetworkBytes(f.valueLength, 4), done);
    } else {
      assert done + [] == done;
    }
    assert done == FieldHead(f);
  }

  /** Writes the field part by part into a fresh buffer. */
  method ToSerializedByteArray(f: Field, host: ByteOrder) returns (data: array<Byte>)
    requires f.SizesAgree()
    ensures fresh(data) && data[..] == EncodeField(f)
  {
    assert EncodeField(f) == FieldHead(f) + f.value;
    data := new Byte[SerializedSize(f)](_ => 0);
    var index := PutHead(data, f);
    PutValue(data, index, f, host, FieldHead(f));
  }

  /** Reads a field with a bounds check before every part; the whole sequence need not be used up. */
  method FromSerializedByteArray(data: seq<Byte>) returns (field: Option<Field>)
    ensures field == match DecodeField(data) { case Some(r) => Some(r.0) case None => None }
  {
    if |data| < 4 {
      return None;
    }
    var index := 0;
    var need := 2;
    if |data| < need {
      return None;
    }
    var nameLength := FromNetworkBytes(data[index..index + 2]);
    index := index + 2;
    need := need + nameLength;
    if |data| < need {
      return None;
    }
    var name := data[index..index + nameLength];
    index := index + nameLength;
    need := need + 1;
    if |data| < need {
      return None;
    }
    var dataType := data[index];
    index := index + 1;
    need := need + 1;
    if |data| < need {
      return None;
    }
    var flag := data[index];
    index := index + 1;
    var valueLength := TypeLength(dataType);
    if HasValueLength(flag) {
      need := need + 4;
      if |data| < need {
        return None;
      }
      valueLength := FromNetworkBytes(data[index..index + 4]);
      index := index + 4;
    }
    need := need + valueLength;
    if |data| < need {
      return None;
    }
    return Some(Field(nameLength, name, dataType, flag, valueLength, data[index..index + valueLength]));
  }

  lemma FieldSlices(a: seq<Byte>, name: seq<Byte>, dataType: Byte, flag: Byte, b: seq<Byte>, value: seq<Byte>,
                    rest: seq<Byte>)
    requires |a| == 2
    ensures var s := a + name + [dataType] + [flag] + b + value + rest;
            var at := 2 + |name|;
            && s[..2] == a && s[2..at] == name && s[at] == dataType && s[at + 1] == flag
            && s[at + 2..at + 2 + |b|] == b && s[at + 2 + |b|..at + 2 + |b| + |value|] == value
            && s[at + 2 + |b| + |value|..] == rest
  {
  }

  /** A written field is read back, whatever follows, if and only if the reader can tell its length:
      a field without length information must have the width of its type. */
  lemma FieldRoundTripIff(f: Field, rest: seq<Byte>)
    requires f.SizesAgree()
    ensures DecodeField(EncodeField(f) + rest) == Some((f, SerializedSize(f))) <==> f.LengthIsKnown()
    ensures (EncodeField(f) + rest)[SerializedSize(f)..] == rest
  {
    hide NetworkBytes, FromNetworkBytes, Pow256;
    Pow256Sizes();
    NetworkRoundTrip(f.nameLength, 2);
    NetworkRoundTrip(f.valueLength, 4);
    var b := if HasValueLength(f.flag) then NetworkBytes(f.valueLength, 4) else [];
    FieldSlices(NetworkBytes(f.nameLength, 2), f.name, f.dataType, f.flag, b, f.value, rest);
    assert EncodeField(f) + rest
        == NetworkBytes(f.nameLength, 2) + f.name + [f.dataType] + [f.flag] + b + f.value + rest;
  }
}
