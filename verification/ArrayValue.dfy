/** Arrays as field values (serialize_array_value.cpp and .hpp). */
module ArrayValues {
  import opened Options
  import opened Bytes
  import opened Fields

  const NO_ARRAY_FLAG: Byte := 0
  const IS_ELEMENT_LENGTH_VARIABLE: Byte := 1

  datatype ArrayValue = ArrayValue(
    elementType: Byte,
    elementCount: nat,
    flag: Byte,
    elementValueLength: seq<nat>,
    elementValue: seq<Byte>)
  {
    /** Every member fits its integer type. */
    predicate Fits() {
      && elementCount < TWO_32
      && forall k | 0 <= k < |elementValueLength| :: elementValueLength[k] < TWO_32
    }

    /** The flag, the list of lengths, the count and the total agree with each other; the total as
        the code computes it, in 32 bits. */
    predicate LengthsAgree() {
      if IsVariable(flag) then
        |elementValueLength| == elementCount && |elementValue| == Sum(elementValueLength) % TWO_32
      else
        |elementValueLength| == 1 && |elementValue| == elementValueLength[0] * elementCount % TWO_32
    }
  }

  predicate IsVariable(flag: Byte) {
    flag % 2 == 1
  }

  function Sum(s: seq<nat>): nat {
    if s == [] then 0 else Sum(s[..|s| - 1]) + s[|s| - 1]
  }

  function EncodeLengths(s: seq<nat>): (r: seq<Byte>)
    ensures |r| == 4 * |s|
  {
    if s == [] then [] else EncodeLengths(s[..|s| - 1]) + NetworkBytes(s[|s| - 1], 4)
  }

  function DecodeLengths(s: seq<Byte>, count: nat): (r: seq<nat>)
    requires |s| == 4 * count
    ensures |r| == count
  {
    if count == 0 then [] else DecodeLengths(s[..|s| - 4], count - 1) + [FromNetworkBytes(s[|s| - 4..])]
  }

  /** The code decides between the two layouts by the number of lengths, not by the flag; a list of
      several lengths that does not match the count makes it return nothing. */
  function EncodeArray(a: ArrayValue): seq<Byte>
    requires a.elementValueLength != []
  {
    if |a.elementValueLength| > 1 && a.elementCount != |a.elementValueLength| then []
    else
      [a.elementType] + NetworkBytes(a.elementCount, 4) + [a.flag] + EncodeLengths(a.elementValueLength)
        + a.elementValue
  }

  /** Reads an array value off the front; the sizes it computes wrap around in 32 bits. */
  function DecodeArray(s: seq<Byte>): Option<ArrayValue> {
    if |s| < 10 then None
    else
      var count := FromNetworkBytes(s[1..5]);
      var flag := s[5];
      var n := if IsVariable(flag) then count else 1;
      if |s| < 6 + 4 * n then None
      else
        var lengths := DecodeLengths(s[6..6 + 4 * n], n);
        var size := (if IsVariable(flag) then Sum(lengths) else lengths[0] * count) % TWO_32;
        var start := 6 + 4 * n;
        if |s| < start + size then None
        else Some(ArrayValue(s[0], count, flag, lengths, s[start..start + size]))
  }

  lemma {:induction false} LengthsRoundTrip(s: seq<nat>)
    requires forall k :: 0 <= k < |s| ==> s[k] < TWO_32
    ensures DecodeLengths(EncodeLengths(s), |s|) == s
  {
    hide NetworkBytes, FromNetworkBytes, Pow256;
    if s != [] {
      var n := |s| - 1;
      var r := EncodeLengths(s);
      LengthsRoundTrip(s[..n]);
      Pow256Sizes();
      NetworkRoundTrip(s[n], 4);
      assert r[..|r| - 4] == EncodeLengths(s[..n]);
      assert r[|r| - 4..] == NetworkBytes(s[n], 4);
    }
  }

  lemma ArraySlices(t: Byte, count: seq<Byte>, flag: Byte, lengths: seq<Byte>, value: seq<Byte>)
    requires |count| == 4
    ensures var s := [t] + count + [flag] + lengths + value;
            && s[0] == t && s[1..5] == count && s[5] == flag && s[6..6 + |lengths|] == lengths
            && s[6 + |lengths|..6 + |lengths| + |value|] == value
  {
  }

  /** Decoding undoes encoding, for fixed and for variable element lengths, if and only if the lengths
      agree. */
  lemma ArrayRoundTripIff(a: ArrayValue)
    requires a.Fits() && a.elementValueLength != []
    ensures DecodeArray(EncodeArray(a)) == Some(a) <==> a.LengthsAgree()
  {
    hide NetworkBytes, FromNetworkBytes, Pow256, EncodeLengths, DecodeLengths, Sum;
    if |a.elementValueLength| == 1 || a.elementCount == |a.elementValueLength| {
      Pow256Sizes();
      NetworkRoundTrip(a.elementCount, 4);
      SumOfOne(a.elementValueLength);
      LengthsRoundTrip(a.elementValueLength);
      ArraySlices(a.elementType, NetworkBytes(a.elementCount, 4), a.flag, EncodeLengths(a.elementValueLength),
                  a.elementValue);
    }
  }

  lemma {:induction false} SumOfOne(s: seq<nat>)
    ensures |s| == 1 ==> Sum(s) == s[0]
  {
    assert |s| == 1 ==> s[..0] == [];
  }

  // ---------------------------------------------------------------- vectors as fields

  /** An element of a C++ integer type is given by its unsigned value, below 256^width. */
  ghost predicate ElementsFit(data: seq<nat>, width: nat) {
    forall k :: 0 <= k < |data| ==> data[k] < Pow256(width)
  }

  function EncodeElements(data: seq<nat>, width: nat): (s: seq<Byte>)
    ensures |s| == width * |data|
  {
    if data == [] then []
    else
      var n := |data| - 1;
      assert width * n + width == width * |data|;
      EncodeElements(data[..n], width) + NetworkBytes(data[n], width)
  }

  function DecodeElements(s: seq<Byte>, width: nat, count: nat): seq<nat>
    requires |s| == width * count
    decreases count
  {
    if count == 0 then []
    else
      var n := width * (count - 1);
      assert n + width == width * count;
      DecodeElements(s[..n], width, count - 1) + [FromNetworkBytes(s[n..])]
  }

  function ArrayOf(data: seq<nat>, elementType: Byte, width: nat): ArrayValue {
    ArrayValue(elementType, |data|, NO_ARRAY_FLAG, [width], EncodeElements(data, width))
  }

  function MakeField(name: seq<Byte>, dataType: Byte, flag: Byte, value: seq<Byte>): Field {
    Field(|name|, name, dataType, flag, |value|, value)
  }

  /** serialize(data, size, name): nothing for an empty vector, a plain scalar for one element, an
      array field from two elements on. */
  function VectorField(data: seq<nat>, elementType: Byte, width: nat, name: seq<Byte>, host: ByteOrder): Option<Field> {
    if data == [] then None
    else if |data| == 1 then Some(MakeField(name, elementType, NO_FLAG, ObjectBytes(data[0], width, host)))
    else Some(MakeField(name, ARRAY, HAS_VALUE_LENGTH, EncodeArray(ArrayOf(data, elementType, width))))
  }

  /** to_array<T> for a T of the given type and width; an empty vector on any failure. (The code does
      not compare the width with the bytes present: with too few it reads out of range, and the model
      gives up instead.) */
  function ToArray(field: Field, elementType: Byte, width: nat): seq<nat> {
    match DecodeArray(field.value)
    case None => []
    case Some(a) =>
      if a.elementType != elementType || IsVariable(a.flag) then []
      else ReadElements(a.elementValue, width, a.elementCount)
  }

  function ReadElements(bytes: seq<Byte>, width: nat, count: nat): seq<nat> {
    if |bytes| < width * count then [] else DecodeElements(bytes[..width * count], width, count)
  }

  lemma {:induction false} ElementsRoundTrip(data: seq<nat>, width: nat)
    requires ElementsFit(data, width)
    ensures DecodeElements(EncodeElements(data, width), width, |data|) == data
  {
    hide NetworkBytes, FromNetworkBytes, Pow256;
    if data != [] {
      var n := |data| - 1;
      var s := EncodeElements(data, width);
      assert width * n + width == width * |data|;
      ElementsRoundTrip(data[..n], width);
      NetworkRoundTrip(data[n], width);
      assert s[..width * n] == EncodeElements(data[..n], width);
      assert s[width * n..] == NetworkBytes(data[n], width);
    }
  }

  /** A vector comes back from its field if and only if it has at least two elements: an empty one has
      no field, and a single element, written as a scalar, is read as an empty vector. */
  lemma VectorRoundTripIff(data: seq<nat>, elementType: Byte, width: nat, name: seq<Byte>, host: ByteOrder)
    requires 0 < width <= 8 && ElementsFit(data, width)
    requires 10 + width * |data| < TWO_32
    ensures (match VectorField(data, elementType, width, name, host)
             case Some(f) => ToArray(f, elementType, width) == data
             case None => false)
            <==> |data| >= 2
  {
    hide EncodeElements, DecodeElements, EncodeArray, DecodeArray;
    if |data| >= 2 {
      var a := ArrayOf(data, elementType, width);
      VectorArrayDecodes(data, elementType, width);
      ElementsRoundTrip(data, width);
      assert a.elementValue[..width * a.elementCount] == a.elementValue;
    } else if |data| == 1 {
      ScalarIsNoArray(ObjectBytes(data[0], width, host));
    }
  }

  lemma VectorArrayDecodes(data: seq<nat>, elementType: Byte, width: nat)
    requires 0 < width <= 8 && 10 + width * |data| < TWO_32
    ensures DecodeArray(EncodeArray(ArrayOf(data, elementType, width))) == Some(ArrayOf(data, elementType, width))
  {
    hide EncodeElements, EncodeArray, DecodeArray;
    assert width * |data| >= |data|;
    ArrayRoundTripIff(ArrayOf(data, elementType, width));
  }

  lemma ScalarIsNoArray(value: seq<Byte>)
    requires |value| <= 8
    ensures DecodeArray(value) == None
  {
  }

  lemma {:induction false} EncodeNext(data: seq<nat>, width: nat, i: nat)
    requires i < |data|
    ensures EncodeElements(data[..i + 1], width) == EncodeElements(data[..i], width) + NetworkBytes(data[i], width)
  {
    hide NetworkBytes;
    assert data[..i + 1][..i] == data[..i];
  }

  /** The loop of serialize: fills the array value element by element. */
  method FillArray(data: seq<nat>, elementType: Byte, width: nat, host: ByteOrder) returns (a: ArrayValue)
    requires width > 0
    ensures a == ArrayOf(data, elementType, width)
  {
    var bytes := new Byte[width * |data|](_ => 0);
    var index := 0;
    ghost var done: seq<Byte> := [];
    for i := 0 to |data|
      invariant index == width * i <= bytes.Length
      invariant done == EncodeElements(data[..i], width) && bytes[..index] == done
    {
      hide EncodeElements, NetworkBytes, ObjectBytes, ConvertElement;
      NextElement(width, i, |data|);
      ConvertOne(bytes, index, ObjectBytes(data[i], width, host), host);
      ConvertElementIsNetworkOrder(data[i], width, host);
      EncodeNext(data, width, i);
      done := done + NetworkBytes(data[i], width);
      index := index + width;
      assert bytes[..index] == done;
    }
    assert data[..|data|] == data;
    assert bytes[..] == bytes[..index];
    a := ArrayValue(elementType, |data|, NO_ARRAY_FLAG, [width], bytes[..]);
  }

  /** The loop of to_array: reads the elements back one by one. */
  method ReadArray(field: Field, elementType: Byte, width: nat) returns (result: seq<nat>)
    requires width > 0
    ensures result == ToArray(field, elementType, width)
  {
    var decoded := DecodeArray(field.value);
    if decoded.None? {
      return [];
    }
    var a := decoded.value;
    if a.elementType != elementType || IsVariable(a.flag) || |a.elementValue| < width * a.elementCount {
      return [];
    }
    ghost var all := a.elementValue[..width * a.elementCount];
    result := [];
    var index := 0;
    for i := 0 to a.elementCount
      invariant index == width * i <= |all|
      invariant result == DecodeElements(all[..index], width, i)
    {
      NextElement(width, i, a.elementCount);
      result := result + [FromNetworkBytes(a.elementValue[index..index + width])];
      assert all[..index + width][..index] == all[..index];
      assert all[..index + width][index..] == a.elementValue[index..index + width];
      index := index + width;
    }
    assert all[..|all|] == all;
  }
}
