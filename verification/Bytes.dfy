/** Bytes and byte order (byte_order.hpp). */
module Bytes {
  type Byte = x: int | 0 <= x < 256

  const TWO_32: nat := 0x1_0000_0000

  datatype ByteOrder = LittleEndian | BigEndian

  function Pow256(n: nat): (p: nat)
    ensures p > 0
  {
    if n == 0 then 1 else 256 * Pow256(n - 1)
  }

  lemma Pow256Sizes()
    ensures Pow256(1) == 0x100 && Pow256(2) == 0x1_0000 && Pow256(4) == TWO_32
    ensures Pow256(8) == 0x1_0000_0000_0000_0000
  {
    assert Pow256(1) == 256 && Pow256(2) == 0x1_0000 && Pow256(3) == 0x100_0000;
    assert Pow256(4) == TWO_32 && Pow256(5) == 0x100_0000_0000 && Pow256(6) == 0x1_0000_0000_0000;
    assert Pow256(7) == 0x100_0000_0000_0000;
  }

  /** The width low-order bytes of a value, most significant first: the network order. */
  function NetworkBytes(value: nat, width: nat): (s: seq<Byte>)
    ensures |s| == width
    decreases width
  {
    if width == 0 then [] else NetworkBytes(value / 256, width - 1) + [value % 256]
  }

  function FromNetworkBytes(s: seq<Byte>): nat {
    if s == [] then 0 else 256 * FromNetworkBytes(s[..|s| - 1]) + s[|s| - 1]
  }

  function LittleEndianBytes(value: nat, width: nat): (s: seq<Byte>)
    ensures |s| == width
    decreases width
  {
    if width == 0 then [] else [value % 256] + LittleEndianBytes(value / 256, width - 1)
  }

  /** The object representation of an unsigned value in memory. */
  function ObjectBytes(value: nat, width: nat, host: ByteOrder): (s: seq<Byte>)
    ensures |s| == width
  {
    if host == BigEndian then NetworkBytes(value, width) else LittleEndianBytes(value, width)
  }

  function Reversed(s: seq<Byte>): (r: seq<Byte>)
    ensures |r| == |s|
    ensures forall k :: 0 <= k < |s| ==> r[k] == s[|s| - 1 - k]
  {
    seq(|s|, k requires 0 <= k < |s| => s[|s| - 1 - k])
  }

  function FromObjectBytes(s: seq<Byte>, host: ByteOrder): nat {
    FromNetworkBytes(if host == BigEndian then s else Reversed(s))
  }

  lemma {:induction false} NetworkRoundTrip(value: nat, width: nat)
    ensures value < Pow256(width) ==> FromNetworkBytes(NetworkBytes(value, width)) == value
    decreases width
  {
    if width > 0 {
      NetworkRoundTrip(value / 256, width - 1);
      var s := NetworkBytes(value, width);
      assert s[..width - 1] == NetworkBytes(value / 256, width - 1);
    }
  }

  lemma {:induction false} NetworkBytesDetermined(s: seq<Byte>)
    ensures FromNetworkBytes(s) < Pow256(|s|)
    ensures NetworkBytes(FromNetworkBytes(s), |s|) == s
  {
    if s != [] {
      var n := |s| - 1;
      NetworkBytesDetermined(s[..n]);
      assert FromNetworkBytes(s) / 256 == FromNetworkBytes(s[..n]);
      assert FromNetworkBytes(s) % 256 == s[n];
      assert s == s[..n] + [s[n]];
    }
  }

  lemma {:induction false} ReversedLittleEndian(value: nat, width: nat)
    ensures Reversed(LittleEndianBytes(value, width)) == NetworkBytes(value, width)
    decreases width
  {
    if width > 0 {
      ReversedLittleEndian(value / 256, width - 1);
      var tail := LittleEndianBytes(value / 256, width - 1);
      assert LittleEndianBytes(value, width) == [value % 256] + tail;
      assert Reversed([value % 256] + tail) == Reversed(tail) + [value % 256];
    }
  }

  lemma {:induction false} ObjectRoundTrip(value: nat, width: nat, host: ByteOrder)
    requires value < Pow256(width)
    ensures FromObjectBytes(ObjectBytes(value, width, host), host) == value
  {
    ReversedLittleEndian(value, width);
    NetworkRoundTrip(value, width);
  }

  /** The bytes of the value read the same in both directions. */
  predicate ReadsTheSameBackwards(value: nat, width: nat) {
    Reversed(NetworkBytes(value, width)) == NetworkBytes(value, width)
  }

  lemma {:induction false} LittleEndianIsReversed(value: nat, width: nat)
    ensures LittleEndianBytes(value, width) == Reversed(NetworkBytes(value, width))
  {
    hide NetworkBytes, LittleEndianBytes;
    ReversedLittleEndian(value, width);
    assert Reversed(Reversed(LittleEndianBytes(value, width))) == LittleEndianBytes(value, width);
  }

  /** Bytes copied out of memory are in network order if and only if the host is big-endian or the bytes
      read the same backwards. */
  lemma {:induction false} ObjectBytesAreNetworkBytesIff(value: nat, width: nat, host: ByteOrder)
    ensures ObjectBytes(value, width, host) == NetworkBytes(value, width)
            <==> host == BigEndian || ReadsTheSameBackwards(value, width)
  {
    LittleEndianIsReversed(value, width);
  }

  /** A value that is copied bytewise from one host to another comes out the same if and only if the hosts
      order bytes alike or the bytes read the same backwards. */
  lemma {:induction false} ObjectBytesCrossIff(value: nat, width: nat, sender: ByteOrder, receiver: ByteOrder)
    requires value < Pow256(width)
    ensures FromObjectBytes(ObjectBytes(value, width, sender), receiver) == value
            <==> sender == receiver || ReadsTheSameBackwards(value, width)
  {
    if sender == receiver {
      ObjectRoundTrip(value, width, sender);
    } else {
      LittleEndianIsReversed(value, width);
      var turned := Reversed(NetworkBytes(value, width));
      NetworkBytesDetermined(turned);
      NetworkRoundTrip(value, width);
    }
  }

  // ---------------------------------------------------------------- convert_byte_order

  /** One element converted between host and network order, in either direction. */
  function ConvertElement(s: seq<Byte>, host: ByteOrder): (r: seq<Byte>)
    ensures |r| == |s|
  {
    if host == BigEndian then s else Reversed(s)
  }

  /** count elements of width bytes each, converted one by one. */
  function Converted(src: seq<Byte>, width: nat, count: nat, host: ByteOrder): (r: seq<Byte>)
    requires |src| == width * count
    ensures |r| == |src|
    decreases count
  {
    if count == 0 then []
    else
      var n := width * (count - 1);
      assert n + width == width * count;
      Converted(src[..n], width, count - 1, host) + ConvertElement(src[n..], host)
  }

  /** Replaces the bytes of dest from position at on. */
  function Overwrite(dest: seq<Byte>, at: nat, data: seq<Byte>): (r: seq<Byte>)
    requires at + |data| <= |dest|
    ensures |r| == |dest|
  {
    dest[..at] + data + dest[at + |data|..]
  }

  lemma OverwriteJoins(dest: seq<Byte>, at: nat, a: seq<Byte>, b: seq<Byte>)
    requires at + |a| + |b| <= |dest|
    ensures Overwrite(Overwrite(dest, at, a), at + |a|, b) == Overwrite(dest, at, a + b)
  {
  }

  /** The single-element version: writes the element byte by byte, reversed unless the host already
      uses network order. */
  method ConvertOne(dest: array<Byte>, at: nat, element: seq<Byte>, host: ByteOrder)
    requires at + |element| <= dest.Length
    modifies dest
    ensures dest[..] == Overwrite(old(dest[..]), at, ConvertElement(element, host))
  {
    ghost var want := ConvertElement(element, host);
    for j := 0 to |element|
      invariant forall k :: 0 <= k < dest.Length ==>
                  dest[k] == if at <= k < at + j then want[k - at] else old(dest[k])
    {
      dest[at + j] := if host == BigEndian then element[j] else element[|element| - 1 - j];
    }
  }

  /** Where element i starts. */
  ghost function StartOf(width: nat, i: nat): nat {
    width * i
  }

  /** The array version: writes the converted elements to dest, from position at on. */
  method ConvertByteOrder(dest: array<Byte>, at: nat, data: seq<Byte>, width: nat, count: nat, host: ByteOrder)
    requires |data| == width * count && at + |data| <= dest.Length
    modifies dest
    ensures dest[..] == Overwrite(old(dest[..]), at, Converted(data, width, count, host))
  {
    var start := 0;
    ghost var was := dest[..];
    ghost var done := [];
    assert dest[..] == Overwrite(was, at, done);
    assert done == Converted(data[..0], width, 0, host);
    assert StartOf(width, 0) == 0 && StartOf(width, count) == |data|;
    hide Converted, ConvertElement, Overwrite, StartOf;
    for i := 0 to count
      invariant start == StartOf(width, i) && start <= |data|
      invariant |done| == start && IsConverted(done, data, start, width, i, host)
      invariant dest[..] == Overwrite(was, at, done)
    {
      ConvertedNext(done, data, start, width, i, count, host);
      var element := data[start..start + width];
      ConvertOne(dest, at + start, element, host);
      OverwriteJoins(was, at, done, ConvertElement(element, host));
      done := done + ConvertElement(element, host);
      start := start + width;
    }
    assert data[..|data|] == data;
  }

  ghost predicate IsConverted(done: seq<Byte>, data: seq<Byte>, start: nat, width: nat, i: nat, host: ByteOrder)
    requires start <= |data|
  {
    start == width * i && done == Converted(data[..start], width, i, host)
  }

  lemma {:induction false} ConvertedNext(
      done: seq<Byte>, data: seq<Byte>, start: nat, width: nat, i: nat, count: nat, host: ByteOrder)
    requires |data| == width * count && i < count && start <= |data| && IsConverted(done, data, start, width, i, host)
    ensures start + width == StartOf(width, i + 1) <= |data|
    ensures IsConverted(
              done + ConvertElement(data[start..start + width], host), data, start + width, width, i + 1, host)
  {
    NextElement(width, i, count);
    assert data[..start + width][..start] == data[..start];
    assert data[..start + width][start..] == data[start..start + width];
  }

  lemma NextElement(width: nat, i: nat, count: nat)
    requires i < count
    ensures width * i + width == width * (i + 1) <= width * count
  {
    var rest := count - (i + 1);
    assert width * (i + 1 + rest) == width * (i + 1) + width * rest;
  }

  /** Whatever the host order, the object representation converts to the network bytes. */
  lemma {:induction false} ConvertElementIsNetworkOrder(value: nat, width: nat, host: ByteOrder)
    ensures ConvertElement(ObjectBytes(value, width, host), host) == NetworkBytes(value, width)
  {
    ReversedLittleEndian(value, width);
  }

  lemma ConvertElementIsInvolution(s: seq<Byte>, host: ByteOrder)
    ensures ConvertElement(ConvertElement(s, host), host) == s
  {
    assert Reversed(Reversed(s)) == s;
  }

  /** Converting an array to network order and back returns it. */
  lemma {:induction false} ConvertedIsInvolution(s: seq<Byte>, width: nat, count: nat, host: ByteOrder)
    requires |s| == width * count
    ensures Converted(Converted(s, width, count, host), width, count, host) == s
    decreases count
  {
    if count > 0 {
      var n := width * (count - 1);
      assert n + width == width * count;
      ConvertedIsInvolution(s[..n], width, count - 1, host);
      ConvertElementIsInvolution(s[n..], host);
      var t := Converted(s, width, count, host);
      assert t[..n] == Converted(s[..n], width, count - 1, host);
      assert t[n..] == ConvertElement(s[n..], host);
      assert s == s[..n] + s[n..];
    }
  }
}
