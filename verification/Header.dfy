/** The 16-byte message header (serialize_header.hpp). */
module Headers {
  import opened Options
  import opened Bytes

  const HEADER_SIZE: nat := 16
  const MAGIC: nat := 0x6666_6666

  datatype Header = Header(
    magic: nat,
    version: nat,
    messageLength: nat,
    flag: nat,
    checksum: nat,
    fieldCount: nat)
  {
    /** Every member fits its integer type. */
    predicate Fits() {
      && magic < TWO_32
      && version < 256
      && messageLength < TWO_32
      && flag < 256
      && checksum < TWO_32
      && fieldCount < 0x1_0000
    }
  }

  function EncodeHeader(h: Header): (s: seq<Byte>)
    ensures |s| == HEADER_SIZE
  {
    NetworkBytes(h.magic, 4) + NetworkBytes(h.version, 1) + NetworkBytes(h.messageLength, 4)
    + NetworkBytes(h.flag, 1) + NetworkBytes(h.checksum, 4) + NetworkBytes(h.fieldCount, 2)
  }

  /** Too short a sequence has no header; longer ones are read from the front. */
  function DecodeHeader(s: seq<Byte>): (r: Option<Header>)
    ensures r.Some? <==> |s| >= HEADER_SIZE
  {
    if |s| < HEADER_SIZE then None
    else
      Some(Header(
             FromNetworkBytes(s[0..4]), FromNetworkBytes(s[4..5]), FromNetworkBytes(s[5..9]),
             FromNetworkBytes(s[9..10]), FromNetworkBytes(s[10..14]), FromNetworkBytes(s[14..16])))
  }

  function MessageLength(s: seq<Byte>): nat
    requires |s| >= HEADER_SIZE
  {
    DecodeHeader(s).value.messageLength
  }

  lemma Slices(a: seq<Byte>, b: seq<Byte>, c: seq<Byte>, d: seq<Byte>, e: seq<Byte>, f: seq<Byte>, rest: seq<Byte>)
    requires |a| == 4 && |b| == 1 && |c| == 4 && |d| == 1 && |e| == 4 && |f| == 2
    ensures var s := a + b + c + d + e + f + rest;
            && s[0..4] == a && s[4..5] == b && s[5..9] == c
            && s[9..10] == d && s[10..14] == e && s[14..16] == f
  {
  }

  /** Reading back an encoded header, whatever follows it, gives the header. */
  lemma HeaderRoundTrip(h: Header, rest: seq<Byte>)
    requires h.Fits()
    ensures DecodeHeader(EncodeHeader(h) + rest) == Some(h)
  {
    Pow256Sizes();
    Slices(NetworkBytes(h.magic, 4), NetworkBytes(h.version, 1), NetworkBytes(h.messageLength, 4),
           NetworkBytes(h.flag, 1), NetworkBytes(h.checksum, 4), NetworkBytes(h.fieldCount, 2), rest);
    NetworkRoundTrip(h.magic, 4);
    NetworkRoundTrip(h.version, 1);
    NetworkRoundTrip(h.messageLength, 4);
    NetworkRoundTrip(h.flag, 1);
    NetworkRoundTrip(h.checksum, 4);
    NetworkRoundTrip(h.fieldCount, 2);
  }

  /** Any 16 bytes are the encoding of the header read from them. */
  lemma HeaderBytesDetermined(s: seq<Byte>)
    requires |s| >= HEADER_SIZE
    ensures DecodeHeader(s).value.Fits()
    ensures EncodeHeader(DecodeHeader(s).value) == s[..HEADER_SIZE]
  {
    Pow256Sizes();
    NetworkBytesDetermined(s[0..4]);
    NetworkBytesDetermined(s[4..5]);
    NetworkBytesDetermined(s[5..9]);
    NetworkBytesDetermined(s[9..10]);
    NetworkBytesDetermined(s[10..14]);
    NetworkBytesDetermined(s[14..16]);
    assert s[..16] == s[0..4] + s[4..5] + s[5..9] + s[9..10] + s[10..14] + s[14..16];
  }
}
