/**
 * The wire format of one pipe packet: a 16-byte descriptor, an 8-byte pipe header, the payload,
 * zero padding to a multiple of eight, and an 8-byte trailer whose low dword is the index at
 * which the packet starts.
 */
module PipePacket {
  import opened Bytes

  type uint16 = x: int | 0 <= x < 0x1_0000
  type uint32 = x: int | 0 <= x < 0x1_0000_0000
  type uint64 = x: int | 0 <= x < 0x1_0000_0000_0000_0000

  const DESCRIPTOR_SIZE: nat := 16
  const PIPE_HEADER_SIZE: nat := 8
  const PIPE_PACKET_HEADER_SIZE: nat := DESCRIPTOR_SIZE + PIPE_HEADER_SIZE
  const TRAILER_SIZE: nat := 8

  const DATA_IN_BAND: uint16 := 6
  const PIPE_DATA: uint32 := 1

  /** HvGin/PacketDescriptor.cs: offset and length are kept in units of eight bytes. */
  datatype PacketDescriptor = PacketDescriptor(
    rawType: uint16, rawDataOffset8: uint16, rawLength8: uint16, rawFlags: uint16, transactionId: uint64)
  {
    function DataOffset(): nat { rawDataOffset8 * 8 }

    function Length(): nat { rawLength8 * 8 }

    function ToBytes(): seq<byte> {
      ToLE(rawType, 2) + ToLE(rawDataOffset8, 2) + ToLE(rawLength8, 2) + ToLE(rawFlags, 2) + ToLE(transactionId, 8)
    }
  }

  function DescriptorFromBytes(s: seq<byte>): PacketDescriptor
    requires |s| >= DESCRIPTOR_SIZE
  {
    EncodeDecode(s[0..2]); EncodeDecode(s[2..4]); EncodeDecode(s[4..6]); EncodeDecode(s[6..8]);
    EncodeDecode(s[8..16]);
    Pow256Values();
    PacketDescriptor(FromLE(s[0..2]), FromLE(s[2..4]), FromLE(s[4..6]), FromLE(s[6..8]), FromLE(s[8..16]))
  }

  /** HvGin/PipeHeader.cs. */
  datatype PipeHeader = PipeHeader(rawPacketType: uint32, rawDataSize: uint32)
  {
    function ToBytes(): seq<byte> {
      ToLE(rawPacketType, 4) + ToLE(rawDataSize, 4)
    }
  }

  function HeaderFromBytes(s: seq<byte>): PipeHeader
    requires |s| >= PIPE_HEADER_SIZE
  {
    EncodeDecode(s[0..4]); EncodeDecode(s[4..8]);
    Pow256Values();
    PipeHeader(FromLE(s[0..4]), FromLE(s[4..8]))
  }

  lemma Pow256Values()
    ensures Pow256(2) == 0x1_0000
    ensures Pow256(4) == 0x1_0000_0000
    ensures Pow256(8) == 0x1_0000_0000_0000_0000
  {
    assert Pow256(1) == 256;
    assert Pow256(3) == 256 * Pow256(2);
    assert Pow256(5) == 256 * Pow256(4);
    assert Pow256(6) == 256 * Pow256(5);
    assert Pow256(7) == 256 * Pow256(6);
  }

  lemma DescriptorRoundTrip(d: PacketDescriptor, rest: seq<byte>)
    ensures DescriptorFromBytes(d.ToBytes() + rest) == d
  {
    Pow256Values();
    DecodeEncode(d.rawType, 2); DecodeEncode(d.rawDataOffset8, 2); DecodeEncode(d.rawLength8, 2);
    DecodeEncode(d.rawFlags, 2); DecodeEncode(d.transactionId, 8);
    var s := d.ToBytes() + rest;
    assert s[0..2] == ToLE(d.rawType, 2);
    assert s[2..4] == ToLE(d.rawDataOffset8, 2);
    assert s[4..6] == ToLE(d.rawLength8, 2);
    assert s[6..8] == ToLE(d.rawFlags, 2);
    assert s[8..16] == ToLE(d.transactionId, 8);
  }

  lemma HeaderRoundTrip(h: PipeHeader, rest: seq<byte>)
    ensures HeaderFromBytes(h.ToBytes() + rest) == h
  {
    Pow256Values();
    DecodeEncode(h.rawPacketType, 4); DecodeEncode(h.rawDataSize, 4);
    var s := h.ToBytes() + rest;
    assert s[0..4] == ToLE(h.rawPacketType, 4);
    assert s[4..8] == ToLE(h.rawDataSize, 4);
  }

  /** `Descriptor.Length` after assigning header plus payload. */
  function DescribedLength(length: nat): nat {
    Align8(PIPE_PACKET_HEADER_SIZE + length)
  }

  /** The ring bytes that a payload of this length takes. */
  function PacketSize(length: nat): nat {
    DescribedLength(length) + TRAILER_SIZE
  }

  /** The scaled length fits its 16-bit field; otherwise `Convert.ToUInt16` throws. */
  predicate Encodable(length: nat) {
    DescribedLength(length) / 8 <= 0xFFFF
  }

  function PushDescriptor(length: nat): PacketDescriptor
    requires Encodable(length)
  {
    PacketDescriptor(DATA_IN_BAND, DESCRIPTOR_SIZE / 8, DescribedLength(length) / 8, 0, 0xFFFF_FFFF_FFFF_FFFF)
  }

  function Zeros(n: nat): (s: seq<byte>)
    ensures |s| == n
  {
    seq(n, _ => 0)
  }

  function Trailer(start: nat): (s: seq<byte>)
    ensures |s| == TRAILER_SIZE
  {
    ToLE(start, 4) + Zeros(4)
  }

  /** The bytes that a push writes for `content` when its packet starts at index `start`. */
  function Packet(content: seq<byte>, start: nat): (p: seq<byte>)
    requires Encodable(|content|)
    ensures |p| == PacketSize(|content|)
  {
    PushDescriptor(|content|).ToBytes() + PipeHeader(PIPE_DATA, |content|).ToBytes() + content
    + Zeros(DescribedLength(|content|) - PIPE_PACKET_HEADER_SIZE - |content|) + Trailer(start)
  }

  datatype PopError =
    | UnexpectedPacketType
    | UnexpectedDataOffset
    | UnexpectedPacketSize
    | UnexpectedPipeMessageType
    | DataSizeOverflow
    | UnexpectedDataSize

  datatype Parsed =
    | Accepted(content: seq<byte>, size: nat)
    | Rejected(error: PopError)

  /** What a pop makes of the bytes it copied out (HvGin/UioHvDevice.cs:96-127). */
  function Parse(available: seq<byte>): (r: Parsed)
    requires |available| >= PIPE_PACKET_HEADER_SIZE
    ensures r.Accepted? ==> PIPE_PACKET_HEADER_SIZE <= r.size <= |available| && r.size % 8 == 0
  {
    var descriptor := DescriptorFromBytes(available);
    if descriptor.rawType != DATA_IN_BAND then
      Rejected(UnexpectedPacketType)
    else if descriptor.DataOffset() < DESCRIPTOR_SIZE
            || descriptor.DataOffset() > |available|
            || descriptor.DataOffset() > descriptor.Length() then
      Rejected(UnexpectedDataOffset)
    else if |available| < descriptor.Length() + TRAILER_SIZE then
      Rejected(UnexpectedPacketSize)
    else
      var rest := available[descriptor.DataOffset()..];
      var header := HeaderFromBytes(rest);
      if header.rawPacketType != PIPE_DATA then
        Rejected(UnexpectedPipeMessageType)
      else if header.rawDataSize >= INT32_LIMIT then
        Rejected(DataSizeOverflow)
      else if |rest| < WrapInt32(PIPE_HEADER_SIZE + header.rawDataSize) then
        Rejected(UnexpectedDataSize)
      else
        Accepted(Take(rest[PIPE_HEADER_SIZE..], header.rawDataSize), descriptor.Length() + TRAILER_SIZE)
  }

  /** LINQ's `Take`: at most `n` elements. */
  function Take(s: seq<byte>, n: nat): seq<byte> {
    if n <= |s| then s[..n] else s
  }

  lemma Associate(a: seq<byte>, b: seq<byte>, c: seq<byte>)
    ensures a + b + c == a + (b + c)
  {}

  lemma Regroup(d: seq<byte>, h: seq<byte>, c: seq<byte>, z: seq<byte>, t: seq<byte>, rest: seq<byte>)
    ensures d + h + c + z + t + rest == d + (h + (c + (z + t + rest)))
  {
    Associate(d + h + c, z, t);
    Associate(d + h + c, z + t, rest);
    Associate(d + h, c, z + t + rest);
    Associate(d, h, c + (z + t + rest));
  }

  /** A packet laid out as descriptor, header, payload and everything after the payload. */
  lemma PacketLayout(content: seq<byte>, start: nat, rest: seq<byte>) returns (tail: seq<byte>)
    requires Encodable(|content|)
    ensures var all := Packet(content, start) + rest;
            var header := PipeHeader(PIPE_DATA, |content|).ToBytes();
            && all == PushDescriptor(|content|).ToBytes() + (header + (content + tail))
            && |all| == PIPE_PACKET_HEADER_SIZE + |content| + |tail|
  {
    tail := Zeros(DescribedLength(|content|) - PIPE_PACKET_HEADER_SIZE - |content|) + Trailer(start) + rest;
    var d, h := PushDescriptor(|content|), PipeHeader(PIPE_DATA, |content|);
    HeadLengths(d, h);
    hide DescribedLength, Zeros, Trailer, PushDescriptor, PacketDescriptor.ToBytes, PipeHeader.ToBytes;
    Regroup(d.ToBytes(), h.ToBytes(), content, Zeros(DescribedLength(|content|) - PIPE_PACKET_HEADER_SIZE - |content|),
            Trailer(start), rest);
  }

  lemma PushDescriptorFields(length: nat)
    requires Encodable(length)
    ensures PushDescriptor(length).DataOffset() == DESCRIPTOR_SIZE
    ensures PushDescriptor(length).Length() == DescribedLength(length) >= PIPE_PACKET_HEADER_SIZE + length
  {
    Align8IsLeast(PIPE_PACKET_HEADER_SIZE + length, DescribedLength(length));
  }

  /** The parser looks at nothing but descriptor, header and payload: whatever the flags, the transaction, and the bytes
      a peer left in padding, trailer and beyond, it returns the payload and the described size. */
  lemma ParseIgnoresTail(d: PacketDescriptor, content: seq<byte>, tail: seq<byte>)
    requires d.rawType == DATA_IN_BAND && d.DataOffset() == DESCRIPTOR_SIZE
    requires |content| < INT32_LIMIT - PIPE_HEADER_SIZE
    requires DESCRIPTOR_SIZE <= d.Length() <= PIPE_PACKET_HEADER_SIZE + |content| + |tail| - TRAILER_SIZE
    ensures var all := d.ToBytes() + (PipeHeader(PIPE_DATA, |content|).ToBytes() + (content + tail));
            |all| == PIPE_PACKET_HEADER_SIZE + |content| + |tail|
            && Parse(all) == Accepted(content, d.Length() + TRAILER_SIZE)
  {
    var header := PipeHeader(PIPE_DATA, |content|);
    var all := d.ToBytes() + (header.ToBytes() + (content + tail));
    DescriptorRoundTrip(d, header.ToBytes() + (content + tail));
    HeaderRoundTrip(header, content + tail);
    HeadLengths(d, header);
    assert all[DESCRIPTOR_SIZE..] == header.ToBytes() + (content + tail);
    assert all[DESCRIPTOR_SIZE..][PIPE_HEADER_SIZE..] == content + tail;
    assert Take(content + tail, |content|) == content;
  }

  lemma HeadLengths(d: PacketDescriptor, h: PipeHeader)
    ensures |d.ToBytes()| == DESCRIPTOR_SIZE && |h.ToBytes()| == PIPE_HEADER_SIZE
  {}

  /** Any payload survives encoding and parsing, whatever start index it carries and whatever bytes follow. */
  lemma ParseOfPacket(content: seq<byte>, start: nat, rest: seq<byte>)
    requires Encodable(|content|)
    ensures Parse(Packet(content, start) + rest) == Accepted(content, PacketSize(|content|))
  {
    hide Parse;
    var tail := PacketLayout(content, start, rest);
    PushDescriptorFields(|content|);
    ParseIgnoresTail(PushDescriptor(|content|), content, tail);
  }

  /** The low dword of the trailer is the start index; the trailer is the packet's last eight bytes. */
  lemma TrailerOfPacket(content: seq<byte>, start: uint32)
    requires Encodable(|content|)
    ensures var p := Packet(content, start);
            FromLE(p[|p| - TRAILER_SIZE..|p| - TRAILER_SIZE + 4]) == start
  {
    hide PushDescriptor, DescribedLength, ToLE, FromLE, Zeros;
    var p := Packet(content, start);
    assert p[|p| - TRAILER_SIZE..] == Trailer(start);
    assert p[|p| - TRAILER_SIZE..|p| - TRAILER_SIZE + 4] == Trailer(start)[..4] == ToLE(start, 4);
    Pow256Values();
    DecodeEncode(start, 4);
  }
}
