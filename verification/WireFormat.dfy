/**
 * The bytes on the wire, spelled out: what a push leaves in the ring, and what a pop makes of raw bytes.
 */
module WireFormat {
  import opened Bytes
  import opened PipePacket
  import opened Ring
  import opened RingQueue

  function Word16(s: seq<byte>, i: nat): nat
    requires i + 2 <= |s|
  {
    s[i] as int + 256 * s[i + 1] as int
  }

  function Word32(s: seq<byte>, i: nat): nat
    requires i + 4 <= |s|
  {
    s[i] as int + 256 * s[i + 1] as int + 65536 * s[i + 2] as int + 16777216 * s[i + 3] as int
  }

  // ---------------------------------------------------------------------------------------------
  // The little-endian codec in plain arithmetic
  // ---------------------------------------------------------------------------------------------

  lemma TwoBytes(s: seq<byte>)
    requires |s| == 2
    ensures FromLE(s) == Word16(s, 0)
  {
    assert s[1..][1..] == [];
    assert FromLE(s[1..]) == s[1];
  }

  lemma FourBytes(s: seq<byte>)
    requires |s| == 4
    ensures FromLE(s) == Word32(s, 0)
  {
    assert s[1..][1..] == s[2..] && s[2..][1..] == s[3..] && s[3..][1..] == [];
    assert FromLE(s[3..]) == s[3];
    assert FromLE(s[2..]) == s[2] as int + 256 * s[3] as int;
  }

  lemma LaidOut16(v: nat)
    requires v < 65536
    ensures Word16(ToLE(v, 2), 0) == v
  {
    Pow256Values();
    DecodeEncode(v, 2);
    TwoBytes(ToLE(v, 2));
  }

  lemma LaidOut32(v: nat)
    requires v < 4294967296
    ensures Word32(ToLE(v, 4), 0) == v
  {
    Pow256Values();
    DecodeEncode(v, 4);
    FourBytes(ToLE(v, 4));
  }

  /** A small number has zeros above its first byte. */
  lemma LaidOutSmall(v: nat)
    requires v < 256
    ensures ToLE(v, 2) == [v, 0] && ToLE(v, 4) == [v, 0, 0, 0]
  {
    assert v / 256 == 0;
    assert ToLE(0, 1) == [0];
    assert ToLE(0, 2) == [0, 0];
    assert ToLE(0, 3) == [0, 0, 0];
  }

  function Ones(n: nat): (s: seq<byte>)
    ensures |s| == n
  {
    seq(n, _ => 255)
  }

  lemma {:induction false} LaidOutOnes(n: nat)
    ensures ToLE(Pow256(n) - 1, n) == Ones(n)
  {
    if n > 0 {
      var v := Pow256(n) - 1;
      assert v == 256 * (Pow256(n - 1) - 1) + 255;
      assert v % 256 == 255 && v / 256 == Pow256(n - 1) - 1;
      LaidOutOnes(n - 1);
      assert ToLE(v, n) == [255] + ToLE(Pow256(n - 1) - 1, n - 1);
      assert Ones(n) == [255] + Ones(n - 1);
    }
  }

  // ---------------------------------------------------------------------------------------------
  // What a push writes
  // ---------------------------------------------------------------------------------------------

  lemma DescriptorBytes(length: nat)
    requires Encodable(length)
    ensures var d := PushDescriptor(length).ToBytes();
            && |d| == 16 && d[0..2] == [6, 0] && d[2..4] == [2, 0]
            && Word16(d, 4) == (24 + length + 7) / 8
            && d[6..8] == [0, 0] && forall i :: 8 <= i < 16 ==> d[i] == 255
  {
    var d := PushDescriptor(length);
    var b := d.ToBytes();
    LaidOutSmall(6); LaidOutSmall(2); LaidOutSmall(0);
    LaidOut16(DescribedLength(length) / 8);
    Pow256Values();
    LaidOutOnes(8);
    hide ToLE;
    assert b[0..2] == ToLE(d.rawType, 2) && b[2..4] == ToLE(d.rawDataOffset8, 2);
    assert b[4..6] == ToLE(d.rawLength8, 2) && b[6..8] == ToLE(d.rawFlags, 2);
    assert b[8..16] == ToLE(d.transactionId, 8);
    assert b[4] == b[4..6][0] && b[5] == b[4..6][1];
    forall i | 8 <= i < 16
      ensures b[i] == 255
    {
      assert b[i] == b[8..16][i - 8];
    }
  }

  lemma HeaderBytes(length: nat)
    requires length < 4294967296
    ensures var h := PipeHeader(PIPE_DATA, length).ToBytes();
            |h| == 8 && h[0..4] == [1, 0, 0, 0] && Word32(h, 4) == length
  {
    var h := PipeHeader(PIPE_DATA, length).ToBytes();
    LaidOutSmall(1);
    LaidOut32(length);
    hide ToLE;
    assert h[0..4] == ToLE(PIPE_DATA, 4) && h[4..8] == ToLE(length, 4);
    forall i | 4 <= i < 8
      ensures h[i] == h[4..8][i - 4]
    {}
  }

  lemma TrailerBytes(start: nat)
    requires start < 4294967296
    ensures var t := Trailer(start);
            Word32(t, 0) == start && t[4..8] == [0, 0, 0, 0]
  {
    LaidOut32(start);
    hide ToLE;
    assert Trailer(start)[0..4] == ToLE(start, 4);
    forall i | 0 <= i < 4
      ensures Trailer(start)[i] == Trailer(start)[0..4][i]
    {}
  }

  /** The concatenation of the parts of a packet, part by part. */
  lemma PartsAt(d: seq<byte>, h: seq<byte>, c: seq<byte>, z: seq<byte>, t: seq<byte>)
    requires |d| == 16 && |h| == 8 && |t| == 8
    ensures var p := d + h + c + z + t;
            && |p| == 32 + |c| + |z|
            && p[..16] == d && p[16..24] == h && p[24..24 + |c|] == c
            && p[24 + |c|..|p| - 8] == z && p[|p| - 8..] == t
  {}

  /** Every byte of a packet: type 6 (data in band), offset 16 and length in units of eight bytes, no flags, the
      transaction of all ones, message type 1, the payload and its length, zeros, and the start index. */
  lemma PacketBytes(c: seq<byte>, start: nat)
    requires |c| <= 524256 && start < 4294967296
    ensures Encodable(|c|)
    ensures var p := Packet(c, start);
            && |p| == (24 + |c| + 7) / 8 * 8 + 8 >= 32 + |c|
            && p[0..2] == [6, 0] && p[2..4] == [2, 0]
            && Word16(p, 4) == (24 + |c| + 7) / 8
            && p[6..8] == [0, 0]
            && (forall i :: 8 <= i < 16 ==> p[i] == 255)
            && p[16..20] == [1, 0, 0, 0] && Word32(p, 20) == |c|
            && p[24..24 + |c|] == c
            && (forall i :: 24 + |c| <= i < |p| - 8 ==> p[i] == 0)
            && Word32(p, |p| - 8) == start
            && p[|p| - 4..] == [0, 0, 0, 0]
  {
    DescriptorBytes(|c|);
    HeaderBytes(|c|);
    TrailerBytes(start);
    var d, h, t := PushDescriptor(|c|).ToBytes(), PipeHeader(PIPE_DATA, |c|).ToBytes(), Trailer(start);
    var z := Zeros(DescribedLength(|c|) - PIPE_PACKET_HEADER_SIZE - |c|);
    PartsAt(d, h, c, z, t);
    PacketIsParts(c, start);
    hide PushDescriptor, PacketDescriptor.ToBytes, PipeHeader.ToBytes, Trailer, Packet;
    InParts(Packet(c, start), d, h, c, z, t);
  }

  lemma PacketIsParts(c: seq<byte>, start: nat)
    requires Encodable(|c|)
    ensures Packet(c, start)
            == PushDescriptor(|c|).ToBytes() + PipeHeader(PIPE_DATA, |c|).ToBytes() + c
               + Zeros(DescribedLength(|c|) - PIPE_PACKET_HEADER_SIZE - |c|) + Trailer(start)
  {}

  /** Facts about the parts are facts about the packet. */
  lemma InParts(p: seq<byte>, d: seq<byte>, h: seq<byte>, c: seq<byte>, z: seq<byte>, t: seq<byte>)
    requires |d| == 16 && |h| == 8 && |t| == 8 && |p| == 32 + |c| + |z|
    requires p[..16] == d && p[16..24] == h && p[24..24 + |c|] == c && p[24 + |c|..|p| - 8] == z && p[|p| - 8..] == t
    requires forall i :: 0 <= i < |z| ==> z[i] == 0
    ensures p[0..2] == d[0..2] && p[2..4] == d[2..4] && p[6..8] == d[6..8] && Word16(p, 4) == Word16(d, 4)
    ensures forall i :: 8 <= i < 16 ==> p[i] == d[i]
    ensures p[16..20] == h[0..4] && Word32(p, 20) == Word32(h, 4)
    ensures forall i :: 24 + |c| <= i < |p| - 8 ==> p[i] == 0
    ensures Word32(p, |p| - 8) == Word32(t, 0) && p[|p| - 4..] == t[4..8]
  {
    assert forall i :: 0 <= i < 16 ==> p[i] == d[i];
    forall i | 16 <= i < 24
      ensures p[i] == h[i - 16]
    {
      assert p[16..24][i - 16] == p[i];
    }
    forall i | 24 + |c| <= i < |p| - 8
      ensures p[i] == 0
    {
      assert p[24 + |c|..|p| - 8][i - 24 - |c|] == p[i];
    }
    forall i | |p| - 8 <= i < |p|
      ensures p[i] == t[i - |p| + 8]
    {
      assert p[|p| - 8..][i - |p| + 8] == p[i];
    }
  }

  // ---------------------------------------------------------------------------------------------
  // What a pop makes of raw bytes
  // ---------------------------------------------------------------------------------------------

  function OffsetOf(s: seq<byte>): nat
    requires |s| >= 24
  {
    8 * Word16(s, 2)
  }

  function LengthOf(s: seq<byte>): nat
    requires |s| >= 24
  {
    8 * Word16(s, 4)
  }

  predicate OffsetFits(s: seq<byte>)
    requires |s| >= 24
  {
    16 <= OffsetOf(s) <= LengthOf(s) && OffsetOf(s) <= |s|
  }

  predicate LengthFits(s: seq<byte>)
    requires |s| >= 24
  {
    OffsetFits(s) && LengthOf(s) + 8 <= |s|
  }

  /** The size field; above 2147483639 adding the header size wraps, and the check that it fits passes. */
  function DataSizeOf(s: seq<byte>): nat
    requires |s| >= 24 && LengthFits(s)
  {
    Word32(s, OffsetOf(s) + 4)
  }

  predicate DataSizePasses(s: seq<byte>)
    requires |s| >= 24 && LengthFits(s)
  {
    DataSizeOf(s) >= 2147483640 || OffsetOf(s) + 8 + DataSizeOf(s) <= |s|
  }

  lemma DescriptorWords(s: seq<byte>)
    requires |s| >= 24
    ensures var d := DescriptorFromBytes(s);
            d.rawType == Word16(s, 0) && d.DataOffset() == OffsetOf(s) && d.Length() == LengthOf(s)
  {
    TwoBytes(s[0..2]);
    TwoBytes(s[2..4]);
    TwoBytes(s[4..6]);
  }

  lemma HeaderWords(s: seq<byte>, i: nat)
    requires i + 8 <= |s|
    ensures var h := HeaderFromBytes(s[i..]);
            h.rawPacketType == Word32(s, i) && h.rawDataSize == Word32(s, i + 4)
  {
    FourBytes(s[i..][0..4]);
    FourBytes(s[i..][4..8]);
  }

  /** For all bytes: which are accepted, with what payload and size, and which error each of the others gives. */
  lemma ParsedBytes(s: seq<byte>)
    requires |s| >= 24
    ensures Parse(s) == Rejected(UnexpectedPacketType) <==> Word16(s, 0) != 6
    ensures Parse(s) == Rejected(UnexpectedDataOffset) <==> Word16(s, 0) == 6 && !OffsetFits(s)
    ensures Parse(s) == Rejected(UnexpectedPacketSize) <==> Word16(s, 0) == 6 && OffsetFits(s) && !LengthFits(s)
    ensures Parse(s) == Rejected(UnexpectedPipeMessageType) <==>
              Word16(s, 0) == 6 && LengthFits(s) && Word32(s, OffsetOf(s)) != 1
    ensures Parse(s) == Rejected(DataSizeOverflow) <==>
              Word16(s, 0) == 6 && LengthFits(s) && Word32(s, OffsetOf(s)) == 1 && DataSizeOf(s) >= 2147483648
    ensures Parse(s) == Rejected(UnexpectedDataSize) <==>
              Word16(s, 0) == 6 && LengthFits(s) && Word32(s, OffsetOf(s)) == 1 && !DataSizePasses(s)
    ensures Parse(s).Accepted? <==>
              && Word16(s, 0) == 6 && LengthFits(s) && Word32(s, OffsetOf(s)) == 1
              && DataSizeOf(s) < 2147483648 && DataSizePasses(s)
    ensures Parse(s).Accepted? ==>
              && Parse(s).size == LengthOf(s) + 8
              && Parse(s).content == (if OffsetOf(s) + 8 + DataSizeOf(s) <= |s|
                                      then s[OffsetOf(s) + 8..OffsetOf(s) + 8 + DataSizeOf(s)]
                                      else s[OffsetOf(s) + 8..])
  {
    DescriptorWords(s);
    if LengthFits(s) {
      HeaderWords(s, OffsetOf(s));
      hide DescriptorFromBytes, HeaderFromBytes, Word16, Word32;
      assert s[OffsetOf(s)..][8..] == s[OffsetOf(s) + 8..];
      if OffsetOf(s) + 8 + DataSizeOf(s) <= |s| {
        assert s[OffsetOf(s) + 8..][..DataSizeOf(s)] == s[OffsetOf(s) + 8..OffsetOf(s) + 8 + DataSizeOf(s)];
      }
    } else {
      hide DescriptorFromBytes, HeaderFromBytes, Word16;
    }
  }

  /** For all ring contents: below 24 unread bytes a pop returns nothing; from there on the unread bytes decide, and an
      accepted packet moves the out index past its length and trailer. Nothing else of the ring changes. */
  lemma PopOfRawBytes(r: Ring)
    requires r.Valid()
    ensures r.ReadSize() < 24 ==> Pop(r) == (r, Returned([]))
    ensures r.ReadSize() >= 24 ==>
              var s := r.Unread();
              var (r', result) := Pop(r);
              match Parse(s)
              case Rejected(error) => r' == r && result == Threw(error)
              case Accepted(content, size) =>
                && result == Returned(content) && size == LengthOf(s) + 8 <= r.ReadSize()
                && r' == r.(outIndex := if r.outIndex + size <= |r.data| then r.outIndex + size
                                        else r.outIndex + size - |r.data|)
  {
    hide Parse, Slot;
    if r.ReadSize() >= 24 {
      ParsedBytes(r.Unread());
    }
  }

  /** An accepted push puts exactly those bytes from the in index on, around the end of the area, and moves the in
      index past them. */
  lemma PushOfRawBytes(r: Ring, c: seq<byte>, i: nat)
    requires r.Valid() && Push(r, c).1 == Pushed
    ensures |c| <= 524256
    ensures var r', p := Push(r, c).0, Packet(c, r.inIndex);
            && |r'.data| == |r.data| && r'.outIndex == r.outIndex && |p| <= |r.data|
            && r'.inIndex == (if r.inIndex + |p| <= |r.data| then r.inIndex + |p| else r.inIndex + |p| - |r.data|)
            && (i < |p| ==>
                  var offset := if r.inIndex + i < |r.data| then r.inIndex + i else r.inIndex + i - |r.data|;
                  r'.data[offset] == p[i])
  {
    hide Packet, Encodable, PacketSize;
    PushRejects(r, c);
    if i < PacketSize(|c|) {
      assert Slot(|r.data|, r.inIndex, i) < |r.data|;
    }
  }
}
