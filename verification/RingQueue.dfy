/**
 * The ring as a queue of payloads: push appends one, pop removes the first, and the unread bytes
 * determine the queue.
 */
module RingQueue {
  import opened Bytes
  import opened PipePacket
  import opened Ring

  type Payload = seq<byte>

  ghost predicate AllEncodable(q: seq<Payload>) {
    forall i :: 0 <= i < |q| ==> Encodable(|q[i]|)
  }

  /** The index after the packets of `q` in a ring of `n` bytes, the first starting at `idx`. */
  function EndIndex(n: nat, q: seq<Payload>, idx: nat): nat {
    if q == [] then idx else EndIndex(n, q[1..], Advance(n, idx, PacketSize(|q[0]|)))
  }

  /** The bytes of the packets of `q`, the first starting at `idx`. */
  ghost function Wire(n: nat, q: seq<Payload>, idx: nat): seq<byte>
    requires AllEncodable(q)
  {
    if q == [] then []
    else Packet(q[0], idx) + Wire(n, q[1..], Advance(n, idx, PacketSize(|q[0]|)))
  }

  /** The unread bytes are the packets of `q`, each carrying its own start index, and the in index is their end. */
  ghost predicate Represents(r: Ring, q: seq<Payload>)
    requires r.Valid()
  {
    && AllEncodable(q)
    && r.Unread() == Wire(|r.data|, q, r.outIndex)
    && r.inIndex == Advance(|r.data|, r.outIndex, r.ReadSize())
  }

  /** Splits bytes into packets with the parser alone. */
  function DecodeAll(s: seq<byte>): seq<Payload> {
    if |s| < PIPE_PACKET_HEADER_SIZE then []
    else
      match Parse(s)
      case Rejected(_) => []
      case Accepted(content, size) => [content] + DecodeAll(s[size..])
  }

  lemma {:induction false} WireConcat(n: nat, p: seq<Payload>, q: seq<Payload>, idx: nat)
    requires AllEncodable(p) && AllEncodable(q)
    ensures AllEncodable(p + q)
    ensures Wire(n, p + q, idx) == Wire(n, p, idx) + Wire(n, q, EndIndex(n, p, idx))
    ensures EndIndex(n, p + q, idx) == EndIndex(n, q, EndIndex(n, p, idx))
  {
    hide Packet, PacketSize, Encodable, Advance;
    if p == [] {
      assert p + q == q;
    } else {
      WireConcat(n, p[1..], q, Advance(n, idx, PacketSize(|p[0]|)));
      assert (p + q)[1..] == p[1..] + q;
    }
  }

  lemma WireOfOne(n: nat, c: Payload, idx: nat)
    requires Encodable(|c|)
    ensures AllEncodable([c])
    ensures Wire(n, [c], idx) == Packet(c, idx)
    ensures EndIndex(n, [c], idx) == Advance(n, idx, PacketSize(|c|))
  {
    assert [c][1..] == [];
    assert Wire(n, [c][1..], Advance(n, idx, PacketSize(|c|))) == [];
  }

  lemma {:induction false} EndIndexIsAdvance(n: nat, q: seq<Payload>, idx: nat)
    requires AllEncodable(q) && idx <= n && |Wire(n, q, idx)| <= n
    ensures EndIndex(n, q, idx) == Advance(n, idx, |Wire(n, q, idx)|)
  {
    if q != [] {
      EndIndexIsAdvance(n, q[1..], Advance(n, idx, PacketSize(|q[0]|)));
    }
  }

  /** The unread bytes leave no choice of queue. */
  lemma {:induction false} DecodeWire(n: nat, q: seq<Payload>, idx: nat)
    requires AllEncodable(q)
    ensures DecodeAll(Wire(n, q, idx)) == q
  {
    if q != [] {
      var next := Advance(n, idx, PacketSize(|q[0]|));
      var rest := Wire(n, q[1..], next);
      ParseOfPacket(q[0], idx, rest);
      assert Wire(n, q, idx)[PacketSize(|q[0]|)..] == rest;
      DecodeWire(n, q[1..], next);
      assert q == [q[0]] + q[1..];
    }
  }

  lemma UnreadDecodes(r: Ring, q: seq<Payload>)
    requires r.Valid() && Represents(r, q)
    ensures DecodeAll(r.Unread()) == q
  {
    DecodeWire(|r.data|, q, r.outIndex);
  }

  /** Which pushes hide the whole contents: an exact fill of the free space, once the out index has moved. */
  predicate HidesContents(r: Ring, length: nat)
    requires r.Valid()
  {
    PacketSize(length) == r.WriteSize() && r.outIndex > 0
  }

  /** Storing from the in index on leaves unread bytes alone and appends the stored ones. */
  lemma StoreExtends(r: Ring, bytes: seq<byte>)
    requires r.Valid() && |bytes| <= r.WriteSize()
    ensures var s := Store(r.data, r.inIndex, bytes);
            && (forall i :: 0 <= i < r.ReadSize() ==> s[Slot(|s|, r.outIndex, i)] == r.data[Slot(|s|, r.outIndex, i)])
            && (forall i :: r.ReadSize() <= i < r.ReadSize() + |bytes| ==>
                  s[Slot(|s|, r.outIndex, i)] == bytes[i - r.ReadSize()])
  {
    var n, m := |r.data|, r.ReadSize();
    var s := Store(r.data, r.inIndex, bytes);
    forall i | 0 <= i < m
      ensures s[Slot(n, r.outIndex, i)] == r.data[Slot(n, r.outIndex, i)]
    {
      assert Slot(n, r.inIndex, n - m + i) == Slot(n, r.outIndex, i);
    }
    forall i | m <= i < m + |bytes|
      ensures s[Slot(n, r.outIndex, i)] == bytes[i - m]
    {
      assert Slot(n, r.inIndex, i - m) == Slot(n, r.outIndex, i);
    }
  }

  /** An accepted push appends its payload exactly when it does not hide the contents. */
  lemma PushAppends(r: Ring, q: seq<Payload>, content: Payload)
    requires r.Valid() && Represents(r, q)
    requires Push(r, content).1 == Pushed
    ensures Push(r, content).0.Valid()
    ensures Represents(Push(r, content).0, q + [content]) <==> !HidesContents(r, |content|)
    ensures HidesContents(r, |content|) ==> Push(r, content).0.ReadSize() == 0
  {
    hide Packet, Encodable, PacketSize;
    var r' := Push(r, content).0;
    var n, m, size := |r.data|, r.ReadSize(), PacketSize(|content|);
    EndIndexIsAdvance(n, q, r.outIndex);
    WireOfOne(n, content, EndIndex(n, q, r.outIndex));
    WireConcat(n, q, [content], r.outIndex);
    var packet := Packet(content, r.inIndex);
    if !HidesContents(r, |content|) {
      StoreExtends(r, packet);
      assert r'.ReadSize() == m + size;
      assert r'.Unread() == r.Unread() + packet;
    }
  }

  /** A push touches free bytes and the in index only. */
  lemma PushKeepsUnread(r: Ring, content: Payload)
    requires r.Valid()
    ensures var r' := Push(r, content).0;
            && r'.outIndex == r.outIndex && |r'.data| == |r.data|
            && forall i :: 0 <= i < r.ReadSize() ==>
                 r'.data[Slot(|r.data|, r.outIndex, i)] == r.data[Slot(|r.data|, r.outIndex, i)]
  {
    hide Packet, Encodable, PacketSize;
    if Push(r, content).1 == Pushed {
      StoreExtends(r, Packet(content, r.inIndex));
    }
  }

  /** A rejected push changes nothing, and these are the only two ways to be rejected. */
  lemma PushRejects(r: Ring, content: Payload)
    requires r.Valid()
    ensures Push(r, content).1 != Pushed ==> Push(r, content).0 == r
    ensures Push(r, content).1 == LengthOverflow <==> !Encodable(|content|)
    ensures Push(r, content).1 == Pushed <==> Encodable(|content|) && PacketSize(|content|) <= r.WriteSize()
    ensures Encodable(|content|) <==> |content| <= 524256
  {
    Align8IsLeast(PIPE_PACKET_HEADER_SIZE + |content|, 524280);
  }

  /** Pop returns the oldest payload and frees exactly the bytes its push took. */
  lemma PopRemovesHead(r: Ring, q: seq<Payload>)
    requires r.Valid() && Represents(r, q)
    ensures q == [] ==> Pop(r) == (r, Returned([]))
    ensures q != [] ==>
              var (r', result) := Pop(r);
              && result == Returned(q[0])
              && r' == r.(outIndex := Advance(|r.data|, r.outIndex, PacketSize(|q[0]|)))
              && r'.Valid() && Represents(r', q[1..])
              && r'.ReadSize() == r.ReadSize() - PacketSize(|q[0]|)
  {
    hide Packet, Encodable, Parse;
    if q != [] {
      var n, size := |r.data|, PacketSize(|q[0]|);
      var next := Advance(n, r.outIndex, size);
      var rest := Wire(n, q[1..], next);
      ParseOfPacket(q[0], r.outIndex, rest);
      var r' := r.(outIndex := next);
      assert r.Unread() == Packet(q[0], r.outIndex) + rest;
      AdvanceTwice(n, r.outIndex, size, r.ReadSize() - size);
      assert r'.ReadSize() == r.ReadSize() - size;
      assert r'.Unread() == rest by {
        forall i | 0 <= i < |rest|
          ensures r'.Unread()[i] == rest[i]
        {
          SlotAfterAdvance(n, r.outIndex, size, i);
          assert r'.Unread()[i] == r.Unread()[size + i];
        }
      }
    }
  }

  /** Whatever bytes a peer left in the ring: a pop that throws or finds nothing changes nothing; any other pop
      returns a stretch of the unread bytes and never moves the out index past the in index. */
  lemma PopOfAnyBytes(r: Ring)
    requires r.Valid()
    ensures var (r', result) := Pop(r);
            && r' == r.(outIndex := r'.outIndex) && r'.Valid()
            && r'.ReadSize() <= r.ReadSize()
            && (result.Threw? || r.ReadSize() < PIPE_PACKET_HEADER_SIZE ==> r' == r)
            && (result.Returned? ==>
                  exists i, j :: 0 <= i <= j <= r.ReadSize() && result.content == r.Unread()[i..j])
  {
    if r.ReadSize() < PIPE_PACKET_HEADER_SIZE {
      assert r.Unread()[0..0] == [];
    } else {
      var _ := ParseIsStretch(r.Unread());
      hide Parse, Slot;
    }
  }

  lemma ParseIsStretch(s: seq<byte>) returns (i: nat)
    requires |s| >= PIPE_PACKET_HEADER_SIZE
    ensures Parse(s).Accepted? ==>
              i + |Parse(s).content| <= |s| && Parse(s).content == s[i..i + |Parse(s).content|]
  {
    hide DescriptorFromBytes, HeaderFromBytes;
    i := 0;
    if Parse(s).Accepted? {
      i := DescriptorFromBytes(s).DataOffset() + PIPE_HEADER_SIZE;
      assert s[DescriptorFromBytes(s).DataOffset()..][PIPE_HEADER_SIZE..] == s[i..];
    }
  }

  /** Codec round trip across the end of the area: from any index of an empty ring, a pushed payload is popped
      unchanged and the ring is empty again, at the index after the packet. */
  lemma PushThenPop(r: Ring, content: Payload)
    requires r.Valid() && r.inIndex == r.outIndex
    requires Push(r, content).1 == Pushed && !HidesContents(r, |content|)
    ensures Push(r, content).0.Valid()
    ensures var pushed := Push(r, content).0;
            Pop(pushed) == (pushed.(outIndex := pushed.inIndex), Returned(content))
  {
    hide Packet, Encodable, PacketSize, Parse, Slot;
    assert r.Unread() == [];
    PushAppends(r, [], content);
    assert [] + [content] == [content];
    var pushed := Push(r, content).0;
    PopRemovesHead(pushed, [content]);
    assert Represents(Pop(pushed).0, []);
  }

  /** A peer that wraps its end index to 0 and one that leaves it at the end of the area look the same to pop. */
  lemma EndIndexTolerance(out: nat, data: seq<byte>)
    requires 0 < out <= |data| < INT32_LIMIT
    ensures var kept, wrapped := Pop(Ring(|data|, out, data)), Pop(Ring(0, out, data));
            kept.1 == wrapped.1 && kept.0.outIndex == wrapped.0.outIndex
  {
    assert Ring(|data|, out, data).Unread() == Ring(0, out, data).Unread();
  }

  // ---------------------------------------------------------------------------------------------
  // GetMaximumPushSize
  // ---------------------------------------------------------------------------------------------

  /** With room for an empty packet, exactly the payloads up to the result fit, unless the cap lowered it. */
  lemma MaximumPushSizeIsTight(writable: nat, length: nat)
    requires writable >= 32
    ensures length <= MaximumPushSize(writable) ==> Encodable(length) && PacketSize(length) <= writable
    ensures MaximumPushSize(writable) < MAXIMUM_PUSH_SIZE && length > MaximumPushSize(writable) ==>
              PacketSize(length) > writable
  {
    var usable := writable - 32;
    assert usable - usable % 8 <= usable < usable - usable % 8 + 8;
    Align8IsLeast(PIPE_PACKET_HEADER_SIZE + length, 24 + MaximumPushSize(writable));
    Align8IsLeast(PIPE_PACKET_HEADER_SIZE + length, 24 + usable - usable % 8);
    Align8IsLeast(PIPE_PACKET_HEADER_SIZE + length, Align8(PIPE_PACKET_HEADER_SIZE + length));
  }

  /** Without that room the result is 0; and more space never yields a smaller result. */
  lemma MaximumPushSizeGrows(writable: nat, more: nat)
    requires writable <= more
    ensures writable < 40 ==> MaximumPushSize(writable) == 0
    ensures MaximumPushSize(writable) <= MaximumPushSize(more) <= MAXIMUM_PUSH_SIZE
  {}

  /** A push within the result fills the ring exactly only when little space is left. */
  lemma SizedPushFillsOnlySmallSpace(writable: nat, length: nat)
    requires writable >= 32 && length <= MaximumPushSize(writable) && PacketSize(length) == writable
    ensures writable <= 16416
  {
    MaximumPushSizeGrows(writable, writable);
    Align8IsLeast(PIPE_PACKET_HEADER_SIZE + length, 16408);
  }

  // ---------------------------------------------------------------------------------------------
  // Walking the trailers backwards
  // ---------------------------------------------------------------------------------------------

  /** The indices at which the packets of `q` begin and end, oldest first. */
  function Boundaries(n: nat, q: seq<Payload>, idx: nat): seq<nat> {
    [idx] + if q == [] then [] else Boundaries(n, q[1..], Advance(n, idx, PacketSize(|q[0]|)))
  }

  /** Number of bytes between the out index and `idx`. */
  function Distance(r: Ring, idx: nat): nat
    requires r.Valid() && idx <= |r.data|
  {
    r.(inIndex := idx).ReadSize()
  }

  /** Follows the low dwords of the trailers from index `idx` back to the out index. */
  function WalkBack(r: Ring, idx: nat): seq<nat>
    requires r.Valid() && idx <= |r.data|
    decreases Distance(r, idx)
  {
    if idx == r.outIndex || idx < TRAILER_SIZE then [idx]
    else
      var previous := FromLE(r.data[idx - TRAILER_SIZE..idx - TRAILER_SIZE + 4]);
      if previous <= |r.data| && Distance(r, previous) < Distance(r, idx)
      then WalkBack(r, previous) + [idx]
      else [idx]
  }

  lemma {:induction false} BoundariesAppend(n: nat, q: seq<Payload>, c: Payload, idx: nat)
    ensures Boundaries(n, q + [c], idx)
            == Boundaries(n, q, idx) + [Advance(n, EndIndex(n, q, idx), PacketSize(|c|))]
  {
    if q == [] {
      assert (q + [c])[1..] == [];
    } else {
      BoundariesAppend(n, q[1..], c, Advance(n, idx, PacketSize(|q[0]|)));
      assert (q + [c])[1..] == q[1..] + [c];
    }
  }

  lemma PacketSizeAligned(length: nat)
    ensures PacketSize(length) % 8 == 0 && PacketSize(length) >= 32
  {
    Align8IsLeast(PIPE_PACKET_HEADER_SIZE + length, 24);
    Align8IsLeast(PIPE_PACKET_HEADER_SIZE + length, Align8(PIPE_PACKET_HEADER_SIZE + length));
  }

  lemma {:induction false} WireAligned(n: nat, q: seq<Payload>, idx: nat)
    requires AllEncodable(q) && n % 8 == 0 && idx % 8 == 0
    ensures |Wire(n, q, idx)| % 8 == 0 && EndIndex(n, q, idx) % 8 == 0
  {
    hide Packet, PacketSize, Encodable, Advance;
    if q != [] {
      PacketSizeAligned(|q[0]|);
      AdvanceAligned(n, idx, PacketSize(|q[0]|));
      WireAligned(n, q[1..], Advance(n, idx, PacketSize(|q[0]|)));
    }
  }

  lemma DistanceOfAdvance(r: Ring, d: nat)
    requires r.Valid() && d <= r.ReadSize()
    ensures Advance(|r.data|, r.outIndex, d) <= |r.data|
    ensures Distance(r, Advance(|r.data|, r.outIndex, d)) == d
  {}

  lemma WireSplit(n: nat, q: seq<Payload>, k: nat, idx: nat)
    requires AllEncodable(q) && k < |q|
    ensures AllEncodable(q[..k]) && AllEncodable(q[..k + 1])
    ensures var start := EndIndex(n, q[..k], idx);
            && EndIndex(n, q[..k + 1], idx) == Advance(n, start, PacketSize(|q[k]|))
            && Wire(n, q[..k + 1], idx) == Wire(n, q[..k], idx) + Packet(q[k], start)
            && Wire(n, q[..k + 1], idx) <= Wire(n, q, idx)
  {
    hide Packet, PacketSize, Encodable, Slot;
    var p, c, rest := q[..k], q[k], q[k + 1..];
    assert q[..k + 1] == p + [c] && q == (p + [c]) + rest;
    WireConcat(n, p + [c], rest, idx);
    WireConcat(n, p, [c], idx);
    WireOfOne(n, c, EndIndex(n, p, idx));
  }

  /** Where the packet `q[k]` lies in the unread bytes, and its start and end as distances from the out index. */
  lemma PacketInUnread(r: Ring, q: seq<Payload>, k: nat)
    requires r.Valid() && Represents(r, q) && k < |q|
    ensures var start, end := EndIndex(|r.data|, q[..k], r.outIndex), EndIndex(|r.data|, q[..k + 1], r.outIndex);
            && start <= |r.data| && end <= |r.data|
            && Distance(r, end) == Distance(r, start) + PacketSize(|q[k]|) <= r.ReadSize()
            && end == Advance(|r.data|, r.outIndex, Distance(r, end))
            && r.Unread()[Distance(r, start)..Distance(r, end)] == Packet(q[k], start)
    ensures AllEncodable(q[..k + 1])
  {
    hide Packet, PacketSize, Encodable, Slot, Distance, Advance;
    var n, out := |r.data|, r.outIndex;
    WireSplit(n, q, k, out);
    EndIndexIsAdvance(n, q[..k], out);
    EndIndexIsAdvance(n, q[..k + 1], out);
    hide Wire, EndIndex;
    var a, packet := Wire(n, q[..k], out), Packet(q[k], EndIndex(n, q[..k], out));
    DistanceOfAdvance(r, |a|);
    DistanceOfAdvance(r, |a| + |packet|);
    assert r.Unread()[..|a| + |packet|] == a + packet;
  }

  /** The last eight unread bytes before an index of at least eight are not split by the end of the area. */
  lemma TailContiguous(r: Ring, d: nat, end: nat)
    requires r.Valid() && TRAILER_SIZE <= d <= r.ReadSize()
    requires end == Advance(|r.data|, r.outIndex, d) && TRAILER_SIZE <= end <= |r.data|
    ensures r.data[end - TRAILER_SIZE..end] == r.Unread()[d - TRAILER_SIZE..d]
  {
    forall j | end - TRAILER_SIZE <= j < end
      ensures r.data[j] == r.Unread()[d - end + j]
    {
      assert Slot(|r.data|, r.outIndex, d - end + j) == j;
    }
  }

  lemma LowDword(data: seq<byte>, end: nat, unread: seq<byte>, d: nat, packet: seq<byte>)
    requires TRAILER_SIZE <= end <= |data| && TRAILER_SIZE <= |packet| && d + |packet| <= |unread|
    requires unread[d..d + |packet|] == packet
    requires data[end - TRAILER_SIZE..end] == unread[d + |packet| - TRAILER_SIZE..d + |packet|]
    ensures data[end - TRAILER_SIZE..end - TRAILER_SIZE + 4]
            == packet[|packet| - TRAILER_SIZE..|packet| - TRAILER_SIZE + 4]
  {
    assert unread[d + |packet| - TRAILER_SIZE..d + |packet|] == unread[d..d + |packet|][|packet| - TRAILER_SIZE..];
    assert data[end - TRAILER_SIZE..end - TRAILER_SIZE + 4] == data[end - TRAILER_SIZE..end][..4];
    assert packet[|packet| - TRAILER_SIZE..|packet| - TRAILER_SIZE + 4] == packet[|packet| - TRAILER_SIZE..][..4];
  }

  /** The trailer of the packet that ends at `end` is one contiguous piece, and its low dword is that packet's start. */
  lemma TrailerOfLast(r: Ring, q: seq<Payload>, k: nat)
    requires r.Valid() && Represents(r, q) && k < |q|
    requires |r.data| % 8 == 0 && r.outIndex % 8 == 0
    ensures var n := |r.data|;
            var start, end := EndIndex(n, q[..k], r.outIndex), EndIndex(n, q[..k + 1], r.outIndex);
            && start <= n && TRAILER_SIZE <= end <= n
            && Distance(r, start) < Distance(r, end)
            && FromLE(r.data[end - TRAILER_SIZE..end - TRAILER_SIZE + 4]) == start
  {
    hide Packet, Wire, Encodable, EndIndex, PacketSize, FromLE, Slot, Represents, Distance;
    var n, out := |r.data|, r.outIndex;
    var start, end := EndIndex(n, q[..k], out), EndIndex(n, q[..k + 1], out);
    PacketInUnread(r, q, k);
    PacketSizeAligned(|q[k]|);
    WireAligned(n, q[..k + 1], out);
    var packet := Packet(q[k], start);
    TailContiguous(r, Distance(r, end), end);
    LowDword(r.data, end, r.Unread(), Distance(r, start), packet);
    TrailerOfPacket(q[k], start);
  }

  /** Walking back from the in index recovers every packet boundary and stops at the out index. */
  lemma WalkBackRecovers(r: Ring, q: seq<Payload>)
    requires r.Valid() && Represents(r, q)
    requires |r.data| % 8 == 0 && r.outIndex % 8 == 0
    ensures WalkBack(r, r.inIndex) == Boundaries(|r.data|, q, r.outIndex)
  {
    WalkBackPrefix(r, q, |q|);
    assert q[..|q|] == q;
    EndIndexIsAdvance(|r.data|, q, r.outIndex);
  }

  lemma {:induction false} WalkBackPrefix(r: Ring, q: seq<Payload>, k: nat)
    requires r.Valid() && Represents(r, q) && k <= |q|
    requires |r.data| % 8 == 0 && r.outIndex % 8 == 0
    ensures var end := EndIndex(|r.data|, q[..k], r.outIndex);
            end <= |r.data| && WalkBack(r, end) == Boundaries(|r.data|, q[..k], r.outIndex)
  {
    hide Packet, Wire, Encodable, PacketSize, Slot, WalkBack, Distance, FromLE;
    if k == 0 {
      WalkBackAtOut(r);
    } else {
      var start := EndIndex(|r.data|, q[..k - 1], r.outIndex);
      WalkBackPrefix(r, q, k - 1);
      TrailerOfLast(r, q, k - 1);
      WalkBackStep(r, start, EndIndex(|r.data|, q[..k], r.outIndex));
      BoundariesAppend(|r.data|, q[..k - 1], q[k - 1], r.outIndex);
      WireSplit(|r.data|, q, k - 1, r.outIndex);
      assert q[..k] == q[..k - 1] + [q[k - 1]];
    }
  }

  lemma WalkBackAtOut(r: Ring)
    requires r.Valid()
    ensures WalkBack(r, r.outIndex) == [r.outIndex]
  {}

  lemma WalkBackStep(r: Ring, start: nat, end: nat)
    requires r.Valid() && start <= |r.data| && TRAILER_SIZE <= end <= |r.data|
    requires Distance(r, start) < Distance(r, end)
    requires FromLE(r.data[end - TRAILER_SIZE..end - TRAILER_SIZE + 4]) == start
    ensures WalkBack(r, end) == WalkBack(r, start) + [end]
  {
    hide FromLE;
  }
}
