/**
 * The device object: two rings in one mapping, each a control page followed by a data area.
 * `view` stands for the memory-mapped accessor.
 */
module UioHvDevice {
  import opened Bytes
  import opened PipePacket
  import opened Ring
  import RingQueue
  import opened RingProtocol
  import WireFormat

  /** Size of `RingControlBlock`; In is its first word and Out its second, InterruptMask its third. */
  const CONTROL_BLOCK_SIZE: nat := 68
  const WORD: nat := 4

  datatype MemoryMapItem = MemoryMapItem(name: string, offset: nat, size: nat)

  /** The item the constructor looks for. */
  predicate IsRings(item: MemoryMapItem) {
    item.name == "txrx_rings" && item.offset == 0
  }

  lemma WriteInTwoPieces(data: seq<byte>, idx: nat, first: nat, bytes: seq<byte>)
    requires Splits(|data|, idx, first, |bytes|)
    ensures first <= |bytes| && idx + first <= |data|
    ensures var once := data[..idx] + bytes[..first] + data[idx + first..];
            bytes[first..] + once[|bytes| - first..] == Store(data, idx, bytes)
  {
    var once := data[..idx] + bytes[..first] + data[idx + first..];
    var twice := bytes[first..] + once[|bytes| - first..];
    forall j | 0 <= j < |data|
      ensures twice[j] == Store(data, idx, bytes)[j]
    {
      assert Slot(|data|, idx, Rank(|data|, idx, j)) == j;
    }
  }

  lemma ReadInTwoPieces(r: Ring)
    requires r.Valid()
    ensures var first := FirstReadSize(r, r.ReadSize());
            && 0 <= first <= r.ReadSize() && r.outIndex + first <= |r.data|
            && r.data[r.outIndex..r.outIndex + first] + r.data[..r.ReadSize() - first] == r.Unread()
  {}

  /** The two views agree but for `wordSize` bytes at `word` and `areaSize` bytes at `area`. */
  ghost predicate SameOutside(a: seq<byte>, b: seq<byte>, word: nat, wordSize: nat, area: nat, areaSize: nat) {
    && |a| == |b|
    && forall j :: 0 <= j < |a| && !(word <= j < word + wordSize) && !(area <= j < area + areaSize) ==> a[j] == b[j]
  }

  /** The ring in view `v` whose control page and `n`-byte data area start at these offsets. */
  function RingIn(v: seq<byte>, control: nat, area: nat, n: nat): (r: Ring)
    requires control + 2 * WORD <= |v| && area + n <= |v|
    ensures |r.data| == n
  {
    Ring(FromLE(v[control..control + WORD]), FromLE(v[control + WORD..control + 2 * WORD]), v[area..area + n])
  }

  /** In and Out are the first two little-endian words of the control page. */
  lemma ControlWords(v: seq<byte>, control: nat, area: nat, n: nat)
    requires control + 8 <= |v| && area + n <= |v|
    ensures var r := RingIn(v, control, area, n);
            && r.inIndex == WireFormat.Word32(v, control) && r.outIndex == WireFormat.Word32(v, control + 4)
            && forall i :: 0 <= i < n ==> r.data[i] == v[area + i]
  {
    hide FromLE;
    WireFormat.FourBytes(v[control..control + 4]);
    WireFormat.FourBytes(v[control + 4..control + 8]);
  }

  /** A change that touches neither the index words nor the data area of a ring leaves that ring alone. */
  lemma RingUntouched(a: seq<byte>, b: seq<byte>, word: nat, wordSize: nat, area: nat, areaSize: nat,
                      control: nat, data: nat, n: nat)
    requires SameOutside(a, b, word, wordSize, area, areaSize)
    requires control + 2 * WORD <= |a| && data + n <= |a|
    requires word + wordSize <= control || control + 2 * WORD <= word
    requires word + wordSize <= data || data + n <= word
    requires areaSize > 0 ==> area + areaSize <= control || control + 2 * WORD <= area
    requires areaSize > 0 ==> area + areaSize <= data || data + n <= area
    ensures RingIn(b, control, data, n) == RingIn(a, control, data, n)
  {
    hide FromLE;
    assert a[control..control + WORD] == b[control..control + WORD];
    assert a[control + WORD..control + 2 * WORD] == b[control + WORD..control + 2 * WORD];
    assert a[data..data + n] == b[data..data + n];
  }

  /** Writing one word of a control page sets that index and nothing else of the ring. */
  lemma WordWritten(a: seq<byte>, b: seq<byte>, control: nat, data: nat, n: nat, value: uint32, out: bool)
    requires control + 2 * WORD <= data && data + n <= |a|
    requires var word := if out then control + WORD else control;
             SameOutside(a, b, word, WORD, 0, 0) && b[word..word + WORD] == ToLE(value, WORD)
    ensures var r := RingIn(a, control, data, n);
            RingIn(b, control, data, n) == if out then r.(outIndex := value) else r.(inIndex := value)
  {
    hide FromLE, ToLE;
    assert a[data..data + n] == b[data..data + n];
    Pow256Values();
    DecodeEncode(value, WORD);
    if out {
      assert a[control..control + WORD] == b[control..control + WORD];
    } else {
      assert a[control + WORD..control + 2 * WORD] == b[control + WORD..control + 2 * WORD];
    }
  }

  /** An array write inside an area replaces that stretch of the area and leaves the rest of the view alone. */
  lemma AreaWritten(a: seq<byte>, b: seq<byte>, area: nat, n: nat, at: nat, bytes: seq<byte>)
    requires at + |bytes| <= n && area + n <= |a|
    requires SameOutside(a, b, area + at, |bytes|, 0, 0) && b[area + at..area + at + |bytes|] == bytes
    ensures b[area..area + n] == a[area..area + n][..at] + bytes + a[area..area + n][at + |bytes|..]
    ensures SameOutside(a, b, 0, 0, area, n)
  {}

  lemma SameOutsideTwice(a: seq<byte>, b: seq<byte>, c: seq<byte>, area: nat, n: nat)
    requires SameOutside(a, b, 0, 0, area, n) && SameOutside(b, c, 0, 0, area, n)
    ensures SameOutside(a, c, 0, 0, area, n)
  {}

  /** One write at the index and, when the packet does not fit before the end, one at the start of the area. */
  lemma TwoWrites(v0: seq<byte>, v1: seq<byte>, v2: seq<byte>, area: nat, n: nat, idx: nat, first: nat,
                  bytes: seq<byte>)
    requires area + n <= |v0| == |v1| == |v2| && Splits(n, idx, first, |bytes|)
    requires first <= |bytes| && idx + first <= n
    requires SameOutside(v0, v1, area + idx, first, 0, 0) && v1[area + idx..area + idx + first] == bytes[..first]
    requires if first == |bytes| then v2 == v1
             else SameOutside(v1, v2, area, |bytes| - first, 0, 0) && v2[area..area + |bytes| - first] == bytes[first..]
    ensures v2[area..area + n] == Store(v0[area..area + n], idx, bytes)
    ensures SameOutside(v0, v2, 0, 0, area, n)
  {
    hide SameOutside, Store;
    WriteInTwoPieces(v0[area..area + n], idx, first, bytes);
    AreaWritten(v0, v1, area, n, idx, bytes[..first]);
    if first < |bytes| {
      AreaWritten(v1, v2, area, n, 0, bytes[first..]);
      SameOutsideTwice(v0, v1, v2, area, n);
    }
  }

  lemma FinalInOfPush(r: Ring, size: nat)
    requires r.Valid() && 0 < size <= r.WriteSize()
    ensures var second := size - FirstWriteSize(r, size);
            (if second > 0 then second else r.inIndex + size) == Advance(|r.data|, r.inIndex, size) <= |r.data|
  {}

  /** Storing the packet and then publishing the in index is a push on the ring; only that word and that area change. */
  lemma PushAssembled(v0: seq<byte>, v1: seq<byte>, v2: seq<byte>, control: nat, area: nat, n: nat,
                      content: seq<byte>, finalOffset: uint32)
    requires control + 2 * WORD <= area && area + n <= |v0|
    requires RingIn(v0, control, area, n).Valid()
    requires Push(RingIn(v0, control, area, n), content).1 == Pushed
    requires SameOutside(v0, v1, 0, 0, area, n) && SameOutside(v1, v2, control, WORD, 0, 0)
    requires var r := RingIn(v0, control, area, n);
             && v1[area..area + n] == Store(r.data, r.inIndex, Packet(content, r.inIndex))
             && v2[control..control + WORD] == ToLE(finalOffset, WORD)
             && finalOffset == Advance(n, r.inIndex, PacketSize(|content|))
    ensures RingIn(v2, control, area, n) == Push(RingIn(v0, control, area, n), content).0
    ensures SameOutside(v0, v2, control, WORD, area, n)
  {
    hide FromLE, ToLE, Packet, Encodable, PacketSize, Store, Advance;
    WordWritten(v1, v2, control, area, n, finalOffset, false);
    assert v0[control + WORD..control + 2 * WORD] == v1[control + WORD..control + 2 * WORD];
  }

  lemma SliceOfSlice(v: seq<byte>, area: nat, n: nat, i: nat, j: nat)
    requires area + n <= |v| && i <= j <= n
    ensures v[area..area + n][i..j] == v[area + i..area + j]
  {
    var part := v[area..area + n];
    forall k | 0 <= k < j - i
      ensures part[i..j][k] == v[area + i..area + j][k]
    {
      assert part[i + k] == v[area + i + k];
    }
  }

  lemma TwoPieces(v: seq<byte>, area: nat, n: nat, out: nat, first: nat, b0: seq<byte>, b1: seq<byte>, b2: seq<byte>)
    requires area + n <= |v| && out + first <= n && first <= |b0| <= n
    requires b1 == b0[..0] + v[area + out..area + out + first] + b0[first..]
    requires b2 == b1[..first] + v[area..area + (|b0| - first)] + b1[|b0|..]
    ensures b2 == v[area..area + n][out..out + first] + v[area..area + n][..|b0| - first]
  {
    SliceOfSlice(v, area, n, out, out + first);
    SliceOfSlice(v, area, n, 0, |b0| - first);
    assert |b1| == |b0| && b1[|b0|..] == [];
  }

  /** The two reads of a pop put the unread bytes into the buffer in order. */
  lemma TwoReads(r: Ring, v: seq<byte>, area: nat, b0: seq<byte>, b1: seq<byte>, b2: seq<byte>)
    requires r.Valid() && area + |r.data| <= |v| && r.data == v[area..area + |r.data|]
    requires |b0| == r.ReadSize()
    requires var first := FirstReadSize(r, r.ReadSize());
             && 0 <= first <= r.ReadSize() && r.outIndex + first <= |r.data|
             && b1 == b0[..0] + v[area + r.outIndex..area + r.outIndex + first] + b0[first..]
             && b2 == b1[..first] + v[area..area + (|b0| - first)] + b1[|b0|..]
    ensures b2 == r.Unread()
  {
    hide Slot, FirstReadSize;
    ReadInTwoPieces(r);
    var first := FirstReadSize(r, r.ReadSize());
    TwoPieces(v, area, |r.data|, r.outIndex, first, b0, b1, b2);
  }

  /** Publishing the out index of the parsed packet is a pop on the ring. */
  lemma PopAssembled(v0: seq<byte>, v1: seq<byte>, control: nat, area: nat, n: nat, finalOffset: uint32)
    requires control + 2 * WORD <= area && area + n <= |v0|
    requires RingIn(v0, control, area, n).Valid()
    requires SameOutside(v0, v1, control + WORD, WORD, 0, 0)
    requires v1[control + WORD..control + 2 * WORD] == ToLE(finalOffset, WORD)
    requires var r := RingIn(v0, control, area, n);
             && r.ReadSize() >= PIPE_PACKET_HEADER_SIZE && Parse(r.Unread()).Accepted?
             && finalOffset == Advance(n, r.outIndex, Parse(r.Unread()).size)
    ensures var r := RingIn(v0, control, area, n);
            (RingIn(v1, control, area, n), Returned(Parse(r.Unread()).content)) == Pop(r)
  {
    hide FromLE, ToLE, Parse, Advance;
    WordWritten(v0, v1, control, area, n, finalOffset, true);
  }

  lemma RejectedPop(r: Ring)
    requires r.Valid() && r.ReadSize() >= PIPE_PACKET_HEADER_SIZE && Parse(r.Unread()).Rejected?
    ensures Pop(r) == (r, Threw(Parse(r.Unread()).error))
  {}

  lemma NothingToPop(r: Ring)
    requires r.Valid() && r.ReadSize() < PIPE_PACKET_HEADER_SIZE
    ensures Pop(r) == (r, Returned([]))
  {}

  /** The first mapping that holds the rings (HvGin/UioHvDevice.cs:275-280); -1 if there is none. */
  method FindRings(items: seq<MemoryMapItem>) returns (index: int)
    ensures -1 <= index < |items|
    ensures index >= 0 ==> IsRings(items[index]) && forall i :: 0 <= i < index ==> !IsRings(items[i])
    ensures index < 0 ==> forall i :: 0 <= i < |items| ==> !IsRings(items[i])
  {
    index := 0;
    while index < |items|
      invariant 0 <= index <= |items|
      invariant forall i :: 0 <= i < index ==> !IsRings(items[i])
    {
      if items[index].name != "txrx_rings" || items[index].offset != 0 {
        index := index + 1;
        continue;
      }
      return;
    }
    index := -1;
  }

  /** With room for an empty packet exactly the payloads up to `size` can be pushed, unless the cap lowered it; without
      that room nothing can be pushed and `size` is 0. */
  ghost predicate IsPushBound(r: Ring, size: nat)
    requires r.Valid()
  {
    && size <= MAXIMUM_PUSH_SIZE
    && (r.WriteSize() >= 32 ==> forall c: seq<byte> :: |c| <= size ==> Push(r, c).1 == Pushed)
    && (size < MAXIMUM_PUSH_SIZE ==> forall c: seq<byte> :: |c| > size ==> Push(r, c).1 != Pushed)
    && (r.WriteSize() < 32 ==> size == 0 && forall c: seq<byte> :: Push(r, c).1 != Pushed)
  }

  lemma MaximumIsPushBound(r: Ring)
    requires r.Valid()
    ensures IsPushBound(r, MaximumPushSize(r.WriteSize()))
  {
    hide Encodable, PacketSize, Packet, Store, MaximumPushSize;
    var writable := r.WriteSize();
    var size := MaximumPushSize(writable);
    RingQueue.MaximumPushSizeGrows(writable, writable);
    forall c: seq<byte>
      ensures writable < 32 ==> Push(r, c).1 != Pushed
      ensures writable >= 32 && |c| <= size ==> Push(r, c).1 == Pushed
      ensures size < MAXIMUM_PUSH_SIZE && |c| > size ==> Push(r, c).1 != Pushed
    {
      RingQueue.PushRejects(r, c);
      RingQueue.PacketSizeAligned(|c|);
      if writable >= 32 { RingQueue.MaximumPushSizeIsTight(writable, |c|); }
    }
  }

  class Device {
    const view: array<byte>
    const ringBufferSize: nat
    const controlMaximumSize: nat
    const dataMaximumSize: nat
    const outgoingControlOffset: nat
    const outgoingDataOffset: nat
    const incomingControlOffset: nat
    const incomingDataOffset: nat

    ghost predicate Layout() {
      && CONTROL_BLOCK_SIZE <= controlMaximumSize
      && 0 < dataMaximumSize < INT32_LIMIT
      && ringBufferSize == controlMaximumSize + dataMaximumSize
      && outgoingControlOffset == 0
      && outgoingDataOffset == controlMaximumSize
      && incomingControlOffset == ringBufferSize
      && incomingDataOffset == ringBufferSize + controlMaximumSize
      && 2 * ringBufferSize <= view.Length
    }

    function Outgoing(): (r: Ring)
      requires Layout()
      reads view
      ensures |r.data| == dataMaximumSize
    {
      RingIn(view[..], outgoingControlOffset, outgoingDataOffset, dataMaximumSize)
    }

    function Incoming(): (r: Ring)
      requires Layout()
      reads view
      ensures |r.data| == dataMaximumSize
    {
      RingIn(view[..], incomingControlOffset, incomingDataOffset, dataMaximumSize)
    }

    /** Both ends keep their indices inside the data areas. */
    ghost predicate Valid()
      reads view
    {
      Layout() && Outgoing().Valid() && Incoming().Valid()
    }

    /** Splits the mapping into two halves, each a control page and a data area, and clears the incoming
        interrupt mask (HvGin/UioHvDevice.cs:282-303). The indices the rings hold are left as they are. */
    constructor (item: MemoryMapItem, pageSize: nat, view: array<byte>)
      requires IsRings(item) && view.Length == item.size
      requires CONTROL_BLOCK_SIZE <= pageSize < item.size / 2 < INT32_LIMIT
      modifies view
      ensures this.view == view && Layout()
      ensures 2 * (pageSize + dataMaximumSize) <= item.size <= 2 * (pageSize + dataMaximumSize) + 1
      ensures var n := dataMaximumSize;
              && Outgoing() == RingIn(old(view[..]), 0, pageSize, n)
              && Incoming() == RingIn(old(view[..]), pageSize + n, 2 * pageSize + n, n)
      ensures var mask := incomingControlOffset + 2 * WORD;
              view[..][mask..mask + WORD] == ToLE(0, WORD) && SameOutside(old(view[..]), view[..], mask, WORD, 0, 0)
    {
      this.view := view;
      ringBufferSize := item.size / 2;
      controlMaximumSize := pageSize;
      dataMaximumSize := item.size / 2 - pageSize;
      outgoingControlOffset := 0;
      outgoingDataOffset := pageSize;
      incomingControlOffset := item.size / 2;
      incomingDataOffset := item.size / 2 + pageSize;
      new;
      hide ToLE, FromLE, SameOutside;
      ghost var before := view[..];
      var mask := incomingControlOffset + 2 * WORD;
      WriteWord(mask, 0);
      RingUntouched(before, view[..], mask, WORD, 0, 0, outgoingControlOffset, outgoingDataOffset, dataMaximumSize);
      RingUntouched(before, view[..], mask, WORD, 0, 0, incomingControlOffset, incomingDataOffset, dataMaximumSize);
    }

    /** `Accessor.Write` of one word. */
    method WriteWord(position: nat, value: uint32)
      requires position + WORD <= view.Length
      modifies view
      ensures view[..][position..position + WORD] == ToLE(value, WORD)
      ensures SameOutside(old(view[..]), view[..], position, WORD, 0, 0)
    {
      hide ToLE;
      var bytes := ToLE(value, WORD);
      var i := 0;
      while i < WORD
        invariant 0 <= i <= WORD
        invariant view[..][position..position + i] == bytes[..i]
        invariant SameOutside(old(view[..]), view[..], position, WORD, 0, 0)
      {
        view[position + i] := bytes[i];
        i := i + 1;
      }
    }

    /** `Accessor.WriteArray`. */
    method WriteArray(position: nat, source: array<byte>, offset: nat, count: nat)
      requires position + count <= view.Length && offset + count <= source.Length && source != view
      modifies view
      ensures view[..][position..position + count] == source[..][offset..offset + count]
      ensures SameOutside(old(view[..]), view[..], position, count, 0, 0)
    {
      var i := 0;
      while i < count
        invariant 0 <= i <= count
        invariant view[..][position..position + i] == source[..][offset..offset + i]
        invariant SameOutside(old(view[..]), view[..], position, count, 0, 0)
      {
        view[position + i] := source[offset + i];
        i := i + 1;
      }
    }

    /** `Accessor.ReadArray`. */
    method ReadArray(position: nat, target: array<byte>, offset: nat, count: nat)
      requires position + count <= view.Length && offset + count <= target.Length && target != view
      modifies target
      ensures target[..] == old(target[..offset]) + view[..][position..position + count] + old(target[offset + count..])
    {
      var i := 0;
      while i < count
        invariant 0 <= i <= count
        invariant forall j :: offset <= j < offset + i ==> target[j] == view[position + j - offset]
        invariant forall j :: 0 <= j < target.Length && !(offset <= j < offset + i) ==> target[j] == old(target[j])
      {
        target[offset + i] := view[position + i];
        i := i + 1;
      }
    }

    /** The sizes of the two pieces of a write (HvGin/UioHvDevice.cs:193-204). */
    method WriteSizes(control: Ring, size: nat) returns (firstWriteSize: nat, secondWriteSize: nat)
      requires control.Valid() && size <= control.WriteSize() && |control.data| == dataMaximumSize
      ensures firstWriteSize + secondWriteSize == size && firstWriteSize == FirstWriteSize(control, size)
      ensures Splits(dataMaximumSize, control.inIndex, firstWriteSize, size)
      ensures control.inIndex + firstWriteSize <= dataMaximumSize
    {
      firstWriteSize, secondWriteSize := size, 0;
      if control.inIndex >= control.outIndex {
        var fragileSize := dataMaximumSize - control.inIndex;
        if fragileSize < size {
          firstWriteSize := fragileSize;
          secondWriteSize := size - fragileSize;
        }
      }
    }

    /** Copies a packet into the outgoing data area in one or two pieces (HvGin/UioHvDevice.cs:205-217). */
    method WritePacket(packetBytes: array<byte>, control: Ring) returns (secondWriteSize: nat)
      requires Layout() && packetBytes != view && control.Valid()
      requires control.data == view[..][outgoingDataOffset..outgoingDataOffset + dataMaximumSize]
      requires packetBytes.Length <= control.WriteSize()
      modifies view
      ensures view[..][outgoingDataOffset..outgoingDataOffset + dataMaximumSize]
              == Store(control.data, control.inIndex, packetBytes[..])
      ensures SameOutside(old(view[..]), view[..], 0, 0, outgoingDataOffset, dataMaximumSize)
      ensures secondWriteSize == packetBytes.Length - FirstWriteSize(control, packetBytes.Length)
    {
      hide Store, Slot, SameOutside, Splits, FirstWriteSize;
      ghost var v0, bytes := view[..], packetBytes[..];
      var firstWriteSize;
      firstWriteSize, secondWriteSize := WriteSizes(control, packetBytes.Length);
      WriteArray(outgoingDataOffset + control.inIndex, packetBytes, 0, firstWriteSize);
      ghost var v1 := view[..];
      assert bytes[0..firstWriteSize] == bytes[..firstWriteSize];
      assert bytes[firstWriteSize..firstWriteSize + secondWriteSize] == bytes[firstWriteSize..];
      if secondWriteSize > 0 {
        WriteArray(outgoingDataOffset, packetBytes, firstWriteSize, secondWriteSize);
      }
      TwoWrites(v0, v1, view[..], outgoingDataOffset, dataMaximumSize, control.inIndex, firstWriteSize, bytes);
    }

    /** The sizes of the two pieces of a read (HvGin/UioHvDevice.cs:70-81). */
    method ReadSizes(control: Ring) returns (firstReadSize: nat, secondReadSize: nat)
      requires control.Valid() && |control.data| == dataMaximumSize
      ensures firstReadSize + secondReadSize == control.ReadSize()
      ensures firstReadSize == FirstReadSize(control, control.ReadSize())
      ensures control.outIndex + firstReadSize <= dataMaximumSize
    {
      firstReadSize, secondReadSize := control.ReadSize(), 0;
      if control.inIndex < control.outIndex {
        var fragileSize := dataMaximumSize - control.outIndex;
        if fragileSize < control.ReadSize() {
          firstReadSize := fragileSize;
          secondReadSize := control.ReadSize() - fragileSize;
        }
      }
    }

    /** Copies out everything unread, in one or two pieces (HvGin/UioHvDevice.cs:82-95). */
    method ReadAvailable(control: Ring) returns (availableBytes: seq<byte>)
      requires Layout() && control.Valid()
      requires control.data == view[..][incomingDataOffset..incomingDataOffset + dataMaximumSize]
      ensures availableBytes == control.Unread()
    {
      hide FirstReadSize, Slot, FromLE, RingIn;
      var firstReadSize, secondReadSize := ReadSizes(control);
      var buffer := new byte[control.ReadSize()](_ => 0);
      ghost var b0 := buffer[..];
      ReadArray(incomingDataOffset + control.outIndex, buffer, 0, firstReadSize);
      ghost var b1 := buffer[..];
      if secondReadSize > 0 {
        ReadArray(incomingDataOffset, buffer, firstReadSize, secondReadSize);
      }
      availableBytes := buffer[..];
      TwoReads(control, view[..], incomingDataOffset, b0, b1, availableBytes);
    }

    /** The new out index (HvGin/UioHvDevice.cs:128-139). */
    method FinalOutOffset(control: Ring, actualPacketSize: nat) returns (finalOffset: nat)
      requires control.Valid() && |control.data| == dataMaximumSize && actualPacketSize <= control.ReadSize()
      ensures finalOffset == Advance(dataMaximumSize, control.outIndex, actualPacketSize) <= dataMaximumSize
    {
      finalOffset := control.outIndex + actualPacketSize;
      if control.inIndex < control.outIndex {
        var fragileSize := dataMaximumSize - control.outIndex;
        if fragileSize < actualPacketSize {
          finalOffset := actualPacketSize - fragileSize;
        }
      }
    }

    /** `GetMaximumPushSize`. */
    method GetMaximumPushSize() returns (size: nat)
      requires Valid()
      ensures IsPushBound(Outgoing(), size)
    {
      hide IsPushBound, TruncatedRem, RingIn;
      var control := Outgoing();
      MaximumIsPushBound(control);
      var availableSize := control.WriteSize() - (PIPE_PACKET_HEADER_SIZE + TRAILER_SIZE);
      availableSize := availableSize - TruncatedRem(availableSize, TRAILER_SIZE);
      size := if availableSize < 0 then 0 else if availableSize < MAXIMUM_PUSH_SIZE then availableSize
              else MAXIMUM_PUSH_SIZE;
    }

    /** `PushPipePacket`: one sequential push on the outgoing ring. Nothing outside the outgoing In word and
        the outgoing data area changes. */
    method PushPipePacket(content: seq<byte>) returns (result: PushResult)
      requires Valid()
      modifies view
      ensures Valid()
      ensures (Outgoing(), result) == Push(old(Outgoing()), content)
      ensures SameOutside(old(view[..]), view[..], outgoingControlOffset, WORD, outgoingDataOffset, dataMaximumSize)
    {
      if !Encodable(|content|) {
        return LengthOverflow;
      }
      var control := Outgoing();
      if control.WriteSize() < PacketSize(|content|) {
        return InsufficientSpace;
      }
      hide FromLE, ToLE, Packet, Encodable, Store, Push, PacketSize, SameOutside, Slot;
      ghost var v0 := view[..];
      var packetBytes := BuildPacket(content, control.inIndex);
      var secondWriteSize := WritePacket(packetBytes, control);
      var finalOffset := if secondWriteSize > 0 then secondWriteSize else control.inIndex + packetBytes.Length;
      FinalInOfPush(control, packetBytes.Length);
      ghost var v1 := view[..];
      WriteWord(outgoingControlOffset, finalOffset);
      PushAssembled(v0, v1, view[..], outgoingControlOffset, outgoingDataOffset, dataMaximumSize, content, finalOffset);
      RingUntouched(v0, view[..], outgoingControlOffset, WORD, outgoingDataOffset, dataMaximumSize,
                    incomingControlOffset, incomingDataOffset, dataMaximumSize);
      result := Pushed;
    }

    /** `PopPipePacket`: one sequential pop on the incoming ring. Nothing but the incoming Out word changes. */
    method PopPipePacket() returns (result: PopResult)
      requires Valid()
      modifies view
      ensures Valid()
      ensures (Incoming(), result) == Pop(old(Incoming()))
      ensures SameOutside(old(view[..]), view[..], incomingControlOffset + WORD, WORD, 0, 0)
    {
      var control := Incoming();
      if control.ReadSize() < PIPE_PACKET_HEADER_SIZE {
        NothingToPop(control);
        return Returned([]);
      }
      hide FromLE, ToLE, Parse, SameOutside, Advance, Pop;
      var availableBytes := ReadAvailable(control);
      var parsed := Parse(availableBytes);
      if parsed.Rejected? {
        RejectedPop(control);
        return Threw(parsed.error);
      }
      var finalOffset := FinalOutOffset(control, parsed.size);
      ghost var v0 := view[..];
      WriteWord(incomingControlOffset + WORD, finalOffset);
      PopAssembled(v0, view[..], incomingControlOffset, incomingDataOffset, dataMaximumSize, finalOffset);
      RingUntouched(v0, view[..], incomingControlOffset + WORD, WORD, 0, 0,
                    outgoingControlOffset, outgoingDataOffset, dataMaximumSize);
      result := Returned(parsed.content);
    }
  }

  /** `buffer` with `source` copied over the bytes from `offset` on. */
  function Splice(buffer: seq<byte>, offset: nat, source: seq<byte>): (r: seq<byte>)
    requires offset + |source| <= |buffer|
    ensures |r| == |buffer|
  {
    buffer[..offset] + source + buffer[offset + |source|..]
  }

  /** `Array.CopyTo`. */
  method CopyTo(source: seq<byte>, target: array<byte>, offset: nat)
    requires offset + |source| <= target.Length
    modifies target
    ensures target[..] == Splice(old(target[..]), offset, source)
  {
    var i := 0;
    while i < |source|
      invariant 0 <= i <= |source|
      invariant forall j :: offset <= j < offset + i ==> target[j] == source[j - offset]
      invariant forall j :: 0 <= j < target.Length && !(offset <= j < offset + i) ==> target[j] == old(target[j])
    {
      target[offset + i] := source[i];
      i := i + 1;
    }
  }

  /** Builds the bytes of a packet in a zeroed buffer (HvGin/UioHvDevice.cs:180-192). */
  method BuildPacket(content: seq<byte>, start: uint32) returns (packetBytes: array<byte>)
    requires Encodable(|content|)
    ensures fresh(packetBytes) && packetBytes[..] == Packet(content, start)
  {
    PacketRoom(|content|);
    hide ToLE, Encodable, PacketSize, PushDescriptor, Packet, Splice;
    var descriptor := PushDescriptor(|content|).ToBytes();
    var header := PipeHeader(PIPE_DATA, |content|).ToBytes();
    packetBytes := new byte[PacketSize(|content|)](_ => 0);
    assert packetBytes[..] == Zeros(packetBytes.Length);
    CopyTo(descriptor, packetBytes, 0);
    CopyTo(header, packetBytes, DESCRIPTOR_SIZE);
    CopyTo(content, packetBytes, PIPE_PACKET_HEADER_SIZE);
    CopyTo(ToLE(start, WORD), packetBytes, packetBytes.Length - TRAILER_SIZE);
    PacketAssembled(content, start);
  }

  lemma PacketRoom(length: nat)
    requires Encodable(length)
    ensures length < UINT32_LIMIT
    ensures PacketSize(length) >= PIPE_PACKET_HEADER_SIZE + length + TRAILER_SIZE
  {}

  /** The four copies into a zeroed buffer make up the packet: padding and the upper trailer half stay zero. */
  lemma PacketAssembled(content: seq<byte>, start: uint32)
    requires Encodable(|content|)
    ensures |content| < UINT32_LIMIT
    ensures PacketSize(|content|) >= PIPE_PACKET_HEADER_SIZE + |content| + TRAILER_SIZE
    ensures var size := PacketSize(|content|);
            var b1 := Splice(Zeros(size), 0, PushDescriptor(|content|).ToBytes());
            var b2 := Splice(b1, DESCRIPTOR_SIZE, PipeHeader(PIPE_DATA, |content|).ToBytes());
            var b3 := Splice(b2, PIPE_PACKET_HEADER_SIZE, content);
            Splice(b3, size - TRAILER_SIZE, ToLE(start, WORD)) == Packet(content, start)
  {
    PacketRoom(|content|);
    hide ToLE, Encodable, Align8, PushDescriptor, Splice, Zeros;
    SplicedParts(PushDescriptor(|content|).ToBytes(), PipeHeader(PIPE_DATA, |content|).ToBytes(), content,
                 ToLE(start, WORD), PacketSize(|content|));
  }

  lemma SplicedParts(d: seq<byte>, h: seq<byte>, content: seq<byte>, word: seq<byte>, size: nat)
    requires |d| == DESCRIPTOR_SIZE && |h| == PIPE_HEADER_SIZE && |word| == WORD
    requires size >= PIPE_PACKET_HEADER_SIZE + |content| + TRAILER_SIZE
    ensures var b1 := Splice(Zeros(size), 0, d);
            var b2 := Splice(b1, DESCRIPTOR_SIZE, h);
            var b3 := Splice(b2, PIPE_PACKET_HEADER_SIZE, content);
            Splice(b3, size - TRAILER_SIZE, word)
            == d + h + content + Zeros(size - PIPE_PACKET_HEADER_SIZE - |content| - TRAILER_SIZE) + (word + Zeros(4))
  {
    hide Splice, Zeros;
    assert [] + Zeros(size) == Zeros(size) && [] + d == d;
    SpliceZeros([], size, d);
    SpliceZeros(d, size - DESCRIPTOR_SIZE, h);
    SpliceZeros(d + h, size - PIPE_PACKET_HEADER_SIZE, content);
    SpliceTail(d + h + content, size - PIPE_PACKET_HEADER_SIZE - |content|, word);
  }

  lemma SpliceZeros(head: seq<byte>, zeros: nat, source: seq<byte>)
    requires |source| <= zeros
    ensures Splice(head + Zeros(zeros), |head|, source) == head + source + Zeros(zeros - |source|)
  {}

  lemma SpliceTail(head: seq<byte>, zeros: nat, word: seq<byte>)
    requires |word| == WORD && zeros >= TRAILER_SIZE
    ensures Splice(head + Zeros(zeros), |head| + zeros - TRAILER_SIZE, word)
            == head + Zeros(zeros - TRAILER_SIZE) + (word + Zeros(4))
  {}
}
