/**
 * Producer and consumer of one ring running concurrently.
 *
 * Each call is split into a snapshot of the control block, one step per copied byte, and one step
 * that publishes an index; a run is any sequence of such steps. Memory is sequentially consistent.
 */
module RingProtocol {
  import opened Bytes
  import opened PipePacket
  import opened Ring
  import opened RingQueue

  datatype Producer =
    | Ready
    | Writing(content: Payload, start: nat, firstSize: nat, packet: seq<byte>, copied: nat)

  datatype Consumer =
    | Waiting
    | Reading(inSeen: nat, outSeen: nat, firstSize: nat, available: nat, copied: seq<byte>)

  /** Shared ring and private states; the last four fields only record the history. */
  datatype State = State(
    ring: Ring,
    producer: Producer,
    consumer: Consumer,
    pushed: seq<Payload>,
    popped: seq<Payload>,
    written: nat,
    read: nat)

  datatype Action =
    | BeginPush(content: Payload)
    | WriteByte
    | PublishIn
    | BeginPop
    | ReadByte
    | PublishOut

  function Init(data: seq<byte>): State {
    State(Ring(0, 0, data), Ready, Waiting, [], [], 0, 0)
  }

  /** `FirstWriteSize` (HvGin/UioHvDevice.cs:193-204). */
  function FirstWriteSize(r: Ring, size: nat): (first: int) {
    if r.inIndex >= r.outIndex && |r.data| - r.inIndex < size then |r.data| - r.inIndex else size
  }

  /** `FirstReadSize` (HvGin/UioHvDevice.cs:70-81). */
  function FirstReadSize(r: Ring, available: nat): (first: int) {
    if r.inIndex < r.outIndex && |r.data| - r.outIndex < available then |r.data| - r.outIndex else available
  }

  /** Offset touched by byte `i` of a transfer in two pieces. */
  function TransferOffset(start: nat, firstSize: nat, i: nat): nat {
    if i < firstSize then start + i else i - firstSize
  }

  /** The in index a push publishes (HvGin/UioHvDevice.cs:218-221). */
  function FinalIn(start: nat, firstSize: nat, size: nat): nat {
    if firstSize < size then size - firstSize else start + size
  }

  /** The out index a pop publishes (HvGin/UioHvDevice.cs:128-139). */
  function FinalOut(n: nat, inSeen: nat, outSeen: nat, size: nat): int {
    if inSeen < outSeen && n - outSeen < size then size - (n - outSeen) else outSeen + size
  }

  /** One step; an action whose owner is not at the matching statement changes nothing. */
  function Step(s: State, a: Action): (t: State)
    requires s.ring.Valid()
    ensures t.ring.Valid() && |t.ring.data| == |s.ring.data|
  {
    var n := |s.ring.data|;
    match a
    case BeginPush(content) =>
      if s.producer.Ready? && Encodable(|content|) && PacketSize(|content|) <= s.ring.WriteSize()
      then s.(producer := Writing(content, s.ring.inIndex, FirstWriteSize(s.ring, PacketSize(|content|)),
                                  Packet(content, s.ring.inIndex), 0))
      else s
    case WriteByte =>
      if s.producer.Writing? && s.producer.copied < |s.producer.packet|
         && TransferOffset(s.producer.start, s.producer.firstSize, s.producer.copied) < n
      then
        var p := s.producer;
        s.(ring := s.ring.(data := s.ring.data[TransferOffset(p.start, p.firstSize, p.copied) := p.packet[p.copied]]),
           producer := p.(copied := p.copied + 1))
      else s
    case PublishIn =>
      if s.producer.Writing? && s.producer.copied == |s.producer.packet|
         && FinalIn(s.producer.start, s.producer.firstSize, |s.producer.packet|) <= n
      then
        var p := s.producer;
        s.(ring := s.ring.(inIndex := FinalIn(p.start, p.firstSize, |p.packet|)),
           producer := Ready,
           pushed := s.pushed + [p.content],
           written := s.written + |p.packet|)
      else s
    case BeginPop =>
      if s.consumer.Waiting? && s.ring.ReadSize() >= PIPE_PACKET_HEADER_SIZE
      then
        var available := s.ring.ReadSize();
        s.(consumer := Reading(s.ring.inIndex, s.ring.outIndex, FirstReadSize(s.ring, available), available, []))
      else s
    case ReadByte =>
      if s.consumer.Reading? && |s.consumer.copied| < s.consumer.available
         && TransferOffset(s.consumer.outSeen, s.consumer.firstSize, |s.consumer.copied|) < n
      then
        var c := s.consumer;
        s.(consumer := c.(copied := c.copied + [s.ring.data[TransferOffset(c.outSeen, c.firstSize, |c.copied|)]]))
      else s
    case PublishOut =>
      if s.consumer.Reading? && |s.consumer.copied| == s.consumer.available >= PIPE_PACKET_HEADER_SIZE
      then
        var c := s.consumer;
        match Parse(c.copied)
        case Rejected(_) => s.(consumer := Waiting)
        case Accepted(content, size) =>
          if 0 <= FinalOut(n, c.inSeen, c.outSeen, size) <= n
          then s.(ring := s.ring.(outIndex := FinalOut(n, c.inSeen, c.outSeen, size)),
                  consumer := Waiting,
                  popped := s.popped + [content],
                  read := s.read + size)
          else s
      else s
  }

  function Run(s: State, actions: seq<Action>): (t: State)
    requires s.ring.Valid()
    ensures t.ring.Valid() && |t.ring.data| == |s.ring.data|
    decreases |actions|
  {
    if actions == [] then s else Run(Step(s, actions[0]), actions[1..])
  }

  // ---------------------------------------------------------------------------------------------
  // The invariant
  // ---------------------------------------------------------------------------------------------

  /** Payloads pushed and not yet popped. */
  function Outstanding(s: State): seq<Payload>
    requires |s.popped| <= |s.pushed|
  {
    s.pushed[|s.popped|..]
  }

  ghost predicate QueueInv(s: State)
    requires s.ring.Valid()
  {
    && s.popped <= s.pushed
    && Represents(s.ring, Outstanding(s))
  }

  /** Alignment and closed form of the two indices. */
  ghost predicate IndexLaw(s: State)
    requires s.ring.Valid()
  {
    var n := |s.ring.data|;
    && n % 8 == 0 && s.ring.inIndex % 8 == 0 && s.ring.outIndex % 8 == 0
    && s.ring.inIndex == IndexOf(n, s.written)
    && s.ring.outIndex == IndexOf(n, s.read)
  }

  /** Moreover the reported read size is the difference of the totals. */
  ghost predicate IndexInv(s: State)
    requires s.ring.Valid()
  {
    IndexLaw(s) && s.written == s.read + s.ring.ReadSize()
  }

  /** A transfer of `size` bytes from index `start` is cut at the end of the area and nowhere else. */
  predicate Splits(n: nat, start: nat, firstSize: nat, size: nat) {
    && start <= n && size <= n
    && if start + size <= n then firstSize == size else firstSize == n - start
  }

  ghost predicate ProducerInv(s: State)
    requires s.ring.Valid()
  {
    match s.producer
    case Ready => true
    case Writing(content, start, firstSize, packet, copied) =>
      && start == s.ring.inIndex
      && Encodable(|content|) && packet == Packet(content, start)
      && |packet| <= s.ring.WriteSize()
      && Splits(|s.ring.data|, start, firstSize, |packet|)
      && copied <= |packet|
      && forall i :: 0 <= i < copied ==> s.ring.data[Slot(|s.ring.data|, start, i)] == packet[i]
  }

  ghost predicate ConsumerInv(s: State)
    requires s.ring.Valid() && |s.popped| <= |s.pushed|
  {
    match s.consumer
    case Waiting => true
    case Reading(inSeen, outSeen, firstSize, available, copied) =>
      && outSeen == s.ring.outIndex
      && PIPE_PACKET_HEADER_SIZE <= available <= s.ring.ReadSize()
      && (inSeen >= outSeen ==> outSeen + available <= |s.ring.data|)
      && Splits(|s.ring.data|, outSeen, firstSize, available)
      && |copied| <= available
      && copied <= s.ring.Unread()
      && Outstanding(s) != [] && PacketSize(|Outstanding(s)[0]|) <= available
  }

  ghost predicate Inv(s: State) {
    s.ring.Valid() && QueueInv(s) && IndexInv(s) && ProducerInv(s) && ConsumerInv(s)
  }

  /** The publish that fills the ring exactly while the out index has moved: afterwards the ring reads as empty. */
  predicate HiddenFill(s: State, a: Action)
    requires s.ring.Valid()
  {
    && a.PublishIn? && s.producer.Writing? && s.producer.copied == |s.producer.packet|
    && HidesContents(s.ring, |s.producer.content|)
  }

  ghost predicate NoHiddenFill(s: State, actions: seq<Action>)
    requires s.ring.Valid()
    decreases |actions|
  {
    actions != [] ==> !HiddenFill(s, actions[0]) && NoHiddenFill(Step(s, actions[0]), actions[1..])
  }

  lemma TransferIsSlot(n: nat, start: nat, firstSize: nat, size: nat, i: nat)
    requires Splits(n, start, firstSize, size) && i < size
    ensures TransferOffset(start, firstSize, i) == Slot(n, start, i)
  {}

  lemma FinalIsAdvance(n: nat, start: nat, firstSize: nat, size: nat)
    requires Splits(n, start, firstSize, size)
    ensures FinalIn(start, firstSize, size) == Advance(n, start, size)
  {}

  /** A byte stored in the free part of the ring is no unread byte. */
  lemma FreeByte(r: Ring, i: nat, b: byte)
    requires r.Valid() && i < r.WriteSize()
    requires r.inIndex == Advance(|r.data|, r.outIndex, r.ReadSize())
    ensures forall j :: 0 <= j < r.ReadSize() ==> Slot(|r.data|, r.outIndex, j) != Slot(|r.data|, r.inIndex, i)
    ensures r.(data := r.data[Slot(|r.data|, r.inIndex, i) := b]).Unread() == r.Unread()
  {
    var n := |r.data|;
    forall j | 0 <= j < r.ReadSize()
      ensures Slot(n, r.outIndex, j) != Slot(n, r.inIndex, i)
    {
      assert Slot(n, r.outIndex, j) == Slot(n, r.inIndex, n - r.ReadSize() + j);
    }
  }

  lemma StoreOfStored(data: seq<byte>, idx: nat, bytes: seq<byte>)
    requires idx <= |data| && |bytes| <= |data|
    requires forall i :: 0 <= i < |bytes| ==> data[Slot(|data|, idx, i)] == bytes[i]
    ensures Store(data, idx, bytes) == data
  {}

  // ---------------------------------------------------------------------------------------------
  // Every step keeps the invariant
  // ---------------------------------------------------------------------------------------------

  lemma BeginPushKeeps(s: State, content: Payload)
    requires Inv(s)
    ensures Inv(Step(s, BeginPush(content)))
  {
    hide Packet, Wire, Encodable, PacketSize, Parse;
  }

  lemma WriteByteKeeps(s: State)
    requires Inv(s)
    ensures Inv(Step(s, WriteByte))
  {
    hide Packet, Wire, Encodable, PacketSize, Parse;
    if s.producer.Writing? && s.producer.copied < |s.producer.packet| {
      var p, n := s.producer, |s.ring.data|;
      TransferIsSlot(n, p.start, p.firstSize, |p.packet|, p.copied);
      FreeByte(s.ring, p.copied, p.packet[p.copied]);
      assert forall i :: 0 <= i < p.copied ==> Rank(n, p.start, Slot(n, p.start, i)) == i;
    }
  }

  /** Publishing the in index completes exactly one sequential push. */
  lemma PublishInIsPush(s: State)
    requires Inv(s) && s.producer.Writing? && s.producer.copied == |s.producer.packet|
    ensures Push(s.ring, s.producer.content).1 == Pushed
    ensures Step(s, PublishIn)
            == s.(ring := Push(s.ring, s.producer.content).0, producer := Ready,
                  pushed := s.pushed + [s.producer.content], written := s.written + |s.producer.packet|)
  {
    hide Packet, Encodable, Wire, IndexOf;
    var p, n := s.producer, |s.ring.data|;
    FinalIsAdvance(n, p.start, p.firstSize, |p.packet|);
    StoreOfStored(s.ring.data, p.start, p.packet);
  }

  lemma PublishInKeeps(s: State)
    requires Inv(s) && s.producer.Writing? && s.producer.copied == |s.producer.packet|
    requires !HiddenFill(s, PublishIn)
    ensures Inv(Step(s, PublishIn))
  {
    hide Packet, Wire, Encodable, PacketSize, Step, Push, Store, Slot, Represents, Advance, IndexOf;
    var p, t := s.producer, Step(s, PublishIn);
    PublishInIsPush(s);
    InAfterOut(s);
    PushGrows(s.ring, p.content);
    assert QueueInv(t) by {
      assert Outstanding(t) == Outstanding(s) + [p.content];
      PushAppends(s.ring, Outstanding(s), p.content);
    }
    assert IndexInv(t) by {
      PacketSizeAligned(|p.content|);
      PushedIndexInv(s, t, |p.packet|);
    }
    assert ConsumerInv(t) by {
      ConsumerOutlivesPush(s, t);
    }
    hide QueueInv, IndexInv, ConsumerInv;
  }

  lemma InAfterOut(s: State)
    requires s.ring.Valid() && QueueInv(s)
    ensures s.ring.inIndex == Advance(|s.ring.data|, s.ring.outIndex, s.ring.ReadSize())
  {
    hide Wire, Encodable;
  }

  lemma PushedIndexInv(s: State, t: State, size: nat)
    requires s.ring.Valid() && t.ring.Valid() && IndexInv(s) && |t.ring.data| == |s.ring.data|
    requires t.read == s.read && t.ring.outIndex == s.ring.outIndex
    requires t.written == s.written + size && size <= |s.ring.data| && size % 8 == 0
    requires t.ring.inIndex == Advance(|s.ring.data|, s.ring.inIndex, size)
    requires t.ring.ReadSize() == s.ring.ReadSize() + size
    ensures IndexInv(t)
  {
    hide IndexOf, Advance;
    AdvanceIsClosedForm(|s.ring.data|, s.written, size);
    AdvanceAligned(|s.ring.data|, s.ring.inIndex, size);
  }

  lemma ConsumerOutlivesPush(s: State, t: State)
    requires s.ring.Valid() && t.ring.Valid() && |t.ring.data| == |s.ring.data|
    requires s.popped == t.popped && |s.popped| <= |s.pushed| && s.pushed <= t.pushed
    requires t.ring.outIndex == s.ring.outIndex && s.ring.Unread() <= t.ring.Unread()
    requires t.consumer == s.consumer && ConsumerInv(s)
    ensures ConsumerInv(t)
  {
    hide PacketSize, Slot;
  }

  lemma PushGrows(r: Ring, content: Payload)
    requires r.Valid() && Push(r, content).1 == Pushed && !HidesContents(r, |content|)
    requires r.inIndex == Advance(|r.data|, r.outIndex, r.ReadSize())
    ensures var r' := Push(r, content).0;
            && r'.Valid() && |r'.data| == |r.data| && r'.outIndex == r.outIndex
            && r'.inIndex == Advance(|r.data|, r.inIndex, PacketSize(|content|))
    ensures Push(r, content).0.ReadSize() == r.ReadSize() + PacketSize(|content|)
    ensures r.Unread() <= Push(r, content).0.Unread()
  {
    hide Packet, Encodable;
    StoreExtends(r, Packet(content, r.inIndex));
  }

  lemma BeginPopKeeps(s: State)
    requires Inv(s)
    ensures Inv(Step(s, BeginPop))
  {
    hide Packet, Encodable, Parse;
  }

  lemma ReadByteKeeps(s: State)
    requires Inv(s)
    ensures Inv(Step(s, ReadByte))
  {
    hide Packet, Wire, Encodable, PacketSize, Parse;
    if s.consumer.Reading? && |s.consumer.copied| < s.consumer.available {
      var c := s.consumer;
      TransferIsSlot(|s.ring.data|, c.outSeen, c.firstSize, c.available, |c.copied|);
    }
  }

  /** Publishing the out index completes exactly one sequential pop of the oldest outstanding payload. */
  lemma PublishOutIsPop(s: State)
    requires Inv(s) && s.consumer.Reading? && |s.consumer.copied| == s.consumer.available
    ensures Outstanding(s) != []
    ensures var head := Outstanding(s)[0];
            && Pop(s.ring).1 == Returned(head)
            && Step(s, PublishOut)
               == s.(ring := Pop(s.ring).0, consumer := Waiting,
                     popped := s.popped + [head], read := s.read + PacketSize(|head|))
  {
    hide Packet, Encodable, Parse, IndexOf, PacketSize, Slot;
    var c, q := s.consumer, Outstanding(s);
    var size := PacketSize(|q[0]|);
    PopRemovesHead(s.ring, q);
    assert c.copied == Packet(q[0], s.ring.outIndex) + c.copied[size..];
    ParseOfPacket(q[0], s.ring.outIndex, c.copied[size..]);
  }

  lemma PublishOutKeeps(s: State)
    requires Inv(s) && s.consumer.Reading? && |s.consumer.copied| == s.consumer.available
    ensures Inv(Step(s, PublishOut))
  {
    hide Packet, Wire, Encodable, IndexOf, PacketSize, Step, Pop, Parse, Slot, Represents, Advance;
    var q, t := Outstanding(s), Step(s, PublishOut);
    var size := PacketSize(|q[0]|);
    PublishOutIsPop(s);
    PopRemovesHead(s.ring, q);
    assert QueueInv(t) by {
      assert Outstanding(t) == q[1..];
      assert s.popped + [q[0]] <= s.pushed;
    }
    assert IndexInv(t) by {
      PacketSizeAligned(|q[0]|);
      AdvanceIsClosedForm(|s.ring.data|, s.read, size);
      AdvanceAligned(|s.ring.data|, s.ring.outIndex, size);
    }
    hide QueueInv, IndexInv;
  }

  lemma StepKeeps(s: State, a: Action)
    requires Inv(s) && !HiddenFill(s, a)
    ensures Inv(Step(s, a))
  {
    hide Inv;
    match a
    case BeginPush(content) => BeginPushKeeps(s, content);
    case WriteByte => WriteByteKeeps(s);
    case PublishIn =>
      if s.producer.Writing? && s.producer.copied == |s.producer.packet| { PublishInKeeps(s); }
    case BeginPop => BeginPopKeeps(s);
    case ReadByte => ReadByteKeeps(s);
    case PublishOut =>
      if s.consumer.Reading? && |s.consumer.copied| == s.consumer.available { PublishOutKeeps(s); }
  }

  lemma {:induction false} RunKeeps(s: State, actions: seq<Action>)
    requires Inv(s) && NoHiddenFill(s, actions)
    ensures Inv(Run(s, actions))
    decreases |actions|
  {
    hide QueueInv, IndexInv, ProducerInv, ConsumerInv, Step;
    if actions != [] {
      StepKeeps(s, actions[0]);
      RunKeeps(Step(s, actions[0]), actions[1..]);
    }
  }

  predicate RingArea(data: seq<byte>) {
    0 < |data| < INT32_LIMIT && |data| % 8 == 0
  }

  lemma InitInv(data: seq<byte>)
    requires RingArea(data)
    ensures Inv(Init(data))
  {}

  /** In every interleaving without a hidden fill the popped payloads are the first of the pushed ones,
      and the unread bytes decode to exactly the others. */
  lemma Fifo(data: seq<byte>, actions: seq<Action>)
    requires RingArea(data) && NoHiddenFill(Init(data), actions)
    ensures var t := Run(Init(data), actions);
            && t.popped <= t.pushed
            && t.pushed == t.popped + DecodeAll(t.ring.Unread())
  {
    hide Step, Run, NoHiddenFill, IndexInv, ProducerInv, ConsumerInv, Represents, DecodeAll;
    InitInv(data);
    RunKeeps(Init(data), actions);
    var t := Run(Init(data), actions);
    UnreadDecodes(t.ring, Outstanding(t));
  }

  /** The next byte the producer writes is inside the area and not unread. */
  lemma NextWriteIsFree(s: State)
    requires Inv(s) && s.producer.Writing? && s.producer.copied < |s.producer.packet|
    ensures var offset := TransferOffset(s.producer.start, s.producer.firstSize, s.producer.copied);
            && offset < |s.ring.data|
            && forall j :: 0 <= j < s.ring.ReadSize() ==> Slot(|s.ring.data|, s.ring.outIndex, j) != offset
  {
    hide Packet, Wire, Encodable;
    var p := s.producer;
    TransferIsSlot(|s.ring.data|, p.start, p.firstSize, |p.packet|, p.copied);
    FreeByte(s.ring, p.copied, 0);
  }

  /** The next byte the consumer reads is a published, unread one: the one it is due to read. */
  lemma NextReadIsPublished(s: State)
    requires Inv(s) && s.consumer.Reading? && |s.consumer.copied| < s.consumer.available
    ensures var offset := TransferOffset(s.consumer.outSeen, s.consumer.firstSize, |s.consumer.copied|);
            && |s.consumer.copied| < s.ring.ReadSize()
            && offset == Slot(|s.ring.data|, s.ring.outIndex, |s.consumer.copied|)
  {
    hide Packet, Wire, Encodable;
    var c := s.consumer;
    TransferIsSlot(|s.ring.data|, c.outSeen, c.firstSize, c.available, |c.copied|);
  }

  /** A parse never fails and a published out index never leaves the area. */
  lemma ParseSucceeds(s: State)
    requires Inv(s) && s.consumer.Reading? && |s.consumer.copied| == s.consumer.available
    ensures Parse(s.consumer.copied).Accepted?
    ensures Step(s, PublishOut).popped == s.popped + [Parse(s.consumer.copied).content]
  {
    hide Packet, Encodable, Parse, PacketSize, Slot;
    var q := Outstanding(s);
    PublishOutIsPop(s);
    assert s.consumer.copied == Packet(q[0], s.ring.outIndex) + s.consumer.copied[PacketSize(|q[0]|)..];
    ParseOfPacket(q[0], s.ring.outIndex, s.consumer.copied[PacketSize(|q[0]|)..]);
  }

  // ---------------------------------------------------------------------------------------------
  // A guard the caller can check before the call
  // ---------------------------------------------------------------------------------------------

  /** A push that starts with exactly as much free space as it needs, while the out index it sees is not 0. */
  predicate ExactCall(s: State, a: Action)
    requires s.ring.Valid()
  {
    a.BeginPush? && s.producer.Ready? && Encodable(|a.content|) && HidesContents(s.ring, |a.content|)
  }

  ghost predicate NoExactCall(s: State, actions: seq<Action>)
    requires s.ring.Valid()
    decreases |actions|
  {
    actions != [] ==> !ExactCall(s, actions[0]) && NoExactCall(Step(s, actions[0]), actions[1..])
  }

  ghost predicate Slack(s: State)
    requires s.ring.Valid()
  {
    s.producer.Writing? ==> !HidesContents(s.ring, |s.producer.content|)
  }

  lemma StepKeepsSlack(s: State, a: Action)
    requires Inv(s) && Slack(s) && !ExactCall(s, a)
    ensures Slack(Step(s, a))
  {
    hide Packet, Wire, Encodable, PacketSize, Parse;
    if a.PublishOut? && s.consumer.Reading? && |s.consumer.copied| == s.consumer.available {
      PublishOutIsPop(s);
      PopRemovesHead(s.ring, Outstanding(s));
      PacketSizeAligned(|Outstanding(s)[0]|);
    }
  }

  /** Checking the free space when a push begins is enough, however far the consumer gets meanwhile. */
  lemma {:induction false} NoExactCallSuffices(s: State, actions: seq<Action>)
    requires Inv(s) && Slack(s) && NoExactCall(s, actions)
    ensures NoHiddenFill(s, actions)
    decreases |actions|
  {
    hide QueueInv, IndexInv, ProducerInv, ConsumerInv, Step;
    if actions != [] {
      StepKeepsSlack(s, actions[0]);
      StepKeeps(s, actions[0]);
      NoExactCallSuffices(Step(s, actions[0]), actions[1..]);
    }
  }

  // ---------------------------------------------------------------------------------------------
  // What holds in every run, hidden fills included
  // ---------------------------------------------------------------------------------------------

  ghost predicate TransfersLaw(s: State)
    requires s.ring.Valid()
  {
    var n := |s.ring.data|;
    && (s.producer.Writing? ==>
          var p := s.producer;
          p.start == s.ring.inIndex && |p.packet| % 8 == 0 && Splits(n, p.start, p.firstSize, |p.packet|))
    && (s.consumer.Reading? ==>
          var c := s.consumer;
          && c.outSeen == s.ring.outIndex && c.available <= n
          && (c.inSeen >= c.outSeen ==> c.outSeen + c.available <= n))
  }

  lemma StepKeepsIndexLaw(s: State, a: Action)
    requires s.ring.Valid() && IndexLaw(s) && TransfersLaw(s)
    ensures IndexLaw(Step(s, a)) && TransfersLaw(Step(s, a))
  {
    hide Packet, Encodable, PacketSize, Parse, IndexOf, Slot;
    var n := |s.ring.data|;
    match a
    case BeginPush(content) => PacketSizeAligned(|content|);
    case PublishIn =>
      if s.producer.Writing? {
        var p := s.producer;
        FinalIsAdvance(n, p.start, p.firstSize, |p.packet|);
        AdvanceIsClosedForm(n, s.written, |p.packet|);
        AdvanceAligned(n, p.start, |p.packet|);
      }
    case PublishOut =>
      if s.consumer.Reading? && |s.consumer.copied| == s.consumer.available >= PIPE_PACKET_HEADER_SIZE
         && Parse(s.consumer.copied).Accepted? {
        var size := Parse(s.consumer.copied).size;
        assert FinalOut(n, s.consumer.inSeen, s.consumer.outSeen, size) == Advance(n, s.ring.outIndex, size);
        AdvanceIsClosedForm(n, s.read, size);
        AdvanceAligned(n, s.ring.outIndex, size);
      }
    case _ =>
  }

  lemma {:induction false} RunKeepsIndexLaw(s: State, actions: seq<Action>)
    requires s.ring.Valid() && IndexLaw(s) && TransfersLaw(s)
    ensures IndexLaw(Run(s, actions))
    decreases |actions|
  {
    hide IndexLaw, TransfersLaw, Step;
    if actions != [] {
      StepKeepsIndexLaw(s, actions[0]);
      RunKeepsIndexLaw(Step(s, actions[0]), actions[1..]);
    }
  }

  /** In every run, hidden fills included, both indices are aligned, inside the area, the closed form of the bytes
      that passed, and never 0 again once moved. */
  lemma IndicesFollowTotals(data: seq<byte>, actions: seq<Action>)
    requires RingArea(data)
    ensures var t, n := Run(Init(data), actions), |data|;
            && t.ring.inIndex == IndexOf(n, t.written) <= n && t.ring.outIndex == IndexOf(n, t.read) <= n
            && t.ring.inIndex % 8 == 0 && t.ring.outIndex % 8 == 0
            && (t.written > 0 ==> t.ring.inIndex > 0) && (t.read > 0 ==> t.ring.outIndex > 0)
            && t.ring.ReadSize() + t.ring.WriteSize() == n
  {
    RunKeepsIndexLaw(Init(data), actions);
    var t := Run(Init(data), actions);
    AdvanceIsClosedForm(|data|, t.written, 0);
    AdvanceIsClosedForm(|data|, t.read, 0);
  }

  /** Without hidden fills the reported size is the number of bytes under way, and walking the trailers back from the
      in index meets every packet boundary and stops at the out index. */
  lemma ReportedSizeAndChain(data: seq<byte>, actions: seq<Action>)
    requires RingArea(data) && NoHiddenFill(Init(data), actions)
    ensures var t := Run(Init(data), actions);
            && t.written - t.read == t.ring.ReadSize()
            && |t.popped| <= |t.pushed|
            && WalkBack(t.ring, t.ring.inIndex) == Boundaries(|data|, t.pushed[|t.popped|..], t.ring.outIndex)
  {
    InitInv(data);
    RunKeeps(Init(data), actions);
    var t := Run(Init(data), actions);
    WalkBackRecovers(t.ring, Outstanding(t));
  }

  /** Among accepted publishes, exactly the hidden fills break the queue. */
  lemma PublishKeepsQueueUnlessHidden(s: State)
    requires Inv(s) && s.producer.Writing? && s.producer.copied == |s.producer.packet|
    ensures QueueInv(Step(s, PublishIn)) <==> !HiddenFill(s, PublishIn)
    ensures HiddenFill(s, PublishIn) ==> Step(s, PublishIn).ring.ReadSize() == 0
  {
    hide Packet, Wire, Encodable, PacketSize, Step, Store, Slot, Represents, IndexOf;
    var t := Step(s, PublishIn);
    PublishInIsPush(s);
    PushAppends(s.ring, Outstanding(s), s.producer.content);
    assert Outstanding(t) == Outstanding(s) + [s.producer.content];
  }
}
