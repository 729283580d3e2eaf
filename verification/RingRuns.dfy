/**
 * Runs in which a call is not interrupted coincide with the sequential push and pop. From them: what a
 * hidden fill does to the queue, what heals it, and what stays safe when the consumer is idle.
 */
module RingRuns {
  import opened Bytes
  import opened PipePacket
  import opened Ring
  import opened RingQueue
  import opened RingProtocol

  function Repeat(a: Action, k: nat): (s: seq<Action>) {
    if k == 0 then [] else Repeat(a, k - 1) + [a]
  }

  function PushCall(content: Payload): seq<Action> {
    [BeginPush(content)] + Repeat(WriteByte, PacketSize(|content|)) + [PublishIn]
  }

  function PopCall(available: nat): seq<Action> {
    [BeginPop] + Repeat(ReadByte, available) + [PublishOut]
  }

  lemma {:induction false} RunConcat(s: State, a: seq<Action>, b: seq<Action>)
    requires s.ring.Valid()
    ensures Run(s, a + b) == Run(Run(s, a), b)
    decreases |a|
  {
    hide Step;
    if a == [] {
      assert a + b == b;
    } else {
      RunConcat(Step(s, a[0]), a[1..], b);
      assert (a + b)[1..] == a[1..] + b;
    }
  }

  lemma RunOne(s: State, a: Action)
    requires s.ring.Valid()
    ensures Run(s, [a]) == Step(s, a)
  {
    assert [a][1..] == [];
    assert Run(Step(s, a), []) == Step(s, a);
  }

  /** Storing one byte more. */
  lemma StoreOneMore(data: seq<byte>, idx: nat, bytes: seq<byte>, k: nat)
    requires idx <= |data| && |bytes| <= |data| && k < |bytes|
    ensures Store(data, idx, bytes[..k])[Slot(|data|, idx, k) := bytes[k]] == Store(data, idx, bytes[..k + 1])
  {
    var n := |data|;
    var one, more := Store(data, idx, bytes[..k])[Slot(n, idx, k) := bytes[k]], Store(data, idx, bytes[..k + 1]);
    forall j | 0 <= j < n
      ensures one[j] == more[j]
    {
      assert Slot(n, idx, Rank(n, idx, j)) == j;
    }
  }

  lemma AcceptedPushSplits(r: Ring, size: nat)
    requires r.Valid() && size <= r.WriteSize()
    ensures Splits(|r.data|, r.inIndex, FirstWriteSize(r, size), size)
  {}

  /** The producer after `k` byte copies of an uninterrupted push. */
  ghost function WrittenSoFar(s: State, content: Payload, k: nat): State
    requires s.ring.Valid() && Encodable(|content|) && k <= PacketSize(|content|) <= s.ring.WriteSize()
  {
    var packet := Packet(content, s.ring.inIndex);
    s.(ring := s.ring.(data := Store(s.ring.data, s.ring.inIndex, packet[..k])),
       producer := Writing(content, s.ring.inIndex, FirstWriteSize(s.ring, |packet|), packet, k))
  }

  lemma NothingWritten(s: State, content: Payload)
    requires s.ring.Valid() && s.producer.Ready?
    requires Encodable(|content|) && PacketSize(|content|) <= s.ring.WriteSize()
    ensures Step(s, BeginPush(content)) == WrittenSoFar(s, content, 0)
  {
    hide Packet, Encodable, PacketSize;
    StoreOfStored(s.ring.data, s.ring.inIndex, Packet(content, s.ring.inIndex)[..0]);
  }

  lemma WriteOneMore(s: State, content: Payload, k: nat)
    requires s.ring.Valid() && Encodable(|content|) && k < PacketSize(|content|) <= s.ring.WriteSize()
    ensures WrittenSoFar(s, content, k).ring.Valid()
    ensures Step(WrittenSoFar(s, content, k), WriteByte) == WrittenSoFar(s, content, k + 1)
  {
    hide Packet, Encodable, PacketSize, Slot, Store;
    var packet, t := Packet(content, s.ring.inIndex), WrittenSoFar(s, content, k);
    AcceptedPushSplits(s.ring, |packet|);
    TransferIsSlot(|s.ring.data|, s.ring.inIndex, t.producer.firstSize, |packet|, k);
    StoreOneMore(s.ring.data, s.ring.inIndex, packet, k);
  }

  lemma {:induction false} WriteBytes(s: State, content: Payload, k: nat)
    requires s.ring.Valid() && s.producer.Ready?
    requires Encodable(|content|) && k <= PacketSize(|content|) <= s.ring.WriteSize()
    ensures Run(Step(s, BeginPush(content)), Repeat(WriteByte, k)) == WrittenSoFar(s, content, k)
  {
    hide Step, WrittenSoFar, Packet, Encodable, PacketSize;
    if k == 0 {
      NothingWritten(s, content);
    } else {
      WriteBytes(s, content, k - 1);
      WriteOneMore(s, content, k - 1);
      RunConcat(Step(s, BeginPush(content)), Repeat(WriteByte, k - 1), [WriteByte]);
      RunOne(WrittenSoFar(s, content, k - 1), WriteByte);
    }
  }

  /** An uninterrupted push of the protocol is the sequential push. */
  lemma PushCallIsPush(s: State, content: Payload)
    requires s.ring.Valid() && s.producer.Ready?
    requires Push(s.ring, content).1 == Pushed
    ensures Run(s, PushCall(content))
            == s.(ring := Push(s.ring, content).0, pushed := s.pushed + [content],
                  written := s.written + PacketSize(|content|))
  {
    hide Packet, Encodable, PacketSize, Parse, Repeat;
    var size := PacketSize(|content|);
    var packet := Packet(content, s.ring.inIndex);
    var t := WrittenSoFar(s, content, size);
    WriteBytes(s, content, size);
    RunOne(s, BeginPush(content));
    RunConcat(s, [BeginPush(content)], Repeat(WriteByte, size));
    RunConcat(s, [BeginPush(content)] + Repeat(WriteByte, size), [PublishIn]);
    RunOne(t, PublishIn);
    AcceptedPushSplits(s.ring, size);
    FinalIsAdvance(|s.ring.data|, s.ring.inIndex, t.producer.firstSize, size);
    assert packet[..size] == packet;
  }

  lemma FirstReadSplits(r: Ring)
    requires r.Valid()
    ensures Splits(|r.data|, r.outIndex, FirstReadSize(r, r.ReadSize()), r.ReadSize())
  {}

  ghost function ReadSoFar(s: State, k: nat): State
    requires s.ring.Valid() && k <= s.ring.ReadSize()
  {
    var available := s.ring.ReadSize();
    s.(consumer := Reading(s.ring.inIndex, s.ring.outIndex, FirstReadSize(s.ring, available), available,
                           s.ring.Unread()[..k]))
  }

  lemma ReadOneMore(s: State, k: nat)
    requires s.ring.Valid() && k < s.ring.ReadSize()
    ensures Step(ReadSoFar(s, k), ReadByte) == ReadSoFar(s, k + 1)
  {
    FirstReadSplits(s.ring);
    TransferIsSlot(|s.ring.data|, s.ring.outIndex, FirstReadSize(s.ring, s.ring.ReadSize()), s.ring.ReadSize(), k);
    assert s.ring.Unread()[..k + 1] == s.ring.Unread()[..k] + [s.ring.Unread()[k]];
  }

  lemma NothingRead(s: State)
    requires s.ring.Valid() && s.consumer.Waiting? && PIPE_PACKET_HEADER_SIZE <= s.ring.ReadSize()
    ensures Step(s, BeginPop) == ReadSoFar(s, 0)
  {
    assert s.ring.Unread()[..0] == [];
  }

  lemma {:induction false} ReadBytes(s: State, k: nat)
    requires s.ring.Valid() && s.consumer.Waiting?
    requires PIPE_PACKET_HEADER_SIZE <= s.ring.ReadSize() && k <= s.ring.ReadSize()
    ensures Run(Step(s, BeginPop), Repeat(ReadByte, k)) == ReadSoFar(s, k)
  {
    hide Packet, Encodable, PacketSize, Parse, Step, ReadSoFar;
    if k == 0 {
      NothingRead(s);
    } else {
      ReadBytes(s, k - 1);
      RunConcat(Step(s, BeginPop), Repeat(ReadByte, k - 1), [ReadByte]);
      ReadOneMore(s, k - 1);
      RunOne(ReadSoFar(s, k - 1), ReadByte);
    }
  }

  lemma FinalOutIsAdvance(r: Ring, size: nat)
    requires r.Valid() && size <= r.ReadSize()
    ensures FinalOut(|r.data|, r.inIndex, r.outIndex, size) == Advance(|r.data|, r.outIndex, size) <= |r.data|
  {}

  /** An uninterrupted pop of the protocol is the sequential pop, whatever bytes the ring holds. */
  lemma PopCallIsPop(s: State)
    requires s.ring.Valid() && s.consumer.Waiting? && PIPE_PACKET_HEADER_SIZE <= s.ring.ReadSize()
    ensures var t := Run(s, PopCall(s.ring.ReadSize()));
            match Pop(s.ring)
            case (_, Threw(_)) => t == s
            case (r, Returned(content)) =>
              && Parse(s.ring.Unread()).Accepted?
              && t == s.(ring := r, popped := s.popped + [content], read := s.read + Parse(s.ring.Unread()).size)
  {
    hide Packet, Encodable, PacketSize, Parse, Repeat, Slot;
    var available := s.ring.ReadSize();
    var t := ReadSoFar(s, available);
    ReadBytes(s, available);
    RunOne(s, BeginPop);
    RunConcat(s, [BeginPop], Repeat(ReadByte, available));
    RunConcat(s, [BeginPop] + Repeat(ReadByte, available), [PublishOut]);
    RunOne(t, PublishOut);
    assert t.consumer.copied == s.ring.Unread();
    if Parse(s.ring.Unread()).Accepted? {
      FinalOutIsAdvance(s.ring, Parse(s.ring.Unread()).size);
    }
  }

  lemma EmptyRepresentsNothing(r: Ring)
    requires r.Valid() && r.ReadSize() == 0 && r.inIndex > 0
    ensures Represents(r, [])
  {
    hide Packet;
    assert r.Unread() == [];
  }

  // ---------------------------------------------------------------------------------------------
  // Parts of a call
  // ---------------------------------------------------------------------------------------------

  lemma {:induction false} QuietRunKeepsInv(s: State, actions: seq<Action>)
    requires Inv(s) && forall a <- actions :: !a.PublishIn?
    ensures Inv(Run(s, actions))
    decreases |actions|
  {
    hide QueueInv, IndexInv, ProducerInv, ConsumerInv, Step;
    if actions != [] {
      StepKeeps(s, actions[0]);
      QuietRunKeepsInv(Step(s, actions[0]), actions[1..]);
    }
  }

  lemma {:induction false} RepeatOnly(a: Action, k: nat)
    ensures forall b <- Repeat(a, k) :: b == a
  {
    if k > 0 { RepeatOnly(a, k - 1); }
  }

  /** Everything of a push but its publication. */
  function WriteCall(content: Payload): seq<Action> {
    [BeginPush(content)] + Repeat(WriteByte, PacketSize(|content|))
  }

  /** A push that has written everything and will publish next. */
  lemma WriteCallReaches(s: State, content: Payload)
    requires Inv(s) && s.producer.Ready? && Push(s.ring, content).1 == Pushed
    ensures Run(s, WriteCall(content)) == WrittenSoFar(s, content, PacketSize(|content|))
    ensures Inv(Run(s, WriteCall(content)))
    ensures HiddenFill(Run(s, WriteCall(content)), PublishIn) <==> HidesContents(s.ring, |content|)
  {
    hide Packet, Encodable, PacketSize, QueueInv, IndexInv, ProducerInv, ConsumerInv, Step, Store;
    var size := PacketSize(|content|);
    WriteBytes(s, content, size);
    RunOne(s, BeginPush(content));
    RunConcat(s, [BeginPush(content)], Repeat(WriteByte, size));
    RepeatOnly(WriteByte, size);
    QuietRunKeepsInv(s, WriteCall(content));
  }

  /** The consumer copies the bytes it has not copied yet. */
  lemma {:induction false} ReadRest(s: State, k: nat)
    requires Inv(s) && s.consumer.Reading? && |s.consumer.copied| + k <= s.consumer.available
    ensures var t := Run(s, Repeat(ReadByte, k));
            && Inv(t) && t == s.(consumer := t.consumer) && t.consumer.Reading?
            && t.consumer.available == s.consumer.available && |t.consumer.copied| == |s.consumer.copied| + k
  {
    hide Step, QueueInv, IndexInv, ProducerInv, ConsumerInv;
    if k > 0 {
      ReadRest(s, k - 1);
      var t := Run(s, Repeat(ReadByte, k - 1));
      StepKeeps(t, ReadByte);
      ReadByteAdvances(t);
      RunOne(t, ReadByte);
      RunConcat(s, Repeat(ReadByte, k - 1), [ReadByte]);
    }
  }

  lemma ReadByteAdvances(s: State)
    requires Inv(s) && s.consumer.Reading? && |s.consumer.copied| < s.consumer.available
    ensures var t := Step(s, ReadByte);
            && t == s.(consumer := t.consumer) && t.consumer.Reading?
            && t.consumer.available == s.consumer.available && |t.consumer.copied| == |s.consumer.copied| + 1
  {
    hide QueueInv, IndexInv, ProducerInv;
    NextReadIsPublished(s);
  }

  /** The rest of a pop that has begun. */
  function FinishPop(c: Consumer): seq<Action>
    requires c.Reading?
  {
    Repeat(ReadByte, if |c.copied| <= c.available then c.available - |c.copied| else 0) + [PublishOut]
  }

  lemma PublishInCommutesStep(s: State, a: Action)
    requires s.ring.Valid() && (a.ReadByte? || a.PublishOut?)
    ensures Step(Step(s, PublishIn), a) == Step(Step(s, a), PublishIn)
  {
    hide Parse;
    match a
    case ReadByte => assert Step(s, ReadByte) == s.(consumer := Step(s, ReadByte).consumer);
    case PublishOut =>
  }

  /** A pop under way does not notice when the producer publishes. */
  lemma {:induction false} PublishInCommutes(s: State, actions: seq<Action>)
    requires s.ring.Valid() && forall a <- actions :: a.ReadByte? || a.PublishOut?
    ensures Run(Step(s, PublishIn), actions) == Step(Run(s, actions), PublishIn)
    decreases |actions|
  {
    hide Step;
    if actions != [] {
      PublishInCommutesStep(s, actions[0]);
      PublishInCommutes(Step(s, actions[0]), actions[1..]);
    }
  }

  /** An unfinished pop runs to its end. */
  lemma FinishedPop(s: State)
    requires Inv(s) && s.consumer.Reading?
    ensures var t := Run(s, FinishPop(s.consumer));
            && Inv(t) && Outstanding(s) != [] && t.producer == s.producer && t.consumer.Waiting?
            && |t.ring.data| == |s.ring.data| && t.ring.outIndex > 0
            && t.ring.outIndex == Advance(|s.ring.data|, s.ring.outIndex, PacketSize(|Outstanding(s)[0]|))
            && t.ring.ReadSize() == s.ring.ReadSize() - PacketSize(|Outstanding(s)[0]|)
            && t.popped == s.popped + [Outstanding(s)[0]] && t.pushed == s.pushed
  {
    hide Step, Packet, Parse, Represents, PacketSize, Encodable;
    var k := s.consumer.available - |s.consumer.copied|;
    ReadRest(s, k);
    var u := Run(s, Repeat(ReadByte, k));
    PublishOutIsPop(u);
    PublishOutKeeps(u);
    PopRemovesHead(u.ring, Outstanding(u));
    PacketSizeAligned(|Outstanding(u)[0]|);
    RunOne(u, PublishOut);
    RunConcat(s, Repeat(ReadByte, k), [PublishOut]);
  }

  /** A hidden fill while a pop is under way is healed when that pop publishes: everything is as if the producer had
      published after it. What is then free is the room of the packet that was popped. */
  lemma LateFillRecovers(s: State)
    requires Inv(s) && HiddenFill(s, PublishIn) && s.consumer.Reading?
    ensures Run(Step(s, PublishIn), FinishPop(s.consumer)) == Step(Run(s, FinishPop(s.consumer)), PublishIn)
    ensures var t := Run(Step(s, PublishIn), FinishPop(s.consumer));
            && Inv(t) && Outstanding(s) != [] && t.producer.Ready? && t.consumer.Waiting?
            && |t.ring.data| == |s.ring.data| && t.ring.outIndex > 0
            && t.ring.outIndex == Advance(|s.ring.data|, s.ring.outIndex, PacketSize(|Outstanding(s)[0]|))
            && t.ring.WriteSize() == PacketSize(|Outstanding(s)[0]|)
            && t.popped == s.popped + [Outstanding(s)[0]] && t.pushed == s.pushed + [s.producer.content]
  {
    hide Step, Packet, Parse, Represents, PacketSize, Encodable, FinishPop, Push, Slot, Run, IndexInv;
    var finish := FinishPop(s.consumer);
    FinishOnly(s.consumer);
    PublishInCommutes(s, finish);
    FinishedPop(s);
    var u := Run(s, finish);
    PacketSizeAligned(|Outstanding(s)[0]|);
    StepKeeps(u, PublishIn);
    PublishInIsPush(u);
    InAfterOut(u);
    PushGrows(u.ring, u.producer.content);
  }

  lemma FinishOnly(c: Consumer)
    requires c.Reading?
    ensures forall a <- FinishPop(c) :: a.ReadByte? || a.PublishOut?
  {
    RepeatOnly(ReadByte, if |c.copied| <= c.available then c.available - |c.copied| else 0);
  }

  lemma PushCallKeepsInv(s: State, content: Payload)
    requires Inv(s) && s.producer.Ready? && Push(s.ring, content).1 == Pushed
    requires !HidesContents(s.ring, |content|)
    ensures Inv(Run(s, PushCall(content)))
  {
    hide Packet, Encodable, PacketSize, QueueInv, IndexInv, ProducerInv, ConsumerInv, Step, Push,
      HiddenFill, HidesContents;
    WriteCallReaches(s, content);
    var t := Run(s, WriteCall(content));
    StepKeeps(t, PublishIn);
    RunOne(t, PublishIn);
    RunConcat(s, WriteCall(content), [PublishIn]);
  }

  lemma PopCallKeepsInv(s: State)
    requires Inv(s)
    ensures Inv(Run(s, PopCall(s.ring.ReadSize())))
  {
    hide QueueInv, IndexInv, ProducerInv, ConsumerInv;
    RepeatOnly(ReadByte, s.ring.ReadSize());
    QuietRunKeepsInv(s, PopCall(s.ring.ReadSize()));
  }

  /** A reachable ring that holds one packet is emptied by a pop. */
  lemma PopOfOne(s: State)
    requires Inv(s) && |s.pushed| == |s.popped| + 1
    ensures Pop(s.ring).1.Returned? && s.ring.ReadSize() >= PIPE_PACKET_HEADER_SIZE
    ensures Pop(s.ring).0 == s.ring.(outIndex := Advance(|s.ring.data|, s.ring.outIndex, s.ring.ReadSize()))
  {
    hide Packet, Parse, Encodable, PacketSize, Slot, IndexInv, ProducerInv, ConsumerInv;
    var q := Outstanding(s);
    PopRemovesHead(s.ring, q);
    PacketSizeAligned(|q[0]|);
    assert q[1..] == [];
    assert Wire(|s.ring.data|, q[1..], Pop(s.ring).0.outIndex) == [];
    assert Pop(s.ring).0.Unread() == [];
  }

  lemma AlignedSpace(s: State)
    requires s.ring.Valid() && IndexInv(s)
    ensures s.ring.WriteSize() % 8 == 0
  {
    hide IndexOf;
    var a, b, c := |s.ring.data| / 8, s.ring.inIndex / 8, s.ring.outIndex / 8;
    assert |s.ring.data| == 8 * a && s.ring.inIndex == 8 * b && s.ring.outIndex == 8 * c;
    assert s.ring.WriteSize() == 8 * (if b >= c then a - (b - c) else c - b);
  }

  // ---------------------------------------------------------------------------------------------
  // Fills that find the consumer idle
  // ---------------------------------------------------------------------------------------------

  /** A hidden fill between BeginPop and PublishOut. */
  predicate LateFill(s: State, a: Action)
    requires s.ring.Valid()
  {
    HiddenFill(s, a) && s.consumer.Reading?
  }

  ghost predicate NoLateFill(s: State, actions: seq<Action>)
    requires s.ring.Valid()
    decreases |actions|
  {
    actions != [] ==> !LateFill(s, actions[0]) && NoLateFill(Step(s, actions[0]), actions[1..])
  }

  lemma {:induction false} NoHiddenFillIsNoLateFill(s: State, actions: seq<Action>)
    requires s.ring.Valid() && NoHiddenFill(s, actions)
    ensures NoLateFill(s, actions)
    decreases |actions|
  {
    hide Step, HiddenFill;
    if actions != [] { NoHiddenFillIsNoLateFill(Step(s, actions[0]), actions[1..]); }
  }

  /** The recorded history does not influence what happens. */
  predicate SameButHistory(s: State, t: State) {
    t == s.(pushed := t.pushed, popped := t.popped, written := t.written, read := t.read)
  }

  lemma StepIgnoresHistory(s: State, t: State, a: Action)
    requires s.ring.Valid() && SameButHistory(s, t)
    ensures SameButHistory(Step(s, a), Step(t, a))
  {
    hide Parse, Packet, Encodable, PacketSize;
  }

  /** The invariant holds for some history, though perhaps not for the true one. */
  ghost predicate Sound(s: State) {
    s.ring.Valid() && exists t: State :: SameButHistory(s, t) && Inv(t)
  }

  /** With an idle consumer a hidden fill leaves an empty ring, as one in which nothing was ever pushed. */
  lemma IdleFillEmpties(s: State)
    requires Inv(s) && HiddenFill(s, PublishIn) && s.consumer.Waiting?
    ensures var t := Step(s, PublishIn);
            Inv(t.(pushed := [], popped := [], written := t.read))
  {
    hide Packet, Encodable, PacketSize, Parse, Slot, Wire, Represents, IndexOf;
    var t := Step(s, PublishIn);
    PublishInIsPush(s);
    PushAppends(s.ring, Outstanding(s), s.producer.content);
    FilledMeetsOut(s);
    EmptyRepresentsNothing(t.ring);
  }

  lemma FilledMeetsOut(s: State)
    requires Inv(s) && HiddenFill(s, PublishIn)
    ensures Step(s, PublishIn).ring.inIndex == Step(s, PublishIn).ring.outIndex == s.ring.outIndex > 0
  {
    hide Packet, Encodable, PacketSize, Wire, IndexOf, Slot;
    var p := s.producer;
    FinalIsAdvance(|s.ring.data|, p.start, p.firstSize, |p.packet|);
  }

  /** The history that fits goes on, or starts afresh after a fill that found the consumer idle. */
  lemma HistoryStep(s: State, t: State, a: Action) returns (u: State)
    requires s.ring.Valid() && SameButHistory(s, t) && Inv(t) && !LateFill(s, a)
    ensures SameButHistory(Step(s, a), u) && Inv(u)
    ensures u == Step(t, a) || (a.PublishIn? && HiddenFill(t, a) && u.pushed == [])
  {
    hide Step, QueueInv, IndexInv, ProducerInv, ConsumerInv, HidesContents;
    StepIgnoresHistory(s, t, a);
    u := Step(t, a);
    if HiddenFill(t, a) {
      IdleFillEmpties(t);
      u := u.(pushed := [], popped := [], written := u.read);
    } else {
      StepKeeps(t, a);
    }
  }

  lemma StepKeepsSound(s: State, a: Action)
    requires Sound(s) && !LateFill(s, a)
    ensures Sound(Step(s, a))
  {
    hide Step, Inv, LateFill;
    var t: State :| SameButHistory(s, t) && Inv(t);
    var _ := HistoryStep(s, t, a);
  }

  lemma {:induction false} RunKeepsSound(s: State, actions: seq<Action>, k: nat)
    requires Sound(s) && s.ring.Valid() && NoLateFill(s, actions) && k <= |actions|
    ensures Sound(Run(s, actions[..k]))
    decreases k
  {
    hide Step, Sound, LateFill;
    if k > 0 {
      StepKeepsSound(s, actions[0]);
      RunKeepsSound(Step(s, actions[0]), actions[1..], k - 1);
      assert actions[..k][1..] == actions[1..][..k - 1];
    }
  }

  lemma ReachedSound(data: seq<byte>, actions: seq<Action>, k: nat) returns (t: State)
    requires RingArea(data) && NoLateFill(Init(data), actions) && k <= |actions|
    ensures SameButHistory(Run(Init(data), actions[..k]), t) && Inv(t)
  {
    hide QueueInv, IndexInv, ProducerInv, ConsumerInv, Step, NoLateFill, Run;
    InitInv(data);
    assert SameButHistory(Init(data), Init(data));
    RunKeepsSound(Init(data), actions, k);
    t :| SameButHistory(Run(Init(data), actions[..k]), t) && Inv(t);
  }

  /** At no point of a run whose hidden fills all find the consumer idle is the producer about to write an unread
      byte. */
  lemma ProducerWritesFreeByte(data: seq<byte>, actions: seq<Action>, k: nat)
    requires RingArea(data) && NoLateFill(Init(data), actions) && k <= |actions|
    ensures var s := Run(Init(data), actions[..k]);
            s.producer.Writing? && s.producer.copied < |s.producer.packet| ==>
              var offset := TransferOffset(s.producer.start, s.producer.firstSize, s.producer.copied);
              && offset < |data|
              && forall j :: 0 <= j < s.ring.ReadSize() ==> Slot(|data|, s.ring.outIndex, j) != offset
  {
    hide QueueInv, IndexInv, ProducerInv, ConsumerInv, Step, NoLateFill;
    var t := ReachedSound(data, actions, k);
    if t.producer.Writing? && t.producer.copied < |t.producer.packet| { NextWriteIsFree(t); }
  }

  /** Nor is the consumer about to read an unpublished byte, or any but the one that is due. */
  lemma ConsumerReadsPublishedByte(data: seq<byte>, actions: seq<Action>, k: nat)
    requires RingArea(data) && NoLateFill(Init(data), actions) && k <= |actions|
    ensures var s := Run(Init(data), actions[..k]);
            s.consumer.Reading? && |s.consumer.copied| < s.consumer.available ==>
              && |s.consumer.copied| < s.ring.ReadSize()
              && TransferOffset(s.consumer.outSeen, s.consumer.firstSize, |s.consumer.copied|)
                 == Slot(|data|, s.ring.outIndex, |s.consumer.copied|)
  {
    hide QueueInv, IndexInv, ProducerInv, ConsumerInv, Step, NoLateFill;
    var t := ReachedSound(data, actions, k);
    if t.consumer.Reading? && |t.consumer.copied| < t.consumer.available { NextReadIsPublished(t); }
  }

  /** Nor does a pop throw: what the consumer copied parses, and the payload parsed is the one handed out. */
  lemma ConsumerNeverThrows(data: seq<byte>, actions: seq<Action>, k: nat)
    requires RingArea(data) && NoLateFill(Init(data), actions) && k <= |actions|
    ensures var s := Run(Init(data), actions[..k]);
            s.consumer.Reading? && |s.consumer.copied| == s.consumer.available ==>
              && s.consumer.available >= PIPE_PACKET_HEADER_SIZE && Parse(s.consumer.copied).Accepted?
              && Step(s, PublishOut).popped == s.popped + [Parse(s.consumer.copied).content]
  {
    hide QueueInv, IndexInv, ProducerInv, ConsumerInv, NoLateFill, Parse, Run;
    var t := ReachedSound(data, actions, k);
    if t.consumer.Reading? && |t.consumer.copied| == t.consumer.available { ParseSucceeds(t); }
  }

  /** The three need their hypothesis: right after a late fill the consumer is about to read a byte although nothing
      reads as published. */
  lemma LateFillExposesReads(s: State)
    requires Inv(s) && LateFill(s, PublishIn) && |s.consumer.copied| < s.consumer.available
    ensures var t := Step(s, PublishIn);
            t.consumer.Reading? && |t.consumer.copied| < t.consumer.available && t.ring.ReadSize() == 0
  {
    hide QueueInv, IndexInv, ProducerInv, ConsumerInv, HidesContents, Represents;
    PublishKeepsQueueUnlessHidden(s);
    PublishInFrame(s);
  }

  // ---------------------------------------------------------------------------------------------
  // Order survives late fills that are healed in time
  // ---------------------------------------------------------------------------------------------

  /** Hidden fills happen only during a pop, and until that pop publishes no further push begins; `pending` says that
      such a pop is under way. */
  ghost predicate Healed(s: State, actions: seq<Action>, pending: bool)
    requires s.ring.Valid()
    decreases |actions|
  {
    actions != [] ==>
      var a, t := actions[0], Step(s, actions[0]);
      if pending then (a.BeginPush? ==> t == s) && Healed(t, actions[1..], t.consumer.Reading?)
      else (HiddenFill(s, a) ==> s.consumer.Reading?) && Healed(t, actions[1..], HiddenFill(s, a))
  }

  /** `s` is `u` after a late fill. */
  ghost predicate AfterLateFill(u: State, s: State) {
    Inv(u) && LateFill(u, PublishIn) && s == Step(u, PublishIn)
  }

  ghost predicate HealedInv(s: State, pending: bool) {
    && s.ring.Valid()
    && if pending then exists u: State :: AfterLateFill(u, s) else Inv(s)
  }

  lemma PublishInFrame(u: State)
    requires Inv(u) && HiddenFill(u, PublishIn)
    ensures var s := Step(u, PublishIn);
            && s.producer.Ready? && s.consumer == u.consumer && s.popped == u.popped
            && s.pushed == u.pushed + [u.producer.content]
  {
    hide Packet, Encodable, PacketSize, Parse, QueueInv, IndexInv, ConsumerInv;
    PublishInIsPush(u);
  }

  /** While the pop goes on nothing but the pop moves, and it moves as if the producer had not published. */
  lemma PendingStep(u: State, s: State, a: Action)
    requires AfterLateFill(u, s) && (a.BeginPush? ==> Step(s, a) == s)
    ensures HealedInv(Step(s, a), Step(s, a).consumer.Reading?)
  {
    hide Packet, Encodable, PacketSize, Parse, Push, Slot, Represents, QueueInv, IndexInv, ProducerInv,
      HidesContents;
    PublishInFrame(u);
    match a
    case BeginPush(_) => assert AfterLateFill(u, Step(s, a));
    case WriteByte => assert AfterLateFill(u, Step(s, a));
    case PublishIn => assert AfterLateFill(u, Step(s, a));
    case BeginPop => assert AfterLateFill(u, Step(s, a));
    case ReadByte => PendingRead(u, s);
    case PublishOut => PendingPublish(u, s);
  }

  lemma PendingRead(u: State, s: State)
    requires AfterLateFill(u, s)
    ensures var t := Step(s, ReadByte);
            t.ring.Valid() && t.consumer.Reading? && AfterLateFill(Step(u, ReadByte), t)
  {
    hide Packet, Encodable, PacketSize, Parse, Push, Slot, Represents, QueueInv, IndexInv, ProducerInv, ConsumerInv,
      HidesContents;
    PublishInFrame(u);
    PublishInCommutesStep(u, ReadByte);
    StepKeeps(u, ReadByte);
  }

  lemma PendingPublish(u: State, s: State)
    requires AfterLateFill(u, s)
    ensures HealedInv(Step(s, PublishOut), Step(s, PublishOut).consumer.Reading?)
  {
    hide Packet, Encodable, PacketSize, Parse, Push, Slot, Represents, QueueInv, IndexInv, ProducerInv;
    PublishInFrame(u);
    if |u.consumer.copied| == u.consumer.available {
      PublishInCommutesStep(u, PublishOut);
      PublishOutHeals(u);
    } else {
      assert Step(s, PublishOut) == s;
    }
  }

  lemma PublishOutHeals(u: State)
    requires Inv(u) && LateFill(u, PublishIn) && |u.consumer.copied| == u.consumer.available
    ensures var t := Step(Step(u, PublishOut), PublishIn);
            Inv(t) && t.consumer.Waiting?
  {
    hide Packet, Encodable, Parse, Represents, PacketSize, Slot;
    PublishOutIsPop(u);
    PublishOutKeeps(u);
    PopRemovesHead(u.ring, Outstanding(u));
    PacketSizeAligned(|Outstanding(u)[0]|);
    hide Step, Pop, QueueInv, IndexInv, ProducerInv, ConsumerInv;
    var v := Step(u, PublishOut);
    StepKeeps(v, PublishIn);
    PublishInIsPush(v);
  }

  lemma {:induction false} HealedRun(s: State, actions: seq<Action>, pending: bool)
    requires HealedInv(s, pending) && s.ring.Valid() && Healed(s, actions, pending)
    ensures Run(s, actions).popped <= Run(s, actions).pushed
    decreases |actions|
  {
    hide Step, IndexInv, ProducerInv, ConsumerInv, HiddenFill, Represents;
    if actions == [] {
      if pending {
        var u: State :| AfterLateFill(u, s);
        PublishInFrame(u);
      }
    } else {
      var a, t := actions[0], Step(s, actions[0]);
      if pending {
        var u: State :| AfterLateFill(u, s);
        PendingStep(u, s, a);
        HealedRun(t, actions[1..], t.consumer.Reading?);
      } else if HiddenFill(s, a) {
        OnlyPublishFills(s, a);
        assert AfterLateFill(s, t);
        HealedRun(t, actions[1..], true);
      } else {
        StepKeeps(s, a);
        HealedRun(t, actions[1..], false);
      }
    }
  }

  lemma OnlyPublishFills(s: State, a: Action)
    requires s.ring.Valid() && HiddenFill(s, a)
    ensures a == PublishIn
  {}

  /** Popped payloads are a prefix of the pushed ones also in runs with hidden fills, as long as each comes during a pop
      and no push begins before that pop publishes. */
  lemma FifoWithHealedFills(data: seq<byte>, actions: seq<Action>)
    requires RingArea(data) && Healed(Init(data), actions, false)
    ensures var t := Run(Init(data), actions);
            t.popped <= t.pushed
  {
    InitInv(data);
    HealedRun(Init(data), actions, false);
  }
}
