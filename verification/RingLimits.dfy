/**
 * Exactly which publications endanger the order of payloads: from every state of the protocol, and over runs.
 */
module RingLimits {
  import opened Bytes
  import opened PipePacket
  import opened Ring
  import opened RingQueue
  import opened RingProtocol
  import opened RingRuns

  // ---------------------------------------------------------------------------------------------
  // Runs without hidden fills
  // ---------------------------------------------------------------------------------------------

  lemma {:induction false} NoHiddenFillConcat(s: State, a: seq<Action>, b: seq<Action>)
    requires s.ring.Valid() && NoHiddenFill(s, a) && NoHiddenFill(Run(s, a), b)
    ensures NoHiddenFill(s, a + b)
    decreases |a|
  {
    hide Step, HiddenFill;
    if a == [] {
      assert a + b == b;
    } else {
      NoHiddenFillConcat(Step(s, a[0]), a[1..], b);
      assert (a + b)[1..] == a[1..] + b;
    }
  }

  lemma {:induction false} QuietRunHasNoHiddenFill(s: State, actions: seq<Action>)
    requires s.ring.Valid() && forall a <- actions :: !a.PublishIn?
    ensures NoHiddenFill(s, actions)
    decreases |actions|
  {
    hide Step;
    assert actions != [] ==> !actions[0].PublishIn?;
    if actions != [] { QuietRunHasNoHiddenFill(Step(s, actions[0]), actions[1..]); }
  }

  /** A push that has written everything fills the ring exactly if it began that way. */
  lemma WrittenFillsAlike(s: State, content: Payload)
    requires s.ring.Valid() && Encodable(|content|) && PacketSize(|content|) <= s.ring.WriteSize()
    ensures var t := WrittenSoFar(s, content, PacketSize(|content|));
            t.ring.Valid() && (HiddenFill(t, PublishIn) <==> HidesContents(s.ring, |content|))
  {
    hide Packet, PacketSize, Encodable, Store;
  }

  /** An uninterrupted push that does not take exactly the free space makes no hidden fill. */
  lemma PushCallHasNoHiddenFill(s: State, content: Payload)
    requires s.ring.Valid() && s.producer.Ready? && Push(s.ring, content).1 == Pushed
    requires !HidesContents(s.ring, |content|)
    ensures NoHiddenFill(s, PushCall(content))
  {
    hide Packet, PacketSize, Encodable, Step, HidesContents, Store, Repeat, Run;
    var size := PacketSize(|content|);
    WriteBytes(s, content, size);
    RunOne(s, BeginPush(content));
    RunConcat(s, [BeginPush(content)], Repeat(WriteByte, size));
    WrittenFillsAlike(s, content);
    RepeatOnly(WriteByte, size);
    var t := Run(s, WriteCall(content));
    QuietRunHasNoHiddenFill(s, WriteCall(content));
    assert NoHiddenFill(t, [PublishIn]) by {
      assert [PublishIn][1..] == [];
      assert NoHiddenFill(Step(t, PublishIn), []);
    }
    NoHiddenFillConcat(s, WriteCall(content), [PublishIn]);
    assert PushCall(content) == WriteCall(content) + [PublishIn];
  }

  // ---------------------------------------------------------------------------------------------
  // What is lost shows
  // ---------------------------------------------------------------------------------------------

  /** The ring reads as empty although payloads are outstanding. */
  ghost predicate ContentsLost(t: State) {
    && t.ring.Valid() && t.producer.Ready? && t.consumer.Waiting?
    && t.ring.inIndex == t.ring.outIndex > 0
    && |t.popped| < |t.pushed|
  }

  /** One small push and pop then goes out of order. */
  lemma LostContentsShow(t: State) returns (continuation: seq<Action>)
    requires ContentsLost(t) && |t.ring.data| >= 40
    requires |t.ring.data| == 40 ==> t.pushed[|t.popped|] != []
    ensures NoHiddenFill(t, continuation)
    ensures var u := Run(t, continuation); !(u.popped <= u.pushed)
  {
    hide Packet, Encodable, PacketSize, Step, Parse, Slot, Run, PopCall, PushCall, Store;
    var lost := t.pushed[|t.popped|];
    var d: Payload := if lost == [] then [0] else [];
    SmallPacket(d);
    PushCallIsPush(t, d);
    PushCallHasNoHiddenFill(t, d);
    var u := Run(t, PushCall(d));
    PushThenPop(t.ring, d);
    ReadAfterPush(t.ring, d);
    PopCallIsPop(u);
    PopCallIsQuiet(u.ring.ReadSize());
    QuietRunHasNoHiddenFill(u, PopCall(u.ring.ReadSize()));
    NoHiddenFillConcat(t, PushCall(d), PopCall(u.ring.ReadSize()));
    RunConcat(t, PushCall(d), PopCall(u.ring.ReadSize()));
    continuation := PushCall(d) + PopCall(u.ring.ReadSize());
    var v := Run(t, continuation);
    assert v.popped == t.popped + [d];
    assert v.pushed[|t.popped|] == lost;
  }

  lemma ReadAfterPush(r: Ring, d: Payload)
    requires r.Valid() && r.inIndex == r.outIndex && Push(r, d).1 == Pushed && !HidesContents(r, |d|)
    requires r.outIndex > 0
    ensures Push(r, d).0.Valid() && Push(r, d).0.ReadSize() == PacketSize(|d|) >= PIPE_PACKET_HEADER_SIZE
  {
    hide Packet, Encodable, PacketSize;
    PacketSizeAligned(|d|);
  }

  lemma PopCallIsQuiet(k: nat)
    ensures forall a <- PopCall(k) :: !a.PublishIn?
  {
    RepeatOnly(ReadByte, k);
  }

  /** A packet of at most one byte of payload takes at most 40 bytes, and an empty one 32. */
  lemma SmallPacket(d: Payload)
    requires |d| <= 1
    ensures Encodable(|d|) && 32 <= PacketSize(|d|) <= 40 && (d == [] ==> PacketSize(|d|) == 32)
  {}

  /** What fills a ring of 40 bytes is one packet, and not the empty one. */
  lemma SmallRingLoses(s: State)
    requires Inv(s) && HiddenFill(s, PublishIn) && |s.ring.data| == 40
    ensures (Outstanding(s) + [s.producer.content])[0] != []
  {
    hide Packet, Parse, IndexInv, ConsumerInv;
    PacketSizeAligned(|s.producer.content|);
  }

  /** A hidden fill that finds the consumer idle loses everything outstanding. */
  lemma IdleFillLoses(s: State)
    requires Inv(s) && HiddenFill(s, PublishIn) && s.consumer.Waiting?
    ensures ContentsLost(Step(s, PublishIn))
    ensures Step(s, PublishIn).popped == s.popped && Step(s, PublishIn).pushed == s.pushed + [s.producer.content]
  {
    hide Packet, Encodable, PacketSize, Step, Represents, IndexInv, ProducerInv;
    FilledMeetsOut(s);
    PublishInFrame(s);
  }

  // ---------------------------------------------------------------------------------------------
  // A fill during a pop
  // ---------------------------------------------------------------------------------------------

  lemma ReadingBounds(s: State)
    requires Inv(s) && s.consumer.Reading?
    ensures |s.consumer.copied| <= s.consumer.available
  {}

  /** What a waiting consumer publishes does not depend on what the producer did meanwhile. */
  lemma LatePublish(s: State, t: State)
    requires Inv(s) && s.consumer.Reading? && |s.consumer.copied| == s.consumer.available
    requires t.ring.Valid() && |t.ring.data| == |s.ring.data| && t.consumer == s.consumer
    ensures Outstanding(s) != [] && PacketSize(|Outstanding(s)[0]|) <= s.ring.ReadSize()
    ensures Step(t, PublishOut).ring == t.ring.(
              outIndex := Advance(|s.ring.data|, s.ring.outIndex, PacketSize(|Outstanding(s)[0]|)))
    ensures Step(t, PublishOut).producer == t.producer && Step(t, PublishOut).consumer.Waiting?
    ensures Step(t, PublishOut).pushed == t.pushed && Step(t, PublishOut).popped == t.popped + [Outstanding(s)[0]]
  {
    hide Packet, Encodable, Parse, Slot, Wire, Represents, IndexOf, PacketSize;
    PublishOutIsPop(s);
    PopRemovesHead(s.ring, Outstanding(s));
    ParseSucceeds(s);
    assert (s.popped + [Parse(s.consumer.copied).content])[|s.popped|] == (s.popped + [Outstanding(s)[0]])[|s.popped|];
  }

  /** A late fill has happened and the pop has copied everything. The whole area reads as free; `u` is the state had the
      producer not published. */
  ghost predicate LateAndCopied(u: State, t: State) {
    && Inv(u) && u.consumer.Reading? && |u.consumer.copied| == u.consumer.available && Outstanding(u) != []
    && t.ring.Valid() && t.producer.Ready? && t.consumer == u.consumer
    && |t.ring.data| == |u.ring.data|
    && t.ring.inIndex == t.ring.outIndex == u.ring.outIndex > 0
    && PacketSize(|Outstanding(u)[0]|) + 32 <= |u.ring.data|
  }

  /** The pop under way copies the rest. */
  lemma LateFillCopied(s: State) returns (copies: seq<Action>, u: State)
    requires Inv(s) && LateFill(s, PublishIn)
    ensures var t := Run(Step(s, PublishIn), copies);
            && LateAndCopied(u, t)
            && t.popped == s.popped == u.popped && t.pushed == s.pushed + [s.producer.content]
            && |u.ring.data| == |s.ring.data| && u.pushed == s.pushed && |u.popped| <= |u.pushed|
    ensures forall a <- copies :: a.ReadByte?
  {
    hide Packet, Encodable, Step, Push, PacketSize, Advance, Repeat, IndexInv, ProducerInv, ConsumerInv, Run,
      Represents;
    var c := s.consumer;
    ReadingBounds(s);
    copies := Repeat(ReadByte, c.available - |c.copied|);
    ReadRest(s, c.available - |c.copied|);
    u := Run(s, copies);
    RepeatOnly(ReadByte, c.available - |c.copied|);
    PublishInCommutes(s, copies);
    PublishInFrame(u);
    LateFillRoom(u);
  }

  lemma LateFillRoom(u: State)
    requires Inv(u) && LateFill(u, PublishIn)
    ensures Outstanding(u) != [] && PacketSize(|Outstanding(u)[0]|) + 32 <= |u.ring.data|
    ensures Step(u, PublishIn).ring.inIndex == Step(u, PublishIn).ring.outIndex == u.ring.outIndex > 0
  {
    hide Packet, Encodable, PacketSize, Represents, Parse;
    FilledMeetsOut(u);
    PublishInIsPush(u);
    PacketSizeAligned(|u.producer.content|);
  }

  /** The producer pushes a payload of the size of the one being popped before the pop publishes: the indices meet, and
      all but the popped payload is lost. */
  lemma LateFillLoses(u: State, t: State, d: Payload)
    requires LateAndCopied(u, t) && |d| == |Outstanding(u)[0]| && |t.popped| + 2 <= |t.pushed|
    ensures var v := Run(t, PushCall(d) + [PublishOut]);
            && NoHiddenFill(t, PushCall(d) + [PublishOut]) && ContentsLost(v)
            && v.popped == t.popped + [Outstanding(u)[0]] && v.pushed == t.pushed + [d]
            && |v.ring.data| == |t.ring.data|
  {
    hide Packet, Encodable, PacketSize, Step, IndexInv, ProducerInv, ConsumerInv, Represents, Run, PushCall, Store,
      Advance;
    var size := PacketSize(|d|);
    OutstandingEncodable(u);
    RoomInEmpty(t.ring, d);
    PushCallIsPush(t, d);
    PushCallHasNoHiddenFill(t, d);
    var w := Run(t, PushCall(d));
    LatePublish(u, w);
    RunOne(w, PublishOut);
    RunConcat(t, PushCall(d), [PublishOut]);
    QuietRunHasNoHiddenFill(w, [PublishOut]);
    NoHiddenFillConcat(t, PushCall(d), [PublishOut]);
  }

  lemma OutstandingEncodable(s: State)
    requires Inv(s) && Outstanding(s) != []
    ensures Encodable(|Outstanding(s)[0]|)
  {}

  lemma RoomInEmpty(r: Ring, d: Payload)
    requires r.Valid() && r.inIndex == r.outIndex > 0 && Encodable(|d|) && PacketSize(|d|) < |r.data|
    ensures Push(r, d).1 == Pushed && !HidesContents(r, |d|)
    ensures var pushed := Push(r, d).0;
            && pushed.Valid() && |pushed.data| == |r.data| && pushed.outIndex == r.outIndex
            && pushed.inIndex == Advance(|r.data|, r.outIndex, PacketSize(|d|)) > 0
  {
    hide Packet, Encodable, PacketSize;
    PacketSizeAligned(|d|);
  }

  // ---------------------------------------------------------------------------------------------
  // The exact condition
  // ---------------------------------------------------------------------------------------------

  /** Some continuation without a further hidden fill pops a payload out of order. */
  ghost predicate CanBreak(s: State)
    requires s.ring.Valid()
  {
    exists c: seq<Action> :: NoHiddenFill(s, c) && !(Run(s, c).popped <= Run(s, c).pushed)
  }

  /** After any hidden fill, whatever the consumer is doing, some continuation without a further hidden fill pops a
      payload out of order. */
  lemma HiddenFillBreaksFifo(s: State) returns (continuation: seq<Action>)
    requires Inv(s) && HiddenFill(s, PublishIn) && |s.ring.data| >= 40
    ensures NoHiddenFill(Step(s, PublishIn), continuation)
    ensures var t := Run(Step(s, PublishIn), continuation);
            !(t.popped <= t.pushed)
  {
    hide Packet, PacketSize, Encodable, Step, Run, IndexInv, ProducerInv, ConsumerInv, Represents, HiddenFill,
      NoHiddenFill, PushCall;
    var s1 := Step(s, PublishIn);
    if s.consumer.Waiting? {
      IdleFillLoses(s);
      if |s.ring.data| == 40 { SmallRingLoses(s); }
      continuation := LostContentsShow(s1);
    } else {
      var copies, u := LateFillCopied(s);
      var t := Run(s1, copies);
      var finish := PushCall(Outstanding(u)[0]) + [PublishOut];
      LateFillLoses(u, t, Outstanding(u)[0]);
      var v := Run(t, finish);
      LateAreaSize(u);
      var rest := LostContentsShow(v);
      QuietRunHasNoHiddenFill(s1, copies);
      NoHiddenFillConcat(t, finish, rest);
      NoHiddenFillConcat(s1, copies, finish + rest);
      RunConcat(t, finish, rest);
      RunConcat(s1, copies, finish + rest);
      continuation := copies + (finish + rest);
    }
  }

  lemma LateAreaSize(u: State)
    requires |u.popped| <= |u.pushed| && Outstanding(u) != []
    requires PacketSize(|Outstanding(u)[0]|) + 32 <= |u.ring.data|
    ensures |u.ring.data| >= 64
  {
    hide PacketSize;
    PacketSizeAligned(|Outstanding(u)[0]|);
  }

  /** From every state of the protocol: a publication is dangerous exactly when it is a hidden fill. */
  lemma PublicationBreaksFifoIff(s: State)
    requires Inv(s) && |s.ring.data| >= 40
    ensures CanBreak(Step(s, PublishIn)) <==> HiddenFill(s, PublishIn)
  {
    hide Step, QueueInv, IndexInv, ProducerInv, ConsumerInv, HiddenFill, Run;
    var t := Step(s, PublishIn);
    if HiddenFill(s, PublishIn) {
      var c := HiddenFillBreaksFifo(s);
    } else {
      StepKeeps(s, PublishIn);
      forall c: seq<Action> | NoHiddenFill(t, c)
        ensures Run(t, c).popped <= Run(t, c).pushed
      {
        RunKeeps(t, c);
        OrderKept(Run(t, c));
      }
    }
  }

  lemma OrderKept(s: State)
    requires Inv(s)
    ensures s.popped <= s.pushed
  {}

  /** For the call: an accepted push is dangerous exactly when its packet takes the whole free space while the out index
      is above 0, both as the call finds them. */
  lemma PushBreaksFifoIff(s: State, content: Payload)
    requires Inv(s) && s.producer.Ready? && Push(s.ring, content).1 == Pushed && |s.ring.data| >= 40
    ensures CanBreak(Run(s, PushCall(content))) <==> HidesContents(s.ring, |content|)
  {
    hide Packet, PacketSize, Encodable, Step, Run, QueueInv, IndexInv, ProducerInv, ConsumerInv, Push, HiddenFill,
      HidesContents, Repeat, WrittenSoFar, CanBreak;
    WriteCallReaches(s, content);
    var t := Run(s, WriteCall(content));
    PublicationBreaksFifoIff(t);
    RunOne(t, PublishIn);
    RunConcat(s, WriteCall(content), [PublishIn]);
    assert PushCall(content) == WriteCall(content) + [PublishIn];
  }

  // ---------------------------------------------------------------------------------------------
  // From the initial state
  // ---------------------------------------------------------------------------------------------

  /** Free space of an aligned size can be filled exactly. */
  lemma ExactFillExists(writable: nat)
    requires writable % 8 == 0 && writable >= 32
    ensures PacketSize(writable - 32) == writable
  {}

  /** One small packet has gone through: both indices are at 40 and nothing is outstanding. */
  lemma OnePacketThrough(data: seq<byte>, content: Payload)
    requires RingArea(data) && |data| >= 40 && |content| == 1
    ensures var s := Run(Init(data), PushCall(content) + PopCall(40));
            && Inv(s) && s.producer.Ready? && s.consumer.Waiting?
            && s.ring.inIndex == s.ring.outIndex == 40 && |s.ring.data| == |data|
  {
    hide Packet, Parse, QueueInv, IndexInv, ProducerInv, ConsumerInv, Represents, Store;
    InitInv(data);
    var s0 := Init(data);
    PushRejects(s0.ring, content);
    PushCallIsPush(s0, content);
    PushCallKeepsInv(s0, content);
    var s1 := Run(s0, PushCall(content));
    assert s1.ring.inIndex == 40 && s1.ring.ReadSize() == 40;
    PopOfOne(s1);
    PopCallIsPop(s1);
    PopCallKeepsInv(s1);
    RunConcat(s0, PushCall(content), PopCall(40));
  }

  /** A packet with one byte of payload takes 40 bytes and does not fill more space than that. */
  lemma SmallPush(s: State, content: Payload)
    requires Inv(s) && s.producer.Ready? && s.ring.WriteSize() > 40 && |content| == 1
    ensures var t := Run(s, PushCall(content));
            && Inv(t) && t.producer.Ready? && t.consumer == s.consumer
            && |t.ring.data| == |s.ring.data| && t.ring.outIndex == s.ring.outIndex
            && t.ring.WriteSize() == s.ring.WriteSize() - 40
  {
    hide Packet, QueueInv, IndexInv, ProducerInv, ConsumerInv, Store, PushCall, Run, Step;
    PushRejects(s.ring, content);
    PushCallIsPush(s, content);
    PushCallKeepsInv(s, content);
  }

  /** An idle ring whose out index has moved can be filled up to a hidden fill, and then pops out of order. */
  lemma {:induction false} IdleRingCanBreakFifo(s: State) returns (actions: seq<Action>)
    requires Inv(s) && s.producer.Ready? && s.consumer.Waiting? && s.ring.outIndex > 0
    requires s.ring.WriteSize() >= 40 && |s.ring.data| >= 40
    ensures var t := Run(s, actions); !(t.popped <= t.pushed)
    decreases s.ring.WriteSize()
  {
    hide Packet, Parse, QueueInv, IndexInv, ProducerInv, ConsumerInv, Store, PushCall, WriteCall, Step, Run;
    AlignedSpace(s);
    if s.ring.WriteSize() <= 524288 {
      var content := Zeros(s.ring.WriteSize() - 32);
      ExactFillExists(s.ring.WriteSize());
      PushRejects(s.ring, content);
      WriteCallReaches(s, content);
      var t := Run(s, WriteCall(content));
      var continuation := HiddenFillBreaksFifo(t);
      RunOne(t, PublishIn);
      RunConcat(t, [PublishIn], continuation);
      RunConcat(s, WriteCall(content), [PublishIn] + continuation);
      actions := WriteCall(content) + ([PublishIn] + continuation);
    } else {
      SmallPush(s, [0]);
      var rest := IdleRingCanBreakFifo(Run(s, PushCall([0])));
      RunConcat(s, PushCall([0]), rest);
      actions := PushCall([0]) + rest;
    }
  }

  /** Fifo needs its hypothesis on every ring of 40 bytes or more: from the initial state, a run that pops a payload
      out of order. */
  lemma FifoNeedsHypothesis(data: seq<byte>) returns (actions: seq<Action>)
    requires RingArea(data) && |data| >= 40
    ensures var t := Run(Init(data), actions); !(t.popped <= t.pushed)
  {
    hide Packet, QueueInv, IndexInv, ProducerInv, ConsumerInv, PushCall, PopCall, Step, Run;
    OnePacketThrough(data, [0]);
    var first := PushCall([0]) + PopCall(40);
    var rest := IdleRingCanBreakFifo(Run(Init(data), first));
    RunConcat(Init(data), first, rest);
    actions := first + rest;
  }

  // ---------------------------------------------------------------------------------------------
  // Areas below 40 bytes hold at most one empty payload
  // ---------------------------------------------------------------------------------------------

  ghost predicate AllEmpty(q: seq<Payload>) {
    forall i :: 0 <= i < |q| ==> q[i] == []
  }

  /** `u` is the state with a history that fits; of the true history nothing but empty payloads is missing in it. */
  ghost predicate TinyInv(s: State, u: State) {
    && s.ring.Valid() && SameButHistory(s, u) && Inv(u) && |s.ring.data| < 40
    && AllEmpty(s.pushed) && AllEmpty(s.popped) && AllEmpty(u.pushed)
    && |u.popped| <= |u.pushed| && |s.popped| + |u.pushed| <= |s.pushed| + |u.popped|
    && (s.producer.Writing? ==> s.producer.content == [])
  }

  lemma TinyHasNoLateFill(u: State, a: Action)
    requires Inv(u) && |u.ring.data| < 40
    ensures !LateFill(u, a)
  {
    hide Packet, Encodable, PacketSize, Represents, IndexInv;
    if u.producer.Writing? { PacketSizeAligned(|u.producer.content|); }
  }

  lemma TinyPayload(length: nat)
    requires PacketSize(length) < 40
    ensures length == 0
  {}

  /** What a step adds to the history. */
  lemma StepHistory(s: State, u: State, a: Action)
    requires TinyInv(s, u)
    ensures var t, v := Step(s, a), Step(u, a);
            && AllEmpty(t.pushed) && AllEmpty(t.popped) && AllEmpty(v.pushed)
            && |t.pushed| - |s.pushed| == |v.pushed| - |u.pushed|
            && |t.popped| - |s.popped| == |v.popped| - |u.popped|
            && (a.PublishIn? ==> t.popped == s.popped && |t.pushed| >= |s.pushed|)
            && (t.producer.Writing? ==> t.producer.content == [])
  {
    hide Packet, Encodable, PacketSize, Parse, Represents, IndexInv, ProducerInv, Slot;
    match a
    case BeginPush(content) => if PacketSize(|content|) <= s.ring.WriteSize() { TinyPayload(|content|); }
    case PublishOut =>
      if u.consumer.Reading? && |u.consumer.copied| == u.consumer.available {
        ParseSucceeds(u);
        PublishOutIsPop(u);
        var c, head := Parse(u.consumer.copied).content, Outstanding(u)[0];
        assert (u.popped + [c])[|u.popped|] == (u.popped + [head])[|u.popped|];
        assert c == [];
      }
    case _ =>
  }

  lemma TinyStep(s: State, u: State, a: Action) returns (v: State)
    requires TinyInv(s, u)
    ensures TinyInv(Step(s, a), v)
  {
    hide Step, IndexInv, ProducerInv, ConsumerInv, Represents, HiddenFill;
    TinyHasNoLateFill(u, a);
    LateFillIgnoresHistory(s, u, a);
    StepHistory(s, u, a);
    v := HistoryStep(s, u, a);
  }

  lemma LateFillIgnoresHistory(s: State, u: State, a: Action)
    requires s.ring.Valid() && SameButHistory(s, u)
    ensures LateFill(s, a) <==> LateFill(u, a)
  {}

  lemma {:induction false} TinyRun(s: State, u: State, actions: seq<Action>)
    requires TinyInv(s, u) && s.ring.Valid()
    ensures Run(s, actions).popped <= Run(s, actions).pushed
    decreases |actions|
  {
    hide Step, Inv;
    if actions != [] {
      var v := TinyStep(s, u, actions[0]);
      TinyRun(Step(s, actions[0]), v, actions[1..]);
    }
  }

  /** On an area below 40 bytes the order is kept in every run, hidden fills included. */
  lemma FifoOnTinyRings(data: seq<byte>, actions: seq<Action>)
    requires RingArea(data) && |data| < 40
    ensures var t := Run(Init(data), actions);
            t.popped <= t.pushed
  {
    InitInv(data);
    TinyRun(Init(data), Init(data), actions);
  }

  /** The order is kept in every run, whatever its pushes, exactly on areas below 40 bytes. */
  lemma FifoAlwaysIff(data: seq<byte>)
    requires RingArea(data)
    ensures (forall actions: seq<Action> :: Run(Init(data), actions).popped <= Run(Init(data), actions).pushed)
            <==> |data| < 40
  {
    hide Run, Step;
    if |data| < 40 {
      forall actions: seq<Action>
        ensures Run(Init(data), actions).popped <= Run(Init(data), actions).pushed
      {
        FifoOnTinyRings(data, actions);
      }
    } else {
      var actions := FifoNeedsHypothesis(data);
    }
  }

  /** After any run without hidden fills, the publication that comes next is dangerous exactly when it is a hidden fill
      and the area holds at least 40 bytes. */
  lemma NextPublicationBreaksFifoIff(data: seq<byte>, actions: seq<Action>)
    requires RingArea(data) && NoHiddenFill(Init(data), actions)
    ensures var s := Run(Init(data), actions);
            CanBreak(Step(s, PublishIn)) <==> HiddenFill(s, PublishIn) && |data| >= 40
  {
    hide Step, QueueInv, IndexInv, ProducerInv, ConsumerInv, HiddenFill, Run;
    InitInv(data);
    RunKeeps(Init(data), actions);
    var s := Run(Init(data), actions);
    if |data| >= 40 {
      PublicationBreaksFifoIff(s);
    } else {
      forall c: seq<Action>
        ensures Run(Step(s, PublishIn), c).popped <= Run(Step(s, PublishIn), c).pushed
      {
        FifoOnTinyRings(data, actions + ([PublishIn] + c));
        RunOne(s, PublishIn);
        RunConcat(s, [PublishIn], c);
        RunConcat(Init(data), actions, [PublishIn] + c);
      }
    }
  }
}
