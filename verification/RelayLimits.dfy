/**
 * Why the relay needs its hypothesis: a hidden fill while the consumer is between its last byte and its
 * publication makes the free space shrink, and the size the relay just computed no longer holds.
 */
module RelayLimits {
  import opened Bytes
  import opened PipePacket
  import opened Ring
  import opened RingQueue
  import opened RingProtocol
  import opened RingRuns
  import opened RingLimits
  import opened Relay

  function Devices(actions: seq<Action>): (s: seq<RelayAction>) {
    if actions == [] then [] else [Device(actions[0])] + Devices(actions[1..])
  }

  lemma {:induction false} RelayRunConcat(s: RelayState, a: seq<RelayAction>, b: seq<RelayAction>)
    requires s.ring.ring.Valid()
    ensures RelayRun(s, a + b) == RelayRun(RelayRun(s, a), b)
    decreases |a|
  {
    hide RelayStep;
    if a == [] {
      assert a + b == b;
    } else {
      RelayRunConcat(RelayStep(s, a[0]), a[1..], b);
      assert (a + b)[1..] == a[1..] + b;
    }
  }

  lemma RelayRunOne(s: RelayState, a: RelayAction)
    requires s.ring.ring.Valid()
    ensures RelayRun(s, [a]) == RelayStep(s, a)
  {
    assert [a][1..] == [];
    assert RelayRun(RelayStep(s, a), []) == RelayStep(s, a);
  }

  lemma {:induction false} DevicesRun(s: RelayState, actions: seq<Action>)
    requires s.ring.ring.Valid() && forall a <- actions :: !a.BeginPush?
    ensures RelayRun(s, Devices(actions)) == s.(ring := Run(s.ring, actions))
    decreases |actions|
  {
    hide Step;
    if actions != [] {
      assert Devices(actions)[1..] == Devices(actions[1..]);
      DevicesRun(s.(ring := Step(s.ring, actions[0])), actions[1..]);
    }
  }

  lemma {:induction false} RepeatIsNoBegin(k: nat)
    ensures forall a <- Repeat(WriteByte, k) :: !a.BeginPush?
  {
    if k > 0 { RepeatIsNoBegin(k - 1); }
  }

  /** The socket reports `available` bytes, delivers `k` of them, and the loop calls PushPipePacket. */
  function Sends(available: nat, k: nat): seq<RelayAction> {
    [Size(available), Receive(k), Send]
  }

  /** One undisturbed turn of the loop that relays `k` bytes. */
  function FullTurn(available: nat, k: nat): seq<RelayAction> {
    Sends(available, k) + Devices(Repeat(WriteByte, PacketSize(k)) + [PublishIn])
  }

  /** The turn when no more is available than it relays. */
  function Turn(k: nat): seq<RelayAction> {
    FullTurn(if k == 0 then 1 else k, k)
  }

  /** The loop sizes its buffer, receives and calls PushPipePacket, which accepts. */
  lemma TurnSends(s: RelayState, available: nat, k: nat)
    requires s.ring.ring.Valid() && s.phase.Sizing? && s.ring.producer.Ready?
    requires var maximum := MaximumPushSize(s.ring.ring.WriteSize());
             0 < available && 0 < maximum && k <= available && k <= |s.stream| && k <= maximum
    ensures Push(s.ring.ring, s.stream[..k]).1 == Pushed
    ensures RelayRun(s, Sends(available, k))
            == s.(ring := Step(s.ring, BeginPush(s.stream[..k])), stream := s.stream[k..],
                  received := s.received + s.stream[..k])
  {
    hide Packet, Encodable, PacketSize, Step, Push, MaximumPushSize;
    var content := s.stream[..k];
    assert Push(s.ring.ring, content).1 == Pushed by {
      MaximumPushSizeGrows(s.ring.ring.WriteSize(), s.ring.ring.WriteSize());
      MaximumPushSizeIsTight(s.ring.ring.WriteSize(), k);
      PushRejects(s.ring.ring, content);
    }
    var maximum := MaximumPushSize(s.ring.ring.WriteSize());
    var bound := if available < maximum then available else maximum;
    var sized, received := s.(phase := Receiving(bound)), s.(phase := Sending(content), stream := s.stream[k..],
                                                             received := s.received + content);
    RelayRunOne(s, Size(available));
    RelayRunOne(sized, Receive(k));
    RelayRunOne(received, Send);
    RelayRunConcat(s, [Size(available)], [Receive(k)]);
    RelayRunConcat(s, [Size(available)] + [Receive(k)], [Send]);
    assert [Size(available)] + [Receive(k)] + [Send] == Sends(available, k);
  }

  /** One undisturbed turn moves `k` bytes from the stream into the ring by one push. */
  lemma FullTurnPushes(s: RelayState, available: nat, k: nat)
    requires s.ring.ring.Valid() && s.phase.Sizing? && s.ring.producer.Ready?
    requires var maximum := MaximumPushSize(s.ring.ring.WriteSize());
             0 < available && 0 < maximum && k <= available && k <= |s.stream| && k <= maximum
    ensures Push(s.ring.ring, s.stream[..k]).1 == Pushed
    ensures RelayRun(s, FullTurn(available, k))
            == s.(ring := s.ring.(ring := Push(s.ring.ring, s.stream[..k]).0,
                                  pushed := s.ring.pushed + [s.stream[..k]],
                                  written := s.ring.written + PacketSize(k)),
                  stream := s.stream[k..], received := s.received + s.stream[..k])
  {
    hide Packet, Encodable, PacketSize, Step, Push, MaximumPushSize;
    var content := s.stream[..k];
    var writes := Repeat(WriteByte, PacketSize(k));
    TurnSends(s, available, k);
    var sent := RelayRun(s, Sends(available, k));
    RelayRunConcat(s, Sends(available, k), Devices(writes + [PublishIn]));
    RepeatIsNoBegin(PacketSize(k));
    DevicesRun(sent, writes + [PublishIn]);
    RunConcat(s.ring, [BeginPush(content)], writes + [PublishIn]);
    RunOne(s.ring, BeginPush(content));
    assert PushCall(content) == [BeginPush(content)] + (writes + [PublishIn]);
    PushCallIsPush(s.ring, content);
  }

  lemma TurnPushes(s: RelayState, k: nat)
    requires s.ring.ring.Valid() && s.phase.Sizing? && s.ring.producer.Ready?
    requires var maximum := MaximumPushSize(s.ring.ring.WriteSize());
             k <= |s.stream| && 0 < maximum && k <= maximum
    ensures Push(s.ring.ring, s.stream[..k]).1 == Pushed
    ensures RelayRun(s, Turn(k))
            == s.(ring := s.ring.(ring := Push(s.ring.ring, s.stream[..k]).0,
                                  pushed := s.ring.pushed + [s.stream[..k]],
                                  written := s.ring.written + PacketSize(k)),
                  stream := s.stream[k..], received := s.received + s.stream[..k])
  {
    FullTurnPushes(s, if k == 0 then 1 else k, k);
  }

  // ---------------------------------------------------------------------------------------------
  // How much one turn of the loop takes
  // ---------------------------------------------------------------------------------------------

  /** The largest number of bytes, of those available and up to 16384, such that a push of so many or fewer is
      accepted. */
  ghost predicate IsSendSize(r: Ring, available: nat, k: nat)
    requires r.Valid()
  {
    && k <= available && k <= 16384
    && (forall c: Payload :: |c| <= k ==> Push(r, c).1 == Pushed)
    && (k < available && k < 16384 ==> forall c: Payload :: |c| == k + 1 ==> Push(r, c).1 != Pushed)
  }

  lemma SendSizeIs(r: Ring, available: nat, k: nat)
    requires r.Valid() && r.WriteSize() >= 40
    ensures IsSendSize(r, available, k) <==>
              var maximum := MaximumPushSize(r.WriteSize());
              k == if available < maximum then available else maximum
  {
    hide Packet, Encodable, PacketSize, Push, MaximumPushSize;
    var maximum := MaximumPushSize(r.WriteSize());
    MaximumPushSizeGrows(r.WriteSize(), r.WriteSize());
    forall c: Payload
      ensures |c| <= maximum ==> Push(r, c).1 == Pushed
      ensures maximum < 16384 && |c| > maximum ==> Push(r, c).1 != Pushed
    {
      PushRejects(r, c);
      MaximumPushSizeIsTight(r.WriteSize(), |c|);
    }
    assert |Zeros(k)| == k && |Zeros(k + 1)| == k + 1;
    assert Push(r, Zeros(k)).1 == Pushed || Push(r, Zeros(k)).1 != Pushed;
    assert Push(r, Zeros(k + 1)).1 == Pushed || Push(r, Zeros(k + 1)).1 != Pushed;
  }

  /** With room for a byte and something available, an undisturbed turn takes the largest number of bytes that fit, or
      as many of them as the socket delivers, from the stream and sends them by one accepted push. */
  lemma TurnTakesMost(s: RelayState, available: nat, k: nat, count: nat)
    requires s.ring.ring.Valid() && s.phase.Sizing? && s.ring.producer.Ready?
    requires available > 0 && s.ring.ring.WriteSize() >= 40 && IsSendSize(s.ring.ring, available, k)
    requires count <= k && count <= |s.stream|
    ensures k > 0 && RelayStep(s, Size(available)).phase == Receiving(k)
    ensures Push(s.ring.ring, s.stream[..count]).1 == Pushed
    ensures RelayRun(s, FullTurn(available, count))
            == s.(ring := s.ring.(ring := Push(s.ring.ring, s.stream[..count]).0,
                                  pushed := s.ring.pushed + [s.stream[..count]],
                                  written := s.ring.written + PacketSize(count)),
                  stream := s.stream[count..], received := s.received + s.stream[..count])
  {
    hide Packet, Encodable, PacketSize, Push, FullTurn, IsSendSize;
    SendSizeIs(s.ring.ring, available, k);
    SomethingFits(s.ring.ring.WriteSize());
    FullTurnPushes(s, available, count);
  }

  lemma SomethingFits(writable: nat)
    requires writable >= 40
    ensures MaximumPushSize(writable) > 0
  {}

  /** There is always such a number, and only one. */
  lemma SendSizeExists(r: Ring, available: nat) returns (k: nat)
    requires r.Valid() && r.WriteSize() >= 40
    ensures IsSendSize(r, available, k)
    ensures forall m: nat :: IsSendSize(r, available, m) ==> m == k
  {
    hide IsSendSize;
    var maximum := MaximumPushSize(r.WriteSize());
    k := if available < maximum then available else maximum;
    SendSizeIs(r, available, k);
    forall m: nat | IsSendSize(r, available, m)
      ensures m == k
    {
      SendSizeIs(r, available, m);
    }
  }

  /** With nothing available or less than 40 bytes free the loop goes on sizing; and once stopped it does nothing. */
  lemma NothingToSend(s: RelayState, available: nat)
    requires s.ring.ring.Valid()
    requires s.phase.Sizing? ==> available == 0 || s.ring.ring.WriteSize() < 40
    requires s.phase.Sizing? || s.phase.Stopped?
    ensures RelayStep(s, Size(available)) == s
  {}

  lemma {:induction false} StoppedForGood(s: RelayState, actions: seq<RelayAction>)
    requires s.ring.ring.Valid() && s.phase.Stopped?
    ensures var t := RelayRun(s, actions);
            t.phase == s.phase && t.stream == s.stream && t.received == s.received
    decreases |actions|
  {
    hide Step;
    if actions != [] {
      StoppedForGood(RelayStep(s, actions[0]), actions[1..]);
    }
  }

  lemma AlignedMaximum(writable: nat)
    requires writable % 8 == 0 && writable >= 32
    ensures MaximumPushSize(writable) == if writable <= 16416 then writable - 32 else 16384
    ensures PacketSize(MaximumPushSize(writable)) == if writable <= 16416 then writable else 16416
  {}

  /** When nothing reads as outstanding, popping `size` bytes anyway leaves only `size` bytes writable. */
  lemma SpaceAfterLatePublish(r: Ring, size: nat)
    requires r.Valid() && r.inIndex == r.outIndex && 0 < size < |r.data|
    ensures Advance(|r.data|, r.outIndex, size) <= |r.data|
    ensures r.(outIndex := Advance(|r.data|, r.outIndex, size)).WriteSize() == size
  {}

  /** The in index of the relay after an exact fill meets the out index. */
  lemma ExactFillMeetsOut(r: Ring, content: Payload)
    requires r.Valid() && Push(r, content).1 == Pushed && HidesContents(r, |content|)
    requires r.inIndex == Advance(|r.data|, r.outIndex, r.ReadSize())
    ensures Push(r, content).0.Valid() && |Push(r, content).0.data| == |r.data|
    ensures Push(r, content).0.inIndex == Push(r, content).0.outIndex == r.outIndex
  {
    hide Packet, Encodable;
  }

  /** The consumer has copied everything and will publish next; the relay fills the ring exactly. The size the
      relay then computes is too large once the consumer publishes, and the loop stops on "Insufficient Space". */
  lemma HiddenFillCanStopRelay(s: RelayState, stream: seq<byte>) returns (continuation: seq<RelayAction>)
    requires RelayInv(s, stream) && s.phase.Sizing? && s.ring.producer.Ready?
    requires s.ring.consumer.Reading? && |s.ring.consumer.copied| == s.ring.consumer.available
    requires 40 <= s.ring.ring.WriteSize() <= 16416 && s.ring.ring.outIndex > 0
    requires var n := |s.ring.ring.data|;
             && |s.stream| >= s.ring.ring.WriteSize() - 32 + MaximumPushSize(n)
             && (n > 16416 ==> PacketSize(|Outstanding(s.ring)[0]|) < 16416)
    ensures RelayRun(s, continuation).phase == Stopped(InsufficientSpace)
  {
    hide Packet, Encodable, Step, Push, MaximumPushSize, PacketSize, Advance, Concat, InFlight, Repeat, Devices,
      Represents, IndexInv, ProducerInv, ConsumerInv, RelayStep, Step;
    var k, m := s.ring.ring.WriteSize() - 32, MaximumPushSize(|s.ring.ring.data|);
    AlignedSpace(s.ring);
    AlignedMaximum(k + 32);
    TurnPushes(s, k);
    var t := RelayRun(s, Turn(k));
    LateShortage(s.ring, s.stream[..k], t.ring);
    AlignedArea(s.ring);
    FullOffer(|s.ring.ring.data|, PacketSize(|Outstanding(s.ring)[0]|));
    LastTurn(t, m);
    RelayRunConcat(s, Turn(k), [Size(m), Device(PublishOut), Receive(m), Send]);
    continuation := Turn(k) + [Size(m), Device(PublishOut), Receive(m), Send];
  }

  /** After the exact fill all space reads as free; once the consumer publishes, only the room of its packet is. */
  lemma LateShortage(s: State, content: Payload, t: State)
    requires Inv(s) && s.consumer.Reading? && |s.consumer.copied| == s.consumer.available
    requires 32 <= s.ring.WriteSize() && s.ring.outIndex > 0
    requires PacketSize(|content|) == s.ring.WriteSize() && Push(s.ring, content) == (t.ring, Pushed)
    requires t.consumer == s.consumer && t.producer.Ready?
    ensures t.ring.Valid() && t.ring.WriteSize() == |s.ring.data| >= 64
    ensures Outstanding(s) != []
    ensures var u := Step(t, PublishOut);
            u.producer.Ready? && u.ring.WriteSize() == PacketSize(|Outstanding(s)[0]|) < |s.ring.data|
  {
    hide Packet, Encodable, Step, Push, PacketSize, Advance, Represents, ProducerInv, IndexOf;
    InAfterOut(s);
    ExactFillMeetsOut(s.ring, content);
    LatePublish(s, t);
    PacketSizeAligned(|Outstanding(s)[0]|);
    SpaceAfterLatePublish(t.ring, PacketSize(|Outstanding(s)[0]|));
  }

  /** What the loop offers on a ring of `n` bytes that reads as empty, against the room of a packet of `size` bytes. */
  lemma FullOffer(n: nat, size: nat)
    requires n % 8 == 0 && n >= 64 && size < n
    ensures var m := MaximumPushSize(n);
            && 0 < m && Encodable(m)
            && (n <= 16416 ==> size < PacketSize(m))
            && (n > 16416 ==> PacketSize(m) == 16416)
  {
    hide Encodable, PacketSize;
    AlignedMaximum(n);
    MaximumPushSizeIsTight(n, MaximumPushSize(n));
  }

  /** The loop sizes its buffer, the consumer publishes, the loop receives and sends: it stops exactly when what is
      then free is less than what it sized for. */
  lemma LastTurn(t: RelayState, m: nat)
    requires t.ring.ring.Valid() && t.phase.Sizing? && t.ring.producer.Ready?
    requires 0 < m <= |t.stream| && m == MaximumPushSize(t.ring.ring.WriteSize()) && Encodable(m)
    requires Step(t.ring, PublishOut).producer.Ready?
    ensures RelayRun(t, [Size(m), Device(PublishOut), Receive(m), Send]).phase == Stopped(InsufficientSpace)
            <==> Step(t.ring, PublishOut).ring.WriteSize() < PacketSize(m)
  {
    hide Packet, Encodable, Step, MaximumPushSize, PacketSize;
    var t1 := RelayStep(t, Size(m));
    var t2 := RelayStep(t1, Device(PublishOut));
    var t3 := RelayStep(t2, Receive(m));
    RelayRunOne(t3, Send);
    RelayRunOne(t2, Receive(m));
    RelayRunOne(t1, Device(PublishOut));
    RelayRunOne(t, Size(m));
    RelayRunConcat(t, [Size(m)], [Device(PublishOut)]);
    RelayRunConcat(t, [Size(m)] + [Device(PublishOut)], [Receive(m)]);
    RelayRunConcat(t, [Size(m)] + [Device(PublishOut)] + [Receive(m)], [Send]);
    assert [Size(m)] + [Device(PublishOut)] + [Receive(m)] + [Send]
        == [Size(m), Device(PublishOut), Receive(m), Send];
  }

  // ---------------------------------------------------------------------------------------------
  // Every late fill can stop the loop
  // ---------------------------------------------------------------------------------------------

  /** No packet of the relay takes more than 16416 bytes. */
  ghost predicate SmallPackets(s: State) {
    && (forall i :: 0 <= i < |s.pushed| ==> |s.pushed[i]| <= MAXIMUM_PUSH_SIZE)
    && (s.producer.Writing? ==> |s.producer.content| <= MAXIMUM_PUSH_SIZE)
  }

  lemma {:induction false} NoFillConcat(s: RelayState, a: seq<RelayAction>, b: seq<RelayAction>)
    requires s.ring.ring.Valid()
    requires RelayNoHiddenFill(s, a) && RelayNoHiddenFill(RelayRun(s, a), b)
    ensures RelayNoHiddenFill(s, a + b)
    decreases |a|
  {
    hide RelayStep, HiddenFill;
    if a == [] {
      assert a + b == b;
    } else {
      NoFillConcat(RelayStep(s, a[0]), a[1..], b);
      assert (a + b)[1..] == a[1..] + b;
    }
  }

  predicate Publishes(a: RelayAction) {
    a.Device? && a.action.PublishIn?
  }

  lemma {:induction false} QuietRunHasNoFill(s: RelayState, actions: seq<RelayAction>)
    requires s.ring.ring.Valid() && forall a <- actions :: !Publishes(a)
    ensures RelayNoHiddenFill(s, actions)
    decreases |actions|
  {
    hide RelayStep;
    assert actions != [] ==> !Publishes(actions[0]);
    if actions != [] { QuietRunHasNoFill(RelayStep(s, actions[0]), actions[1..]); }
  }

  lemma {:induction false} DevicesQuiet(actions: seq<Action>)
    requires forall a <- actions :: !a.PublishIn?
    ensures forall a <- Devices(actions) :: !Publishes(a)
    decreases |actions|
  {
    if actions != [] {
      assert !actions[0].PublishIn?;
      DevicesQuiet(actions[1..]);
    }
  }

  lemma {:induction false} DevicesConcat(a: seq<Action>, b: seq<Action>)
    ensures Devices(a + b) == Devices(a) + Devices(b)
    decreases |a|
  {
    if a == [] {
      assert a + b == b;
    } else {
      DevicesConcat(a[1..], b);
      assert (a + b)[1..] == a[1..] + b;
    }
  }

  lemma DevicesOne(a: Action)
    ensures Devices([a]) == [Device(a)]
  {
    assert [a][1..] == [];
    assert Devices([]) == [];
  }

  /** An undisturbed turn that does not take exactly the free space makes no hidden fill. */
  lemma TurnHasNoFill(s: RelayState, k: nat)
    requires s.ring.ring.Valid() && s.phase.Sizing? && s.ring.producer.Ready?
    requires var maximum := MaximumPushSize(s.ring.ring.WriteSize());
             k <= |s.stream| && 0 < maximum && k <= maximum
    requires !HidesContents(s.ring.ring, k)
    ensures RelayNoHiddenFill(s, Turn(k))
  {
    hide Packet, PacketSize, Encodable, Step, MaximumPushSize, HidesContents, Store, Repeat;
    var content, writes := s.stream[..k], Repeat(WriteByte, PacketSize(k));
    var available := if k == 0 then 1 else k;
    TurnSends(s, available, k);
    PushRejects(s.ring.ring, content);
    var sends := Sends(available, k);
    var sent := RelayRun(s, sends);
    RepeatOnly(WriteByte, PacketSize(k));
    DevicesRun(sent, writes);
    WriteBytes(s.ring, content, PacketSize(k));
    DevicesQuiet(writes);
    DevicesConcat(writes, [PublishIn]);
    DevicesOne(PublishIn);
    assert Turn(k) == sends + (Devices(writes) + [Device(PublishIn)]);
    var written := RelayRun(sent, Devices(writes));
    WrittenFillsAlike(s.ring, content);
    assert RelayNoHiddenFill(written, [Device(PublishIn)]) by {
      assert [Device(PublishIn)][1..] == [];
      assert RelayNoHiddenFill(RelayStep(written, Device(PublishIn)), []);
    }
    QuietRunHasNoFill(sent, Devices(writes));
    QuietRunHasNoFill(s, sends);
    NoFillConcat(sent, Devices(writes), [Device(PublishIn)]);
    NoFillConcat(s, sends, Devices(writes) + [Device(PublishIn)]);
  }

  /** A late fill has happened, the pop has copied everything, and the loop is free to send. */
  ghost predicate LateRelay(u: State, t: RelayState) {
    LateAndCopied(u, t.ring) && t.phase.Sizing?
  }

  lemma LateFillCopiedByRelay(s: RelayState) returns (copies: seq<RelayAction>, u: State)
    requires s.phase.Sizing? && Inv(s.ring) && LateFill(s.ring, PublishIn)
    ensures var t0 := RelayStep(s, Device(PublishIn));
            var t := RelayRun(t0, copies);
            && RelayNoHiddenFill(t0, copies) && LateRelay(u, t)
            && t == s.(ring := t.ring) && u.pushed == s.ring.pushed && u.popped == s.ring.popped == t.ring.popped
            && t.ring.pushed == s.ring.pushed + [s.ring.producer.content]
            && |u.popped| <= |u.pushed|
  {
    hide Step, Run, QueueInv, IndexInv, ProducerInv, ConsumerInv, LateFill, RelayRun, LateAndCopied, Devices;
    var remaining;
    remaining, u := LateFillCopied(s.ring);
    var t0 := RelayStep(s, Device(PublishIn));
    DevicesRun(t0, remaining);
    copies := Devices(remaining);
    DevicesQuiet(remaining);
    QuietRunHasNoFill(t0, copies);
  }

  /** The loop sizes its buffer for the whole area and the pop publishes before the loop sends. */
  lemma StopsDirectly(u: State, t: RelayState) returns (rest: seq<RelayAction>)
    requires LateRelay(u, t) && |t.stream| > MAXIMUM_PUSH_SIZE
    requires PacketSize(|Outstanding(u)[0]|) < 16416 || |u.ring.data| <= 16416
    ensures RelayNoHiddenFill(t, rest) && RelayRun(t, rest).phase == Stopped(InsufficientSpace)
  {
    hide Packet, Encodable, PacketSize, Step, IndexInv, ProducerInv, ConsumerInv, RelayRun, Represents,
      MaximumPushSize, Advance;
    var n, size := |u.ring.data|, PacketSize(|Outstanding(u)[0]|);
    AlignedArea(u);
    PacketSizeAligned(|Outstanding(u)[0]|);
    FullOffer(n, size);
    MaximumPushSizeGrows(n, n);
    LatePublish(u, t.ring);
    SpaceAfterLatePublish(t.ring.ring, size);
    LastTurn(t, MaximumPushSize(n));
    rest := [Size(MaximumPushSize(n)), Device(PublishOut), Receive(MaximumPushSize(n)), Send];
    QuietRunHasNoFill(t, rest);
  }

  lemma LargeOffer(writable: nat)
    requires writable % 8 == 0 && writable >= 16408
    ensures var m := MaximumPushSize(writable);
            0 < m <= MAXIMUM_PUSH_SIZE && Encodable(m) && PacketSize(m) >= 16408
  {
    hide Encodable, PacketSize;
    AlignedMaximum(writable);
    MaximumPushSizeIsTight(writable, MaximumPushSize(writable));
  }

  /** When the packet being popped is of full size, one small turn first leaves the loop short. */
  lemma StopsAfterSmallTurn(u: State, t: RelayState) returns (rest: seq<RelayAction>)
    requires LateRelay(u, t) && |t.stream| > MAXIMUM_PUSH_SIZE
    requires PacketSize(|Outstanding(u)[0]|) == 16416
    ensures RelayNoHiddenFill(t, rest) && RelayRun(t, rest).phase == Stopped(InsufficientSpace)
  {
    hide Packet, Encodable, Step, QueueInv, IndexInv, ProducerInv, ConsumerInv, RelayRun, RelayNoHiddenFill, Turn,
      Represents, MaximumPushSize, PacketSize, Advance, Store, Push, HidesContents;
    var r := t.ring.ring;
    var m := MaximumPushSize(|r.data| - 40);
    AlignedArea(u);
    LargeOffer(|r.data| - 40);
    OneByteFits(r, t.stream[..1]);
    SmallPacketIsNoFill(r);
    TurnPushes(t, 1);
    TurnHasNoFill(t, 1);
    var t1 := RelayRun(t, Turn(1));
    LatePublish(u, t1.ring);
    SpaceAfterSmallPush(r, t1.ring.ring);
    LastTurn(t1, m);
    var last := [Size(m), Device(PublishOut), Receive(m), Send];
    QuietRunHasNoFill(t1, last);
    NoFillConcat(t, Turn(1), last);
    RelayRunConcat(t, Turn(1), last);
    rest := Turn(1) + last;
  }

  /** Free space after one small push into an area that reads as empty, before and after a pop of a large packet. */
  lemma SpaceAfterSmallPush(r: Ring, pushed: Ring)
    requires r.Valid() && r.inIndex == r.outIndex && |r.data| == |pushed.data| >= 16448
    requires pushed.inIndex == Advance(|r.data|, r.inIndex, 40) && pushed.outIndex == r.outIndex
    ensures pushed.Valid() && pushed.WriteSize() == |r.data| - 40
    ensures Advance(|r.data|, r.outIndex, 16416) <= |r.data|
    ensures pushed.(outIndex := Advance(|r.data|, r.outIndex, 16416)).WriteSize() == 16376
  {}

  /** After a late fill in a state the relay can be in, wherever the pop is and however large the ring: a continuation
      without another hidden fill stops the loop. */
  lemma LateFillCanStopRelay(s: RelayState) returns (continuation: seq<RelayAction>)
    requires s.phase.Sizing? && Inv(s.ring) && SmallPackets(s.ring) && LateFill(s.ring, PublishIn)
    requires |s.stream| > MAXIMUM_PUSH_SIZE
    ensures var t := RelayStep(s, Device(PublishIn));
            RelayNoHiddenFill(t, continuation) && RelayRun(t, continuation).phase == Stopped(InsufficientSpace)
  {
    hide Step, QueueInv, IndexInv, ProducerInv, ConsumerInv, RelayStep, RelayRun, RelayNoHiddenFill, PacketSize,
      LateFill;
    var copies, u := LateFillCopiedByRelay(s);
    var t0 := RelayStep(s, Device(PublishIn));
    var t := RelayRun(t0, copies);
    SmallHead(s, u);
    var rest;
    if PacketSize(|Outstanding(u)[0]|) < 16416 {
      rest := StopsDirectly(u, t);
    } else {
      rest := StopsAfterSmallTurn(u, t);
    }
    NoFillConcat(t0, copies, rest);
    RelayRunConcat(t0, copies, rest);
    continuation := copies + rest;
  }

  lemma SmallHead(s: RelayState, u: State)
    requires SmallPackets(s.ring) && Inv(u) && u.pushed == s.ring.pushed
    requires |u.popped| <= |u.pushed| && Outstanding(u) != []
    ensures PacketSize(|Outstanding(u)[0]|) <= 16416
  {
    assert Outstanding(u)[0] == u.pushed[|u.popped|];
    Align8IsLeast(PIPE_PACKET_HEADER_SIZE + |Outstanding(u)[0]|, 16408);
  }

  lemma SmallPacketsStep(s: State, a: Action)
    requires s.ring.Valid() && SmallPackets(s)
    requires a.BeginPush? ==> |a.content| <= MAXIMUM_PUSH_SIZE
    ensures SmallPackets(Step(s, a))
  {
    hide Packet, Encodable, PacketSize, Parse;
  }

  /** The invariant holds for some history of small packets. */
  ghost predicate SmallSound(s: State) {
    s.ring.Valid() && exists t: State :: SameButHistory(s, t) && Inv(t) && SmallPackets(t)
  }

  lemma StepKeepsSmallSound(s: State, a: Action)
    requires SmallSound(s) && !LateFill(s, a)
    requires a.BeginPush? ==> |a.content| <= MAXIMUM_PUSH_SIZE
    ensures SmallSound(Step(s, a))
  {
    hide Step, QueueInv, IndexInv, ProducerInv, ConsumerInv, LateFill;
    var t: State :| SameButHistory(s, t) && Inv(t) && SmallPackets(t);
    StepIgnoresHistory(s, t, a);
    SmallPacketsStep(t, a);
    var _ := HistoryStep(s, t, a);
  }

  ghost predicate SmallRelay(s: RelayState) {
    RelaySound(s) && SmallSound(s.ring) && Capped(s.phase)
  }

  lemma RelayStepKeepsSmall(s: RelayState, a: RelayAction)
    requires SmallRelay(s) && s.ring.ring.Valid() && !(a.Device? && LateFill(s.ring, a.action))
    ensures SmallRelay(RelayStep(s, a))
  {
    hide Step, Push, Sound, SmallSound, HidesContents, PacketSize, Encodable;
    RelayStepKeepsSound(s, a);
    assert RelayRun(s, [a]) == RelayStep(s, a) by { RelayRunOne(s, a); }
    RelayRunKeepsCap(s, [a]);
    match a
    case Send => if s.phase.Sending? { StepKeepsSmallSound(s.ring, BeginPush(s.phase.content)); }
    case Device(action) => if !action.BeginPush? { StepKeepsSmallSound(s.ring, action); }
    case _ =>
  }

  lemma {:induction false} RelayRunKeepsSmall(s: RelayState, actions: seq<RelayAction>)
    requires SmallRelay(s) && s.ring.ring.Valid() && RelayNoLateFill(s, actions)
    ensures SmallRelay(RelayRun(s, actions))
    decreases |actions|
  {
    hide RelayStep, SmallRelay, LateFill;
    if actions != [] {
      RelayStepKeepsSmall(s, actions[0]);
      RelayRunKeepsSmall(RelayStep(s, actions[0]), actions[1..]);
    }
  }

  predicate SameRelay(s: RelayState, u: RelayState) {
    u == s.(ring := u.ring) && SameButHistory(s.ring, u.ring)
  }

  lemma {:induction false} RelayIgnoresHistory(s: RelayState, u: RelayState, actions: seq<RelayAction>)
    requires s.ring.ring.Valid() && SameRelay(s, u)
    ensures SameRelay(RelayRun(s, actions), RelayRun(u, actions))
    ensures RelayNoHiddenFill(s, actions) <==> RelayNoHiddenFill(u, actions)
    decreases |actions|
  {
    hide Step, Push, MaximumPushSize, HidesContents;
    if actions != [] {
      RelayStepIgnoresHistory(s, u, actions[0]);
      RelayIgnoresHistory(RelayStep(s, actions[0]), RelayStep(u, actions[0]), actions[1..]);
    }
  }

  lemma RelayStepIgnoresHistory(s: RelayState, u: RelayState, a: RelayAction)
    requires s.ring.ring.Valid() && SameRelay(s, u)
    ensures SameRelay(RelayStep(s, a), RelayStep(u, a))
  {
    hide Step, Push, MaximumPushSize;
    match a
    case Send => if s.phase.Sending? { StepIgnoresHistory(s.ring, u.ring, BeginPush(s.phase.content)); }
    case Device(action) => StepIgnoresHistory(s.ring, u.ring, action);
    case _ =>
  }

  /** Some continuation without a further hidden fill stops the loop. */
  ghost predicate CanStop(s: RelayState)
    requires s.ring.ring.Valid()
  {
    exists c: seq<RelayAction> :: RelayNoHiddenFill(s, c) && RelayRun(s, c).phase.Stopped?
  }

  lemma {:induction false} NoHiddenFillIsNoLateRelayFill(s: RelayState, actions: seq<RelayAction>)
    requires s.ring.ring.Valid() && RelayNoHiddenFill(s, actions)
    ensures RelayNoLateFill(s, actions)
    decreases |actions|
  {
    hide RelayStep, HiddenFill;
    if actions != [] { NoHiddenFillIsNoLateRelayFill(RelayStep(s, actions[0]), actions[1..]); }
  }

  lemma InitSmall(data: seq<byte>, stream: seq<byte>)
    requires RingArea(data)
    ensures SmallRelay(RelayInit(data, stream))
  {
    hide QueueInv, IndexInv, ProducerInv, ConsumerInv;
    InitInv(data);
    assert SameButHistory(Init(data), Init(data));
  }

  /** Exactly which publications endanger the loop. In any run without late fills so far, with more than 16384 bytes of
      the stream left: after the producer publishes, some continuation without a further hidden fill stops the loop if
      and only if that publication was a late fill. */
  lemma LateFillStopsRelayIff(data: seq<byte>, stream: seq<byte>, actions: seq<RelayAction>)
    requires RingArea(data) && RelayNoLateFill(RelayInit(data, stream), actions)
    requires |RelayRun(RelayInit(data, stream), actions).stream| > MAXIMUM_PUSH_SIZE
    ensures var s := RelayRun(RelayInit(data, stream), actions);
            CanStop(RelayStep(s, Device(PublishIn))) <==> LateFill(s.ring, PublishIn)
  {
    hide Step, Inv, SmallPackets, Sound, RelayRun, RelayStep, RelayNoHiddenFill, HidesContents;
    InitSmall(data, stream);
    RelayRunKeepsSmall(RelayInit(data, stream), actions);
    var s := RelayRun(RelayInit(data, stream), actions);
    var t := RelayStep(s, Device(PublishIn));
    if LateFill(s.ring, PublishIn) {
      var h: State :| SameButHistory(s.ring, h) && Inv(h) && SmallPackets(h);
      var u := s.(ring := h);
      var c := LateFillCanStopRelay(u);
      RelayStepIgnoresHistory(s, u, Device(PublishIn));
      RelayIgnoresHistory(t, RelayStep(u, Device(PublishIn)), c);
      assert RelayNoHiddenFill(t, c);
    } else {
      RelayStepKeepsSmall(s, Device(PublishIn));
      forall c: seq<RelayAction> | RelayNoHiddenFill(t, c)
        ensures !RelayRun(t, c).phase.Stopped?
      {
        NoHiddenFillIsNoLateRelayFill(t, c);
        RelayRunKeepsSound(t, c);
      }
    }
  }

  lemma AlignedArea(s: State)
    requires Inv(s)
    ensures |s.ring.data| % 8 == 0
  {}

  // ---------------------------------------------------------------------------------------------
  // From the initial state
  // ---------------------------------------------------------------------------------------------

  lemma ConsumerChangeKeeps(s: RelayState, u: State, stream: seq<byte>)
    requires RelayInv(s, stream) && s.phase.Sizing?
    requires Inv(u) && u.pushed == s.ring.pushed && u.producer == s.ring.producer
    ensures RelayInv(s.(ring := u), stream)
  {
    hide QueueInv, IndexInv, ProducerInv, ConsumerInv, Concat;
  }

  /** An undisturbed turn that does not fill the ring keeps the invariant of the relay. */
  lemma TurnKeeps(s: RelayState, stream: seq<byte>, k: nat)
    requires RelayInv(s, stream) && s.phase.Sizing? && s.ring.producer.Ready?
    requires var maximum := MaximumPushSize(s.ring.ring.WriteSize());
             k <= |s.stream| && 0 < maximum && k <= maximum
    requires !HidesContents(s.ring.ring, k)
    ensures RelayInv(RelayRun(s, Turn(k)), stream)
  {
    hide Packet, Encodable, PacketSize, Push, MaximumPushSize, HidesContents, HiddenFill, Step, Run, PushCall,
      RelayRun, RelayStep, Concat, QueueInv, IndexInv, ProducerInv, ConsumerInv, Turn;
    var content := s.stream[..k];
    TurnPushes(s, k);
    PushCallIsPush(s.ring, content);
    PushCallKeepsInv(s.ring, content);
    ConcatAppend(s.ring.pushed, content);
    assert s.stream == content + s.stream[k..];
  }

  lemma OneByteFits(r: Ring, content: Payload)
    requires r.Valid() && r.WriteSize() >= 40 && |content| == 1
    ensures 1 <= MaximumPushSize(r.WriteSize())
    ensures var t := Push(r, content).0;
            t.outIndex == r.outIndex && t.inIndex == Advance(|r.data|, r.inIndex, 40) && |t.data| == |r.data|
  {
    hide Packet;
  }

  /** A turn of one byte takes 40 bytes of the free space. */
  lemma TurnOfOne(s: RelayState, stream: seq<byte>)
    requires RelayInv(s, stream) && s.phase.Sizing? && s.ring.producer.Ready?
    requires s.stream != [] && s.ring.ring.WriteSize() >= 40
    requires !HidesContents(s.ring.ring, 1)
    ensures var t := RelayRun(s, Turn(1));
            && RelayInv(t, stream) && t.phase.Sizing? && t.ring.producer.Ready?
            && t.stream == s.stream[1..]
            && t.ring.consumer == s.ring.consumer && t.ring.popped == s.ring.popped
            && t.ring.pushed == s.ring.pushed + [s.stream[..1]]
            && |t.ring.ring.data| == |s.ring.ring.data| && t.ring.ring.outIndex == s.ring.ring.outIndex
            && t.ring.ring.inIndex == Advance(|s.ring.ring.data|, s.ring.ring.inIndex, 40)
  {
    hide Packet, PacketSize, Encodable, Push, MaximumPushSize, Advance, HidesContents, Step, QueueInv, IndexInv,
      ProducerInv, ConsumerInv, Turn, Concat, InFlight, Store, RelayRun, RelayStep;
    OneByteFits(s.ring.ring, s.stream[..1]);
    TurnPushes(s, 1);
    TurnKeeps(s, stream, 1);
  }

  /** The consumer is about to publish a small packet; the relay goes on until it can fill the ring exactly. */
  lemma {:induction false} RelayCanStop(s: RelayState, stream: seq<byte>) returns (continuation: seq<RelayAction>)
    requires RelayInv(s, stream) && s.phase.Sizing? && s.ring.producer.Ready?
    requires s.ring.consumer.Reading? && |s.ring.consumer.copied| == s.ring.consumer.available
    requires 40 <= s.ring.ring.WriteSize() && s.ring.ring.outIndex > 0
    requires Outstanding(s.ring) != [] && PacketSize(|Outstanding(s.ring)[0]|) < 16416
    requires |s.stream| >= s.ring.ring.WriteSize() + 32768
    ensures RelayRun(s, continuation).phase == Stopped(InsufficientSpace)
    decreases s.ring.ring.WriteSize()
  {
    hide Packet, PacketSize, Encodable, Step, IndexInv, ProducerInv, ConsumerInv, Turn, Concat, InFlight,
      RelayStep, RelayRun, Represents, HidesContents;
    if s.ring.ring.WriteSize() <= 16416 {
      continuation := HiddenFillCanStopRelay(s, stream);
    } else {
      SmallPacketIsNoFill(s.ring.ring);
      TurnOfOne(s, stream);
      var t := RelayRun(s, Turn(1));
      assert Outstanding(t.ring)[0] == Outstanding(s.ring)[0];
      var rest := RelayCanStop(t, stream);
      RelayRunConcat(s, Turn(1), rest);
      continuation := Turn(1) + rest;
    }
  }

  lemma SmallPacketIsNoFill(r: Ring)
    requires r.Valid() && r.WriteSize() > 40
    ensures !HidesContents(r, 1)
  {}

  lemma InitRelayInv(data: seq<byte>, stream: seq<byte>)
    requires RingArea(data)
    ensures RelayInv(RelayInit(data, stream), stream)
  {
    hide QueueInv, IndexInv, ProducerInv, ConsumerInv;
    InitInv(data);
  }

  /** One packet goes through the relay. */
  lemma RelayPopsOne(data: seq<byte>, stream: seq<byte>)
    requires RingArea(data) && |data| >= 40 && stream != []
    ensures var s := RelayRun(RelayInit(data, stream), Turn(1) + Devices(PopCall(40)));
            && RelayInv(s, stream) && s.phase.Sizing? && s.ring.producer.Ready? && s.ring.consumer.Waiting?
            && |s.ring.ring.data| == |data| && s.ring.ring.inIndex == s.ring.ring.outIndex == 40
            && s.ring.popped == s.ring.pushed == [stream[..1]] && s.stream == stream[1..]
  {
    hide Packet, Parse, Represents, QueueInv, IndexInv, ProducerInv, ConsumerInv, Turn, Concat, Step, PopCall, Run,
      RelayRun, RelayStep, Push, Store, Slot;
    InitRelayInv(data, stream);
    var s0 := RelayInit(data, stream);
    var s1 := RelayRun(s0, Turn(1));
    TurnOfOne(s0, stream);
    assert s1.ring.ring.inIndex == s1.ring.ring.ReadSize() == 40;
    PopOfOne(s1.ring);
    PopCallIsPop(s1.ring);
    PopCallKeepsInv(s1.ring);
    PopCallBegins(40);
    DevicesRun(s1, PopCall(40));
    var s2 := s1.(ring := Run(s1.ring, PopCall(40)));
    ConsumerChangeKeeps(s1, s2.ring, stream);
    AllPopped(s2.ring);
    RelayRunConcat(s0, Turn(1), Devices(PopCall(40)));
  }

  lemma AllPopped(s: State)
    requires Inv(s) && |s.popped| == |s.pushed|
    ensures s.popped == s.pushed
  {
    hide Represents, IndexInv, ProducerInv, ConsumerInv;
  }

  /** One packet went through, a second is out and the consumer has copied it but not published. */
  lemma RelayReachesLateConsumer(data: seq<byte>, stream: seq<byte>) returns (actions: seq<RelayAction>)
    requires RingArea(data) && |data| >= 80 && |stream| >= 2
    ensures var s := RelayRun(RelayInit(data, stream), actions);
            && RelayInv(s, stream) && s.phase.Sizing? && s.ring.producer.Ready?
            && s.ring.consumer.Reading? && |s.ring.consumer.copied| == s.ring.consumer.available
            && s.ring.ring.WriteSize() == |data| - 40 && s.ring.ring.outIndex == 40
            && Outstanding(s.ring) == [stream[1..2]] && s.stream == stream[2..]
  {
    hide Packet, Parse, Represents, IndexInv, ProducerInv, ConsumerInv, Turn, Concat, Step, PopCall, Run,
      RelayRun, RelayStep, Push, Store, Slot;
    RelayPopsOne(data, stream);
    var first := Turn(1) + Devices(PopCall(40));
    var s0 := RelayInit(data, stream);
    var s2 := RelayRun(s0, first);
    SmallPacketIsNoFill(s2.ring.ring);
    TurnOfOne(s2, stream);
    var s3 := RelayRun(s2, Turn(1));
    CopyOnly(s3, stream);
    var copy := Devices([BeginPop] + Repeat(ReadByte, 40));
    RelayRunConcat(s0, first, Turn(1));
    RelayRunConcat(s0, first + Turn(1), copy);
    assert |s3.ring.popped| == 1 && s2.stream[..1] == stream[1..2];
    actions := first + Turn(1) + copy;
  }

  lemma PopCallBegins(k: nat)
    ensures forall a <- PopCall(k) :: !a.BeginPush? && !a.PublishIn?
    ensures forall a <- [BeginPop] + Repeat(ReadByte, k) :: !a.BeginPush? && !a.PublishIn?
  {
    RepeatOnly(ReadByte, k);
  }

  /** A consumer that copies everything and does not publish. */
  lemma CopyOnly(s: RelayState, stream: seq<byte>)
    requires RelayInv(s, stream) && s.phase.Sizing? && s.ring.consumer.Waiting?
    requires s.ring.ring.ReadSize() == 40
    ensures var t := RelayRun(s, Devices([BeginPop] + Repeat(ReadByte, 40)));
            && RelayInv(t, stream) && t == s.(ring := ReadSoFar(s.ring, 40))
            && t.ring.consumer.Reading? && |t.ring.consumer.copied| == t.ring.consumer.available == 40
  {
    hide Packet, Parse, Represents, QueueInv, IndexInv, ProducerInv, ConsumerInv, Step, Concat, InFlight, Repeat;
    var copy := [BeginPop] + Repeat(ReadByte, 40);
    PopCallBegins(40);
    DevicesRun(s, copy);
    ReadBytes(s.ring, 40);
    RunOne(s.ring, BeginPop);
    RunConcat(s.ring, [BeginPop], Repeat(ReadByte, 40));
    QuietRunKeepsInv(s.ring, copy);
    ConsumerChangeKeeps(s, ReadSoFar(s.ring, 40), stream);
  }

  /** Bytes that turns of one byte and a last exact fill put into this much free space. */
  function FillBytes(writable: nat): (bytes: nat)
    requires writable >= 40
    ensures bytes > 0
  {
    if writable <= 16416 then writable - 32 else 1 + FillBytes(writable - 40)
  }

  /** The consumer is idle; the relay fills the ring exactly. Everything outstanding is lost. */
  lemma {:induction false} RelayFillsIdle(s: RelayState, stream: seq<byte>) returns (actions: seq<RelayAction>)
    requires RelayInv(s, stream) && s.phase.Sizing? && s.ring.producer.Ready? && s.ring.consumer.Waiting?
    requires s.ring.ring.WriteSize() >= 40 && s.ring.ring.outIndex > 0
    requires |s.stream| >= FillBytes(s.ring.ring.WriteSize())
    ensures var t := RelayRun(s, actions);
            && t.ring.ring.Valid() && |t.ring.ring.data| == |s.ring.ring.data|
            && t.phase.Sizing? && t.ring.producer.Ready? && t.ring.consumer.Waiting?
            && t.ring.ring.inIndex == t.ring.ring.outIndex > 0 && t.ring.popped == s.ring.popped
            && t.stream == s.stream[FillBytes(s.ring.ring.WriteSize())..]
    decreases s.ring.ring.WriteSize()
  {
    hide Packet, PacketSize, Encodable, Step, QueueInv, IndexInv, ProducerInv, ConsumerInv, Turn, Concat, InFlight,
      RelayStep, RelayRun, Represents, HidesContents, Push;
    var writable := s.ring.ring.WriteSize();
    AlignedSpace(s.ring);
    if writable <= 16416 {
      actions := Turn(writable - 32);
      LastFill(s, stream);
    } else {
      SmallPacketIsNoFill(s.ring.ring);
      TurnOfOne(s, stream);
      var t := RelayRun(s, Turn(1));
      assert t.ring.ring.WriteSize() == writable - 40;
      var rest := RelayFillsIdle(t, stream);
      RelayRunConcat(s, Turn(1), rest);
      actions := Turn(1) + rest;
    }
  }

  lemma LastFill(s: RelayState, stream: seq<byte>)
    requires RelayInv(s, stream) && s.phase.Sizing? && s.ring.producer.Ready?
    requires 40 <= s.ring.ring.WriteSize() <= 16416 && s.ring.ring.outIndex > 0
    requires |s.stream| >= s.ring.ring.WriteSize() - 32
    ensures var k := s.ring.ring.WriteSize() - 32;
            var t := RelayRun(s, Turn(k));
            && t.ring.ring.Valid() && |t.ring.ring.data| == |s.ring.ring.data|
            && t.phase.Sizing? && t.ring.producer.Ready? && t.ring.consumer == s.ring.consumer
            && t.ring.ring.inIndex == t.ring.ring.outIndex > 0 && t.ring.popped == s.ring.popped
            && t.stream == s.stream[k..]
  {
    hide Packet, PacketSize, Encodable, Step, IndexInv, ProducerInv, ConsumerInv, Turn, Concat, InFlight, Represents,
      RelayRun, Push, MaximumPushSize, Advance;
    var k := s.ring.ring.WriteSize() - 32;
    AlignedSpace(s.ring);
    AlignedMaximum(k + 32);
    TurnPushes(s, k);
    InAfterOut(s.ring);
    ExactFillMeetsOut(s.ring.ring, s.stream[..k]);
  }

  /** The loop sends one byte into a ring that reads as empty, and the consumer pops it. */
  lemma OneByteThrough(s: RelayState)
    requires s.ring.ring.Valid() && s.phase.Sizing? && s.ring.producer.Ready? && s.ring.consumer.Waiting?
    requires s.ring.ring.inIndex == s.ring.ring.outIndex && |s.ring.ring.data| > 40 && s.stream != []
    requires s.ring.ring.outIndex > 0
    ensures RelayNoHiddenFill(s, Turn(1) + Devices(PopCall(40)))
    ensures var t := RelayRun(s, Turn(1) + Devices(PopCall(40)));
            && t.phase.Sizing? && t.ring.popped == s.ring.popped + [s.stream[..1]]
            && t.stream == s.stream[1..] && t.received == s.received + s.stream[..1]
  {
    hide Packet, PacketSize, Encodable, Step, Turn, RelayRun, Run, Push, Pop, Parse, PopCall, Advance;
    var r, content := s.ring.ring, s.stream[..1];
    OneByteFits(r, content);
    SmallPacketIsNoFill(r);
    TurnPushes(s, 1);
    var t := RelayRun(s, Turn(1));
    PushThenPop(r, content);
    SmallPacketReads(r, t.ring.ring);
    PopCallIsPop(t.ring);
    PopCallBegins(40);
    DevicesRun(t, PopCall(40));
    RelayRunConcat(s, Turn(1), Devices(PopCall(40)));
    TurnHasNoFill(s, 1);
    DevicesQuiet(PopCall(40));
    QuietRunHasNoFill(t, Devices(PopCall(40)));
    NoFillConcat(s, Turn(1), Devices(PopCall(40)));
  }

  lemma SmallPacketReads(r: Ring, pushed: Ring)
    requires r.Valid() && r.inIndex == r.outIndex && |r.data| == |pushed.data| > 40
    requires pushed.outIndex == r.outIndex && pushed.inIndex == Advance(|r.data|, r.inIndex, 40)
    ensures pushed.Valid() && pushed.ReadSize() == 40
  {}

  lemma {:induction false} ReceivedFromStream(s: RelayState, actions: seq<RelayAction>)
    requires s.ring.ring.Valid()
    ensures RelayRun(s, actions).received + RelayRun(s, actions).stream == s.received + s.stream
    decreases |actions|
  {
    hide Step, Push, MaximumPushSize;
    if actions != [] {
      ReceivedFromStream(RelayStep(s, actions[0]), actions[1..]);
      var t := RelayStep(s, actions[0]);
      assert t.received + t.stream == s.received + s.stream;
    }
  }

  lemma ConcatOfTwo(a: Payload, b: Payload)
    ensures Concat([a, b]) == a + b
  {
    ConcatAppend([], a);
    ConcatAppend([a], b);
    assert [] + [a] == [a] && [a] + [b] == [a, b];
    assert Concat([]) == [];
  }

  /** The other half of RelayPreservesStream needs the hypothesis too, on every ring of 48 bytes or more: when the byte
      that follows an exact fill differs from the first byte lost in it, a run in which what was popped is no prefix of
      what was received. */
  lemma RelayCanLoseStream(data: seq<byte>, stream: seq<byte>) returns (actions: seq<RelayAction>)
    requires RingArea(data) && |data| > 40
    requires |stream| > 1 + FillBytes(|data|) && stream[1 + FillBytes(|data|)] != stream[1]
    ensures var t := RelayRun(RelayInit(data, stream), actions);
            !t.phase.Stopped? && !(Concat(t.ring.popped) <= t.received)
  {
    hide Packet, Step, QueueInv, IndexInv, ProducerInv, ConsumerInv, Turn, Concat, InFlight, PopCall, Run, RelayRun,
      RelayStep, Represents, FillBytes;
    var first := Turn(1) + Devices(PopCall(40));
    RelayPopsOne(data, stream);
    var s := RelayRun(RelayInit(data, stream), first);
    var fill := RelayFillsIdle(s, stream);
    var u := RelayRun(s, fill);
    OneByteThrough(u);
    var last := Turn(1) + Devices(PopCall(40));
    RelayRunConcat(RelayInit(data, stream), first, fill);
    RelayRunConcat(RelayInit(data, stream), first + fill, last);
    actions := first + fill + last;
    var t := RelayRun(RelayInit(data, stream), actions);
    ConcatOfTwo(stream[..1], u.stream[..1]);
    assert t.ring.popped == [stream[..1], u.stream[..1]];
    ReceivedFromStream(RelayInit(data, stream), actions);
    LostByte(stream, t.received, t.stream, u.stream);
  }

  lemma LostByte(stream: seq<byte>, received: seq<byte>, left: seq<byte>, before: seq<byte>)
    requires before != [] && left == before[1..] && received + left == [] + stream
    requires |before| + 1 < |stream| && before[0] != stream[1]
    ensures !(stream[..1] + before[..1] <= received)
  {
    assert stream[1] == (received + left)[1] == received[1];
    assert (stream[..1] + before[..1])[1] == before[0];
  }

  /** RelayPreservesStream needs its hypothesis on every ring of 80 bytes or more: from the initial state, for every
      stream that is long enough, a run in which the loop stops on "Insufficient Space". */
  lemma RelayStopsFromStart(data: seq<byte>, stream: seq<byte>) returns (actions: seq<RelayAction>)
    requires RingArea(data) && |data| >= 80 && |stream| >= |data| + 32768
    ensures RelayRun(RelayInit(data, stream), actions).phase == Stopped(InsufficientSpace)
  {
    hide Packet, Encodable, Step, QueueInv, IndexInv, ProducerInv, ConsumerInv, RelayInv, RelayRun;
    var first := RelayReachesLateConsumer(data, stream);
    var s := RelayRun(RelayInit(data, stream), first);
    var rest := RelayCanStop(s, stream);
    RelayRunConcat(RelayInit(data, stream), first, rest);
    actions := first + rest;
  }

  // ---------------------------------------------------------------------------------------------
  // Which publications endanger the stream
  // ---------------------------------------------------------------------------------------------

  /** In some continuation without a further hidden fill what was popped is no prefix of what was received. */
  ghost predicate CanLose(s: RelayState)
    requires s.ring.ring.Valid()
  {
    exists c: seq<RelayAction> :: RelayNoHiddenFill(s, c)
                                  && !(Concat(RelayRun(s, c).ring.popped) <= RelayRun(s, c).received)
  }

  /** The payloads that a fill hides, whether or not one of them is being popped. */
  function Hidden(s: State): seq<Payload>
    requires |s.popped| <= |s.pushed|
  {
    if s.consumer.Reading? && Outstanding(s) != [] then Outstanding(s)[1..] else Outstanding(s)
  }

  /** The size of the payload being popped; as much of the stream is lost with the hidden payloads. */
  function Skipped(s: State): nat
    requires |s.popped| <= |s.pushed|
  {
    if s.consumer.Reading? && Outstanding(s) != [] then |Outstanding(s)[0]| else 0
  }

  /** The first byte lost differs from the next one relayed, so that the loss shows. */
  predicate LossShows(s: RelayState)
    requires |s.ring.popped| <= |s.ring.pushed|
  {
    var skipped := Skipped(s.ring);
    && s.ring.producer.Writing? && skipped < |s.stream|
    && var lost := Concat(Hidden(s.ring)) + s.ring.producer.content + s.stream[..skipped];
       lost != [] && lost[0] != s.stream[skipped]
  }

  lemma {:induction false} ConcatConcat(p: seq<Payload>, q: seq<Payload>)
    ensures Concat(p + q) == Concat(p) + Concat(q)
    decreases |q|
  {
    if q == [] {
      assert p + q == p;
    } else {
      var last := |q| - 1;
      ConcatConcat(p, q[..last]);
      assert p + q == (p + q[..last]) + [q[last]];
      ConcatAppend(p + q[..last], q[last]);
    }
  }

  lemma LossIsNoPrefix(before: seq<byte>, lost: seq<byte>, next: seq<byte>)
    requires lost != [] && next != [] && lost[0] != next[0]
    ensures !(before + next <= before + lost + next)
  {
    assert (before + next)[|before|] == next[0];
    assert (before + lost + next)[|before|] == lost[0];
  }

  /** Where the bytes received are when a publication is due: popped, outstanding, or in the producer's hands. */
  lemma ReceivedBytes(s: RelayState, stream: seq<byte>)
    requires RelayInv(s, stream) && s.ring.producer.Writing?
    ensures s.phase.Sizing? && |s.ring.popped| <= |s.ring.pushed|
    ensures s.received == Concat(s.ring.popped) + Concat(Outstanding(s.ring)) + s.ring.producer.content
  {
    hide Represents, IndexInv, ProducerInv, ConsumerInv, Concat;
    ConcatConcat(s.ring.popped, Outstanding(s.ring));
    assert s.ring.pushed == s.ring.popped + Outstanding(s.ring);
    assert s.ring.producer.content + [] == s.ring.producer.content;
  }

  /** With the consumer idle the next byte of the stream goes through at once. */
  lemma IdleFillLosesStream(s: RelayState, stream: seq<byte>) returns (continuation: seq<RelayAction>)
    requires RelayInv(s, stream) && HiddenFill(s.ring, PublishIn) && |s.ring.ring.data| > 40
    requires s.ring.consumer.Waiting? && |s.ring.popped| <= |s.ring.pushed| && LossShows(s)
    ensures var t := RelayStep(s, Device(PublishIn));
            && RelayNoHiddenFill(t, continuation)
            && !(Concat(RelayRun(t, continuation).ring.popped) <= RelayRun(t, continuation).received)
  {
    hide Step, IndexInv, ProducerInv, ConsumerInv, Represents, HiddenFill, Concat, RelayRun, Turn, PopCall;
    ReceivedBytes(s, stream);
    IdleFillLoses(s.ring);
    var t := RelayStep(s, Device(PublishIn));
    OneByteThrough(t);
    continuation := Turn(1) + Devices(PopCall(40));
    ConcatAppend(s.ring.popped, s.stream[..1]);
    var lost := Concat(Outstanding(s.ring)) + s.ring.producer.content;
    assert lost + s.stream[..0] == lost;
    LossIsNoPrefix(Concat(s.ring.popped), lost, s.stream[..1]);
    assert s.received + s.stream[..1] == Concat(s.ring.popped) + lost + s.stream[..1];
  }

  /** A payload as long as the one being popped fits into an area that reads as empty, without filling it. */
  lemma SkipFits(n: nat, k: nat)
    requires n % 8 == 0 && PacketSize(k) + 32 <= n && k <= MAXIMUM_PUSH_SIZE
    ensures k <= MaximumPushSize(n) && MaximumPushSize(n) > 0 && Encodable(k)
  {
    AlignedMaximum(n);
    PacketSizeAligned(k);
    Align8IsLeast(PIPE_PACKET_HEADER_SIZE + k, 16408);
    assert PacketSize(k) >= 32 + k;
  }

  /** During a pop the loop relays as many bytes as the pop returns before the pop publishes. */
  lemma LateFillLosesRest(u: State, t: RelayState)
    requires LateRelay(u, t) && |u.popped| <= |u.pushed|
    requires |t.ring.popped| + 2 <= |t.ring.pushed|
    requires |Outstanding(u)[0]| <= MAXIMUM_PUSH_SIZE && |Outstanding(u)[0]| <= |t.stream|
    ensures var k := |Outstanding(u)[0]|;
            var v := RelayRun(t, Turn(k) + [Device(PublishOut)]);
            && RelayNoHiddenFill(t, Turn(k) + [Device(PublishOut)])
            && v.phase.Sizing? && ContentsLost(v.ring) && |v.ring.ring.data| == |t.ring.ring.data|
            && v.ring.popped == t.ring.popped + [Outstanding(u)[0]]
            && v.stream == t.stream[k..] && v.received == t.received + t.stream[..k]
  {
    hide Packet, Encodable, PacketSize, Step, Run, RelayRun, RelayNoHiddenFill, Turn, Push, MaximumPushSize, PushCall,
      QueueInv, IndexInv, ProducerInv, ConsumerInv, HidesContents, ContentsLost, Advance;
    var k := |Outstanding(u)[0]|;
    var d := t.stream[..k];
    AlignedArea(u);
    SkipFits(|u.ring.data|, k);
    EmptyWriteSize(t.ring.ring);
    RoomInEmpty(t.ring.ring, d);
    TurnPushes(t, k);
    TurnHasNoFill(t, k);
    PushCallIsPush(t.ring, d);
    LateFillLoses(u, t.ring, d);
    RunConcat(t.ring, PushCall(d), [PublishOut]);
    var w := RelayRun(t, Turn(k));
    RunOne(w.ring, PublishOut);
    RelayRunOne(w, Device(PublishOut));
    RelayRunConcat(t, Turn(k), [Device(PublishOut)]);
    QuietRunHasNoFill(w, [Device(PublishOut)]);
    NoFillConcat(t, Turn(k), [Device(PublishOut)]);
  }

  lemma EmptyWriteSize(r: Ring)
    requires r.Valid() && r.inIndex == r.outIndex
    ensures r.WriteSize() == |r.data|
  {}

  lemma LateFillLosesStream(s: RelayState, stream: seq<byte>) returns (continuation: seq<RelayAction>)
    requires RelayInv(s, stream) && SmallPackets(s.ring) && LateFill(s.ring, PublishIn)
    requires |s.ring.popped| <= |s.ring.pushed| && LossShows(s)
    ensures var t := RelayStep(s, Device(PublishIn));
            && RelayNoHiddenFill(t, continuation)
            && !(Concat(RelayRun(t, continuation).ring.popped) <= RelayRun(t, continuation).received)
  {
    hide Step, IndexInv, ProducerInv, ConsumerInv, Represents, HiddenFill, Concat, RelayRun, RelayStep,
      RelayNoHiddenFill, Turn, PopCall, PacketSize, Devices;
    ReceivedBytes(s, stream);
    var t0 := RelayStep(s, Device(PublishIn));
    var copies, u := LateFillCopiedByRelay(s);
    var t := RelayRun(t0, copies);
    var head := Outstanding(s.ring)[0];
    assert head == s.ring.pushed[|s.ring.popped|];
    LateFillLosesRest(u, t);
    var finish := Turn(|head|) + [Device(PublishOut)];
    var v := RelayRun(t, finish);
    LateAreaSize(u);
    OneByteThrough(v);
    var last := Turn(1) + Devices(PopCall(40));
    RelayRunConcat(t, finish, last);
    RelayRunConcat(t0, copies, finish + last);
    NoFillConcat(t, finish, last);
    NoFillConcat(t0, copies, finish + last);
    continuation := copies + (finish + last);
    LateLossShows(s, RelayRun(t0, continuation));
  }

  lemma LateLossShows(s: RelayState, end: RelayState)
    requires |s.ring.popped| <= |s.ring.pushed| && s.ring.consumer.Reading? && Outstanding(s.ring) != []
    requires LossShows(s)
    requires s.received == Concat(s.ring.popped) + Concat(Outstanding(s.ring)) + s.ring.producer.content
    requires var k := |Outstanding(s.ring)[0]|;
             && end.ring.popped == s.ring.popped + [Outstanding(s.ring)[0]] + [s.stream[k..][..1]]
             && end.received == s.received + s.stream[..k] + s.stream[k..][..1]
    ensures !(Concat(end.ring.popped) <= end.received)
  {
    hide Concat;
    var head, k := Outstanding(s.ring)[0], |Outstanding(s.ring)[0]|;
    var next, content := s.stream[k..][..1], s.ring.producer.content;
    var before, hidden := Concat(s.ring.popped) + head, Concat(Hidden(s.ring));
    var lost := hidden + content + s.stream[..k];
    ConcatAppend(s.ring.popped, head);
    ConcatAppend(s.ring.popped + [head], next);
    ConcatConcat([head], Hidden(s.ring));
    ConcatOfOne(head);
    assert Outstanding(s.ring) == [head] + Hidden(s.ring);
    LossIsNoPrefix(before, lost, next);
    assert end.received == before + lost + next;
  }

  lemma ConcatOfOne(a: Payload)
    ensures Concat([a]) == a
  {
    ConcatAppend([], a);
    assert [] + [a] == [a] && Concat([]) == [];
  }

  lemma {:induction false} RelayRunKeepsPackets(s: RelayState, actions: seq<RelayAction>)
    requires s.ring.ring.Valid() && SmallPackets(s.ring) && Capped(s.phase)
    ensures SmallPackets(RelayRun(s, actions).ring)
    decreases |actions|
  {
    hide Step, Push, SmallPackets;
    if actions != [] {
      var a := actions[0];
      RelayRunOne(s, a);
      RelayRunKeepsCap(s, [a]);
      match a {
        case Send => if s.phase.Sending? { SmallPacketsStep(s.ring, BeginPush(s.phase.content)); }
        case Device(action) => if !action.BeginPush? { SmallPacketsStep(s.ring, action); }
        case _ =>
      }
      RelayRunKeepsPackets(RelayStep(s, a), actions[1..]);
    }
  }

  /** In any run without hidden fills so far: only if the publication that comes next is a hidden fill can a
      continuation without a further one pop bytes that are no prefix of those received; and then one does, on an area
      of 48 bytes or more, whenever the first byte lost differs from the next one relayed. */
  lemma HiddenFillLosesStream(data: seq<byte>, stream: seq<byte>, actions: seq<RelayAction>)
    requires RingArea(data) && RelayNoHiddenFill(RelayInit(data, stream), actions)
    ensures var s := RelayRun(RelayInit(data, stream), actions);
            && |s.ring.popped| <= |s.ring.pushed|
            && (CanLose(RelayStep(s, Device(PublishIn))) ==> HiddenFill(s.ring, PublishIn))
            && (HiddenFill(s.ring, PublishIn) && |data| > 40 && LossShows(s) ==>
                  CanLose(RelayStep(s, Device(PublishIn))))
  {
    hide Step, IndexInv, ProducerInv, ConsumerInv, Represents, HiddenFill, RelayRun, RelayStep, RelayNoHiddenFill,
      Concat, InFlight, SmallPackets;
    InitRelayInv(data, stream);
    InitPackets(data, stream);
    RelayRunKeeps(RelayInit(data, stream), stream, actions);
    RelayRunKeepsPackets(RelayInit(data, stream), actions);
    var s := RelayRun(RelayInit(data, stream), actions);
    RelayArea(RelayInit(data, stream), actions);
    var t := RelayStep(s, Device(PublishIn));
    if HiddenFill(s.ring, PublishIn) {
      if |data| > 40 && LossShows(s) {
        var c;
        if s.ring.consumer.Waiting? {
          c := IdleFillLosesStream(s, stream);
        } else {
          c := LateFillLosesStream(s, stream);
        }
        assert RelayNoHiddenFill(t, c);
      }
    } else {
      RelayStepKeeps(s, stream, Device(PublishIn));
      forall c: seq<RelayAction> | RelayNoHiddenFill(t, c)
        ensures Concat(RelayRun(t, c).ring.popped) <= RelayRun(t, c).received
      {
        RelayRunKeeps(t, stream, c);
        var u := RelayRun(t, c);
        ConcatPrefix(u.ring.popped, u.ring.pushed);
        ReceivedCoversPushed(u, stream);
      }
    }
  }

  lemma ReceivedCoversPushed(s: RelayState, stream: seq<byte>)
    requires RelayInv(s, stream)
    ensures Concat(s.ring.pushed) <= s.received
  {}

  lemma InitPackets(data: seq<byte>, stream: seq<byte>)
    requires RingArea(data)
    ensures SmallPackets(RelayInit(data, stream).ring) && Capped(RelayInit(data, stream).phase)
  {}

  lemma {:induction false} RelayArea(s: RelayState, actions: seq<RelayAction>)
    requires s.ring.ring.Valid()
    ensures |RelayRun(s, actions).ring.ring.data| == |s.ring.ring.data|
    decreases |actions|
  {
    hide RelayStep;
    if actions != [] { RelayArea(RelayStep(s, actions[0]), actions[1..]); }
  }
}
