/**
 * The thread that relays a TCP stream into the ring (HvGin/SynthRdp.cs:134-168): it sizes a receive
 * buffer with `GetMaximumPushSize`, receives, and pushes what it got, while a consumer pops.
 */
module Relay {
  import opened Bytes
  import opened PipePacket
  import opened Ring
  import opened RingQueue
  import opened RingProtocol
  import opened RingRuns

  // ---------------------------------------------------------------------------------------------
  // What the consumer does to the free space
  // ---------------------------------------------------------------------------------------------

  /** Actions of the consumer of the ring. */
  predicate ConsumerAction(a: Action) {
    a.BeginPop? || a.ReadByte? || a.PublishOut?
  }

  lemma ConsumerStepFrees(s: State, a: Action)
    requires Inv(s) && ConsumerAction(a)
    ensures Inv(Step(s, a))
    ensures Step(s, a).ring.WriteSize() >= s.ring.WriteSize()
    ensures Step(s, a).producer == s.producer && Step(s, a).pushed == s.pushed
  {
    hide Packet, Wire, Encodable, PacketSize, Parse, Slot;
    StepKeeps(s, a);
    if a.PublishOut? && s.consumer.Reading? && |s.consumer.copied| == s.consumer.available {
      PublishOutIsPop(s);
      PopRemovesHead(s.ring, Outstanding(s));
    }
  }

  /** The result of `GetMaximumPushSize` stays good however many consumer steps come before the push. */
  lemma {:induction false} MaximumPushSizeIsStable(s: State, actions: seq<Action>, content: Payload)
    requires Inv(s) && s.ring.WriteSize() >= 32 && |content| <= MaximumPushSize(s.ring.WriteSize())
    requires forall a <- actions :: ConsumerAction(a)
    ensures var t := Run(s, actions);
            Inv(t) && Push(t.ring, content).1 == Pushed
    decreases |actions|
  {
    hide QueueInv, IndexInv, ProducerInv, ConsumerInv, Step, Store, Packet, Slot, Encodable, PacketSize;
    if actions == [] {
      MaximumPushSizeIsTight(s.ring.WriteSize(), |content|);
    } else {
      ConsumerStepFrees(s, actions[0]);
      var next := Step(s, actions[0]);
      MaximumPushSizeGrows(s.ring.WriteSize(), next.ring.WriteSize());
      MaximumPushSizeIsStable(next, actions[1..], content);
    }
  }

  // ---------------------------------------------------------------------------------------------
  // The relay loop
  // ---------------------------------------------------------------------------------------------

  datatype Phase =
    | Sizing                      // about to evaluate the minimum of Available and GetMaximumPushSize
    | Receiving(bound: nat)       // a buffer of this size is allocated
    | Sending(content: Payload)   // about to call PushPipePacket
    | Stopped(error: PushResult)  // an exception ended the loop

  datatype RelayState = RelayState(ring: State, phase: Phase, stream: seq<byte>, received: seq<byte>)

  datatype RelayAction =
    | Size(available: nat)        // the socket reports this many bytes
    | Receive(count: nat)         // the socket delivers this many bytes
    | Send                        // PushPipePacket reads the control block
    | Device(action: Action)      // byte copies and publications, and everything the consumer does

  function RelayStep(s: RelayState, a: RelayAction): (t: RelayState)
    requires s.ring.ring.Valid()
    ensures t.ring.ring.Valid() && |t.ring.ring.data| == |s.ring.ring.data|
  {
    match a
    case Size(available) =>
      if s.phase.Sizing? && s.ring.producer.Ready? then
        var maximum := MaximumPushSize(s.ring.ring.WriteSize());
        var bound := if available < maximum then available else maximum;
        if bound > 0 then s.(phase := Receiving(bound)) else s
      else s
    case Receive(count) =>
      if s.phase.Receiving? && count <= s.phase.bound && count <= |s.stream|
      then s.(phase := Sending(s.stream[..count]), stream := s.stream[count..],
              received := s.received + s.stream[..count])
      else s
    case Send =>
      if s.phase.Sending? then
        var result := Push(s.ring.ring, s.phase.content).1;
        if result.Pushed?
        then s.(ring := Step(s.ring, BeginPush(s.phase.content)), phase := Sizing)
        else s.(phase := Stopped(result))
      else s
    case Device(action) =>
      if action.BeginPush? then s else s.(ring := Step(s.ring, action))
  }

  function RelayRun(s: RelayState, actions: seq<RelayAction>): (t: RelayState)
    requires s.ring.ring.Valid()
    ensures t.ring.ring.Valid()
    decreases |actions|
  {
    if actions == [] then s else RelayRun(RelayStep(s, actions[0]), actions[1..])
  }

  function RelayInit(data: seq<byte>, stream: seq<byte>): RelayState {
    RelayState(Init(data), Sizing, stream, [])
  }

  ghost predicate RelayNoHiddenFill(s: RelayState, actions: seq<RelayAction>)
    requires s.ring.ring.Valid()
    decreases |actions|
  {
    actions != [] ==>
      && !(actions[0].Device? && HiddenFill(s.ring, actions[0].action))
      && RelayNoHiddenFill(RelayStep(s, actions[0]), actions[1..])
  }

  function Concat(q: seq<Payload>): seq<byte> {
    if q == [] then [] else Concat(q[..|q| - 1]) + q[|q| - 1]
  }

  /** What has been received but not yet published. */
  function InFlight(s: RelayState): seq<byte> {
    (if s.ring.producer.Writing? then s.ring.producer.content else [])
    + if s.phase.Sending? then s.phase.content else []
  }

  ghost predicate RelayInv(s: RelayState, stream: seq<byte>) {
    && Inv(s.ring)
    && s.received + s.stream == stream
    && Concat(s.ring.pushed) + InFlight(s) == s.received
    && match s.phase
       case Sizing => true
       case Receiving(bound) =>
         s.ring.producer.Ready? && 0 < bound <= MaximumPushSize(s.ring.ring.WriteSize())
       case Sending(content) =>
         s.ring.producer.Ready? && Encodable(|content|) && PacketSize(|content|) <= s.ring.ring.WriteSize()
       case Stopped(_) => false
  }

  lemma ConcatAppend(q: seq<Payload>, c: Payload)
    ensures Concat(q + [c]) == Concat(q) + c
  {
    assert (q + [c])[..|q|] == q;
  }

  lemma {:induction false} ConcatPrefix(p: seq<Payload>, q: seq<Payload>)
    requires p <= q
    ensures Concat(p) <= Concat(q)
  {
    if |p| < |q| {
      ConcatPrefix(p, q[..|q| - 1]);
    } else {
      assert p == q;
    }
  }

  /** What the steps of a transfer do to the producer and to the payloads pushed. */
  lemma DeviceStepFrame(s: State, a: Action)
    requires s.ring.Valid() && !a.BeginPush?
    ensures var t := Step(s, a);
            && (s.producer.Ready? ==> t.producer.Ready? && t.pushed == s.pushed && t.ring.inIndex == s.ring.inIndex)
            && (s.producer.Writing? && t.producer.Writing? ==>
                  t.producer.content == s.producer.content && t.pushed == s.pushed)
            && (s.producer.Writing? && t.producer.Ready? ==>
                  a.PublishIn? && t.pushed == s.pushed + [s.producer.content])
            && (s.producer.Ready? && !ConsumerAction(a) ==> t == s)
  {
    hide Parse, Packet, Encodable, PacketSize;
  }

  lemma DeviceStepKeeps(s: RelayState, stream: seq<byte>, a: Action)
    requires RelayInv(s, stream) && !a.BeginPush? && !HiddenFill(s.ring, a)
    ensures RelayInv(RelayStep(s, Device(a)), stream)
  {
    hide Packet, Wire, Encodable, PacketSize, Parse, Slot, QueueInv, IndexInv, ConsumerInv, ProducerInv, Step, Concat,
      MaximumPushSize, HiddenFill;
    StepKeeps(s.ring, a);
    DeviceStepFrame(s.ring, a);
    if ConsumerAction(a) {
      ConsumerStepFrees(s.ring, a);
      MaximumPushSizeGrows(s.ring.ring.WriteSize(), Step(s.ring, a).ring.WriteSize());
    } else if a.PublishIn? && s.ring.producer.Writing? {
      ConcatAppend(s.ring.pushed, s.ring.producer.content);
    }
  }

  lemma RelayStepKeeps(s: RelayState, stream: seq<byte>, a: RelayAction)
    requires RelayInv(s, stream) && !(a.Device? && HiddenFill(s.ring, a.action))
    ensures RelayInv(RelayStep(s, a), stream)
  {
    hide Packet, Wire, Encodable, PacketSize, Parse, Slot, QueueInv, IndexInv, ConsumerInv, ProducerInv;
    match a
    case Size(available) =>
    case Receive(count) =>
      if s.phase.Receiving? && count <= s.phase.bound && count <= |s.stream| {
        MaximumPushSizeGrows(s.ring.ring.WriteSize(), s.ring.ring.WriteSize());
        MaximumPushSizeIsTight(s.ring.ring.WriteSize(), count);
        assert s.stream == s.stream[..count] + s.stream[count..];
      }
    case Send =>
      if s.phase.Sending? {
        PushRejects(s.ring.ring, s.phase.content);
        StepKeeps(s.ring, BeginPush(s.phase.content));
      }
    case Device(action) =>
      if !action.BeginPush? { DeviceStepKeeps(s, stream, action); }
  }

  lemma {:induction false} RelayRunKeeps(s: RelayState, stream: seq<byte>, actions: seq<RelayAction>)
    requires RelayInv(s, stream) && RelayNoHiddenFill(s, actions)
    ensures RelayInv(RelayRun(s, actions), stream)
    decreases |actions|
  {
    hide QueueInv, IndexInv, ProducerInv, ConsumerInv, RelayStep, Concat, InFlight;
    if actions != [] {
      RelayStepKeeps(s, stream, actions[0]);
      RelayRunKeeps(RelayStep(s, actions[0]), stream, actions[1..]);
    }
  }

  /** For any stream, any receive counts and any interleaving with the consumer but for hidden fills: the loop
      never stops on a push error, and what was popped is a prefix of what was received of the stream. */
  lemma RelayPreservesStream(data: seq<byte>, stream: seq<byte>, actions: seq<RelayAction>)
    requires RingArea(data) && RelayNoHiddenFill(RelayInit(data, stream), actions)
    ensures var t := RelayRun(RelayInit(data, stream), actions);
            && !t.phase.Stopped?
            && Concat(t.ring.popped) <= t.received <= stream
  {
    InitInv(data);
    RelayRunKeeps(RelayInit(data, stream), stream, actions);
    var t := RelayRun(RelayInit(data, stream), actions);
    ConcatPrefix(t.ring.popped, t.ring.pushed);
  }

  // ---------------------------------------------------------------------------------------------
  // A guard the relay can check before it sends
  // ---------------------------------------------------------------------------------------------

  /** A call of PushPipePacket with a payload that takes exactly the free space, while the out index is not 0. */
  predicate ExactSend(s: RelayState, a: RelayAction)
    requires s.ring.ring.Valid()
  {
    a.Send? && s.phase.Sending? && HidesContents(s.ring.ring, |s.phase.content|)
  }

  ghost predicate NoExactSend(s: RelayState, actions: seq<RelayAction>)
    requires s.ring.ring.Valid()
    decreases |actions|
  {
    actions != [] ==> !ExactSend(s, actions[0]) && NoExactSend(RelayStep(s, actions[0]), actions[1..])
  }

  lemma RelayStepKeepsSlack(s: RelayState, stream: seq<byte>, a: RelayAction)
    requires RelayInv(s, stream) && Slack(s.ring) && !ExactSend(s, a)
    ensures Slack(RelayStep(s, a).ring)
    ensures !(a.Device? && HiddenFill(s.ring, a.action))
  {
    hide Packet, Wire, Encodable, PacketSize, Parse, Slot, QueueInv, IndexInv, ConsumerInv, ProducerInv,
      HidesContents, Push, Step;
    match a
    case Send =>
      if s.phase.Sending? { StepKeepsSlack(s.ring, BeginPush(s.phase.content)); }
    case Device(action) =>
      if !action.BeginPush? { StepKeepsSlack(s.ring, action); }
    case _ =>
  }

  lemma {:induction false} NoExactSendSuffices(s: RelayState, stream: seq<byte>, actions: seq<RelayAction>)
    requires RelayInv(s, stream) && Slack(s.ring) && NoExactSend(s, actions)
    ensures RelayNoHiddenFill(s, actions)
    decreases |actions|
  {
    hide QueueInv, IndexInv, ProducerInv, ConsumerInv, RelayStep, Concat, InFlight, ExactSend, HiddenFill, Slack;
    if actions != [] {
      RelayStepKeepsSlack(s, stream, actions[0]);
      RelayStepKeeps(s, stream, actions[0]);
      NoExactSendSuffices(RelayStep(s, actions[0]), stream, actions[1..]);
    }
  }

  /** It is enough that the loop never sends a payload that would fill the free space it sees exactly. */
  lemma GuardedRelayPreservesStream(data: seq<byte>, stream: seq<byte>, actions: seq<RelayAction>)
    requires RingArea(data) && NoExactSend(RelayInit(data, stream), actions)
    ensures var t := RelayRun(RelayInit(data, stream), actions);
            && !t.phase.Stopped?
            && Concat(t.ring.popped) <= t.received <= stream
  {
    InitInv(data);
    NoExactSendSuffices(RelayInit(data, stream), stream, actions);
    RelayPreservesStream(data, stream, actions);
  }

  // ---------------------------------------------------------------------------------------------
  // Only a late fill can stop the loop
  // ---------------------------------------------------------------------------------------------

  ghost predicate RelayNoLateFill(s: RelayState, actions: seq<RelayAction>)
    requires s.ring.ring.Valid()
    decreases |actions|
  {
    actions != [] ==>
      && !(actions[0].Device? && LateFill(s.ring, actions[0].action))
      && RelayNoLateFill(RelayStep(s, actions[0]), actions[1..])
  }

  /** The space that the loop has counted on is there. */
  ghost predicate RelaySound(s: RelayState) {
    && Sound(s.ring)
    && match s.phase
       case Sizing => true
       case Receiving(bound) =>
         s.ring.producer.Ready? && 0 < bound <= MaximumPushSize(s.ring.ring.WriteSize())
       case Sending(content) =>
         s.ring.producer.Ready? && Encodable(|content|) && PacketSize(|content|) <= s.ring.ring.WriteSize()
       case Stopped(_) => false
  }

  lemma SoundConsumerStepFrees(s: State, a: Action)
    requires Sound(s) && ConsumerAction(a)
    ensures Step(s, a).ring.WriteSize() >= s.ring.WriteSize()
    ensures Step(s, a).producer == s.producer
  {
    hide Step, QueueInv, IndexInv, ProducerInv, ConsumerInv;
    var t: State :| SameButHistory(s, t) && Inv(t);
    StepIgnoresHistory(s, t, a);
    ConsumerStepFrees(t, a);
  }

  lemma RelayStepKeepsSound(s: RelayState, a: RelayAction)
    requires RelaySound(s) && !(a.Device? && LateFill(s.ring, a.action))
    ensures RelaySound(RelayStep(s, a))
  {
    hide Packet, Encodable, PacketSize, Parse, Slot, Sound, HidesContents;
    SoundIsValid(s.ring);
    match a
    case Size(available) =>
    case Receive(count) =>
      if s.phase.Receiving? && count <= s.phase.bound && count <= |s.stream| {
        MaximumPushSizeGrows(s.ring.ring.WriteSize(), s.ring.ring.WriteSize());
        MaximumPushSizeIsTight(s.ring.ring.WriteSize(), count);
      }
    case Send =>
      if s.phase.Sending? {
        PushRejects(s.ring.ring, s.phase.content);
        StepKeepsSound(s.ring, BeginPush(s.phase.content));
      }
    case Device(action) =>
      if !action.BeginPush? {
        StepKeepsSound(s.ring, action);
        if ConsumerAction(action) {
          SoundConsumerStepFrees(s.ring, action);
          MaximumPushSizeGrows(s.ring.ring.WriteSize(), Step(s.ring, action).ring.WriteSize());
        }
      }
  }

  lemma SoundIsValid(s: State)
    requires Sound(s)
    ensures s.ring.Valid()
  {}

  lemma {:induction false} RelayRunKeepsSound(s: RelayState, actions: seq<RelayAction>)
    requires RelaySound(s) && s.ring.ring.Valid() && RelayNoLateFill(s, actions)
    ensures RelaySound(RelayRun(s, actions))
    decreases |actions|
  {
    hide RelayStep, RelaySound, LateFill;
    if actions != [] {
      RelayStepKeepsSound(s, actions[0]);
      RelayRunKeepsSound(RelayStep(s, actions[0]), actions[1..]);
    }
  }

  /** For any stream, any receive counts and any interleaving: the loop stops on a push error only if some hidden fill
      came between the BeginPop and the PublishOut of one pop. */
  lemma OnlyLateFillStopsRelay(data: seq<byte>, stream: seq<byte>, actions: seq<RelayAction>)
    requires RingArea(data) && RelayRun(RelayInit(data, stream), actions).phase.Stopped?
    ensures !RelayNoLateFill(RelayInit(data, stream), actions)
  {
    hide QueueInv, IndexInv, ProducerInv, ConsumerInv;
    InitInv(data);
    assert SameButHistory(Init(data), Init(data));
    if RelayNoLateFill(RelayInit(data, stream), actions) {
      RelayRunKeepsSound(RelayInit(data, stream), actions);
    }
  }

  /** Even with hidden fills the loop never hands over a payload whose length overflows the descriptor. */
  lemma RelayNeverOverflows(data: seq<byte>, stream: seq<byte>, actions: seq<RelayAction>)
    requires RingArea(data)
    ensures RelayRun(RelayInit(data, stream), actions).phase != Stopped(LengthOverflow)
  {
    RelayRunKeepsCap(RelayInit(data, stream), actions);
  }

  predicate Capped(p: Phase) {
    match p
    case Sizing => true
    case Receiving(bound) => bound <= MAXIMUM_PUSH_SIZE
    case Sending(content) => |content| <= MAXIMUM_PUSH_SIZE
    case Stopped(error) => error != LengthOverflow
  }

  lemma {:induction false} RelayRunKeepsCap(s: RelayState, actions: seq<RelayAction>)
    requires s.ring.ring.Valid() && Capped(s.phase)
    ensures Capped(RelayRun(s, actions).phase)
    decreases |actions|
  {
    hide Step, Push;
    if actions != [] {
      if s.phase.Sending? {
        PushRejects(s.ring.ring, s.phase.content);
      }
      RelayRunKeepsCap(RelayStep(s, actions[0]), actions[1..]);
    }
  }
}
