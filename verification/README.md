# HvGin: the VMBus pipe ring and the UIO driver, modelled and proved

HvGin lets a Linux guest talk to Hyper-V over VMBus. A C# service maps a pair of rings that the kernel driver
`uio_hv_generic` exposes through UIO, and moves variable-length packets through them. This project models

* the wire format of a pipe packet and the ring that carries it (`Bytes`, `PipePacket`, `WireFormat`, `Ring`,
  `RingQueue`);
* the device object over the mapped bytes, method by method (`UioHvDevice`);
* producer and consumer running concurrently, one shared byte or index at a time, over every run (`RingProtocol`,
  `RingRuns`, `RingLimits`), and the thread that relays a TCP stream into the ring (`Relay`, `RelayLimits`);
* blocking UIO reads against notifications, statement by statement, over every run
  (`UioEvents`, `UioEventsLimits`, `UioReads`);
* open and release with unwinding (`UioLifetime`), registration with rollback (`UioAttributes`), memory mapping
  (`UioMmap`) and the mask of CPUs in use (`CpuMask`).

`dafny verify dfyconfig.toml` checks the whole project.

## Main results

* **Ring as a queue.** As long as no hidden fill (see below) has happened, the unread bytes decode to exactly the
  payloads pushed and not yet popped. A push appends its payload if and only if it does not fill the free space exactly
  while the out index is above 0; a pop removes the oldest. The methods on the mapped bytes compute these functions and
  leave the rest of the mapping alone.
* **Every interleaving.** Without such an exact fill at the moment of publication (a *hidden fill*), popped payloads
  are a prefix of pushed ones. It is enough that the caller avoids an exact fill when the push begins. On an area of at
  least 40 bytes the first hidden fill is exactly what endangers the order: if none has happened before, a publication
  has some continuation without a further hidden fill that pops out of order if and only if it is one itself. Below 40
  bytes the order is always kept. A hidden fill during a pop does no harm if no push begins before that pop publishes.
  As long as hidden fills find the consumer idle, no unread byte is overwritten, no unpublished byte is read and no pop
  throws; there *unread* means what the indices report, since the bytes of the payloads lost in such a fill do get
  overwritten.
* **Relay.** Without hidden fills the relay never hits "Insufficient Space" and the popped bytes are a prefix of the
  bytes received; it is enough that the loop sends no payload that fills the free space it sees exactly. Both halves
  need that hypothesis. Bytes are lost only after a hidden fill, and are lost after one whenever the loss can be seen in
  the next byte. If no hidden fill during a pop (a *late fill*) has happened before, a publication has some continuation
  without a further hidden fill that stops the loop if and only if it is a late fill: the free space shrinks when that
  pop publishes, and the size computed before no longer holds. On every ring of 80 bytes or more a run from the initial
  state stops this way.
* **Events.** No wake-up is lost, and a rescind leaves no reader asleep whose unread events are not a positive multiple
  of 2^32, if and only if no two threads read through one open file (or nothing can happen at all). The wake-up of
  unregister works on a reader if and only if it does not fall between that reader's check and its arming. The values
  read account for every notification modulo 2^32 in every run, and exactly with one reading thread per file and fewer
  than 2^32 unread events.
  A reader that returns to the loop delivers the event count if there is one it has not seen.
* **Wire format.** What a push writes and what a pop accepts and rejects is stated in literal bytes.

Where comments and code differ the model follows the code. The ring leaves an index that reaches the end at the size
of the area instead of wrapping it to 0. The trailer carries the packet's start index in its low dword, while
`PREVIOUS_PACKET_OFFSET` in the native header puts the offset into the high dword; no conformance to that structure is
claimed.

## Model

| member | source | states |
|---|---|---|
| Bytes.DecodeEncode | HvGin/Utilities.cs:15-38 | every value that fits n bytes survives being laid out little-endian and read back |
| Bytes.EncodeDecode | HvGin/Utilities.cs:15-38 | every n bytes read as a value below 256^n that lays out as the same bytes |
| Bytes.Align8IsLeast | HvGin/Utilities.cs:8-13 | the aligned size is the least multiple of eight not below the size |
| PipePacket.DescriptorRoundTrip | HvGin/PacketDescriptor.cs:6-58 | a descriptor is recovered from its 16 bytes whatever follows them |
| PipePacket.HeaderRoundTrip | HvGin/PipeHeader.cs:6-53 | a pipe header is recovered from its 8 bytes whatever follows them |
| PipePacket.PushDescriptorFields | HvGin/PacketDescriptor.cs:32-58 | for every payload whose length is encodable the scaled fields read back as 16 and as a length that covers headers and payload |
| PipePacket.Parse | HvGin/UioHvDevice.cs:96-127 | whatever the bytes, an accepted packet spans at least the headers, a multiple of eight bytes, and no more than is available |
| PipePacket.ParseIgnoresTail | HvGin/UioHvDevice.cs:96-127 | whatever flags, transaction, padding, trailer and following bytes a peer leaves, a data packet with the payload at offset 16 parses to that payload and the described size |
| PipePacket.ParseOfPacket | HvGin/UioHvDevice.cs:96-127 | every encodable payload is parsed back exactly, with its size, whatever start index it carries and bytes follow |
| PipePacket.TrailerOfPacket | HvGin/UioHvDevice.cs:190-192 | the low dword of a packet's last eight bytes is the index it starts at |
| WireFormat.PacketBytes | HvGin/UioHvDevice.cs:162-192 | every byte of a packet as a number: type 6, offset 2 and length in units of eight bytes, no flags, all-ones transaction, message type 1, length, payload, zeros, start index |
| WireFormat.ParsedBytes | HvGin/UioHvDevice.cs:96-127 | for all bytes, as numbers: which are accepted, with what payload and size, and which error each of the others gives |
| WireFormat.PushOfRawBytes | HvGin/UioHvDevice.cs:193-223 | an accepted push puts exactly those bytes from the in index on, around the end of the area, and moves the index past them |
| WireFormat.PopOfRawBytes | HvGin/UioHvDevice.cs:60-143 | for all ring contents: below 24 unread bytes nothing is returned, otherwise the raw bytes decide between the errors and a payload, and only an accepted packet moves the out index, past its length and trailer |
| Ring.AdvanceIsClosedForm | HvGin/UioHvDevice.cs:128-139 | each index update keeps the index equal to the closed form of the bytes that passed, and 0 never recurs |
| Ring.ReportedSize | HvGin/UioHvDevice.cs:46-58 | the two reported sizes add up to the area, and the readable one is the true difference except that a full ring with a moved out index reads as empty |
| RingQueue.WireConcat | HvGin/UioHvDevice.cs:180-192 | the bytes and boundaries of two queues in a row are those of the first followed by those of the second from where it ends |
| RingQueue.DecodeWire | HvGin/UioHvDevice.cs:96-127 | the parser alone splits the bytes of any queue back into that queue |
| RingQueue.UnreadDecodes | HvGin/UioHvDevice.cs:60-127 | the unread region decodes to exactly the represented queue, so the queue is unique |
| RingQueue.PushAppends | HvGin/UioHvDevice.cs:159-224 | an accepted push turns queue q into q plus its payload if and only if it does not fill the free space exactly with the out index above 0, and otherwise the ring reads as empty |
| RingQueue.PushKeepsUnread | HvGin/UioHvDevice.cs:193-223 | no push changes an unread byte or the out index |
| RingQueue.PushRejects | HvGin/UioHvDevice.cs:163-179 | the exact conditions of both rejections, in payload and packet bytes, and that a rejected push changes nothing |
| RingQueue.PopRemovesHead | HvGin/UioHvDevice.cs:60-143 | a pop returns the oldest payload, leaves the rest represented, and frees exactly the bytes its push took |
| RingQueue.PopOfAnyBytes | HvGin/UioHvDevice.cs:60-143 | on arbitrary ring bytes a throwing or empty pop changes nothing and any other returns a stretch of the unread bytes without passing the in index |
| RingQueue.PushThenPop | HvGin/UioHvDevice.cs:60-224 | from any index of an empty ring, across the end or not, pop after push returns the payload and empties the ring |
| RingQueue.EndIndexTolerance | HvGin/UioHvDevice.cs:46-139 | with the out index above 0, pop returns the same and moves the same whether the peer left its index at the end or wrapped it to 0 |
| RingQueue.TrailerOfLast | HvGin/UioHvDevice.cs:190-223 | each unread packet's trailer lies in one piece and holds the end index of the packet before |
| RingQueue.WalkBackRecovers | HvGin/UioHvDevice.cs:190-223 | following trailers back from the in index meets every packet boundary and stops at the out index |
| UioHvDevice.Device.constructor | HvGin/UioHvDevice.cs:282-305 | the mapping is split into two equal halves of control page and data area, whose rings keep their contents; only the interrupt mask word changes, to 0 |
| UioHvDevice.ControlWords | HvGin/UioHvDevice.cs:141-223 | In and Out are the first two little-endian words of the control page, and the area follows as it lies |
| UioHvDevice.FindRings | HvGin/UioHvDevice.cs:275-280 | the first mapping with the right name and offset, or none if there is none |
| UioHvDevice.Device.PushPipePacket | HvGin/UioHvDevice.cs:159-224 | on the bytes: the outgoing ring becomes the pushed one, and nothing but the outgoing In word and data area changes |
| UioHvDevice.Device.PopPipePacket | HvGin/UioHvDevice.cs:60-143 | on the bytes: the incoming ring becomes the popped one, and nothing but the incoming Out word changes |
| UioHvDevice.Device.WritePacket | HvGin/UioHvDevice.cs:193-217 | one or two array writes store the packet from the in index around the end of the area |
| UioHvDevice.Device.ReadAvailable | HvGin/UioHvDevice.cs:70-95 | one or two array reads yield the unread bytes in order |
| UioHvDevice.BuildPacket | HvGin/UioHvDevice.cs:162-192 | the copies into the zeroed buffer make up the packet, padding and upper trailer half zero |
| UioHvDevice.Device.GetMaximumPushSize | HvGin/UioHvDevice.cs:145-157 | on the mapped bytes: every payload up to the result can be pushed and none beyond it, unless the cap applied; without room for an empty packet the result is 0 and every push is rejected |
| RingProtocol.PublishInIsPush | HvGin/UioHvDevice.cs:218-223 | publishing the in index completes exactly one sequential push, whatever the consumer did since the push began |
| RingProtocol.PublishOutIsPop | HvGin/UioHvDevice.cs:128-141 | publishing the out index completes exactly one sequential pop of the oldest outstanding payload |
| RingProtocol.StepKeeps | HvGin/UioHvDevice.cs:60-224 | every step of either side that is no hidden fill keeps the protocol invariant |
| RingProtocol.Fifo | HvGin/UioHvDevice.cs:60-224 | in every interleaved run without a hidden fill the popped payloads are a prefix of the pushed ones and the unread bytes decode to the others |
| RingProtocol.NoExactCallSuffices | HvGin/UioHvDevice.cs:171-179 | a run whose pushes never begin with exactly the space they need and the out index above 0 has no hidden fill |
| RingProtocol.IndicesFollowTotals | HvGin/UioHvDevice.cs:128-223 | in every run, hidden fills included, both indices are aligned, in range, the closed form of the bytes passed, and never 0 again |
| RingProtocol.ReportedSizeAndChain | HvGin/UioHvDevice.cs:46-58 | in every run without a hidden fill the reported size is written minus read, and the trailers chain back to the out index |
| RingProtocol.PublishKeepsQueueUnlessHidden | HvGin/UioHvDevice.cs:171-223 | a completed push keeps the queue abstraction if and only if it is no hidden fill |
| RingRuns.PushCallIsPush | HvGin/UioHvDevice.cs:159-224 | an uninterrupted push of the protocol is the sequential push, whatever the consumer is doing |
| RingRuns.PopCallIsPop | HvGin/UioHvDevice.cs:60-143 | an uninterrupted pop of the protocol is the sequential pop, on any bytes, and counts the bytes of the packet it parsed as read |
| RingRuns.ProducerWritesFreeByte | HvGin/UioHvDevice.cs:205-217 | at no point of a run whose hidden fills, if any, find the consumer idle is the producer about to write an unread byte |
| RingRuns.ConsumerReadsPublishedByte | HvGin/UioHvDevice.cs:82-95 | at no point of such a run is the consumer about to read an unpublished byte or any but the one that is due |
| RingRuns.ConsumerNeverThrows | HvGin/UioHvDevice.cs:96-125 | at no point of such a run does a pop throw, and each hands out the payload it parsed |
| RingRuns.NoHiddenFillIsNoLateFill | HvGin/UioHvDevice.cs:171-223 | runs without hidden fills are among those, so the three hold in them |
| RingRuns.LateFillExposesReads | HvGin/UioHvDevice.cs:82-95 | right after a hidden fill during a pop that still has bytes to copy, the next byte it reads is not reported as published |
| RingRuns.LateFillRecovers | HvGin/UioHvDevice.cs:128-223 | a hidden fill during a pop is healed when that pop publishes: the state is as if the producer had published afterwards, and the room of the popped packet is free |
| RingRuns.FifoWithHealedFills | HvGin/UioHvDevice.cs:60-224 | popped payloads stay a prefix of the pushed ones also in runs with hidden fills, if each comes during a pop and no push begins before that pop publishes |
| RingLimits.HiddenFillBreaksFifo | HvGin/UioHvDevice.cs:171-223 | after any hidden fill on an area of at least 40 bytes, with the consumer idle or anywhere in a pop, a continuation without a further hidden fill pops a payload out of order |
| RingLimits.PublicationBreaksFifoIff | HvGin/UioHvDevice.cs:171-223 | from every state of the protocol on such an area: after a publication such a continuation exists if and only if that publication was a hidden fill |
| RingLimits.PushBreaksFifoIff | HvGin/UioHvDevice.cs:171-179 | for an accepted uninterrupted push: such a continuation exists if and only if the packet takes exactly the free space the call found, with the out index above 0 |
| RingLimits.NextPublicationBreaksFifoIff | HvGin/UioHvDevice.cs:159-224 | after any run without hidden fills, such a continuation exists after the next publication if and only if it is a hidden fill and the area has at least 40 bytes |
| RingLimits.FifoAlwaysIff | HvGin/UioHvDevice.cs:159-224 | every run, whatever its pushes, keeps the order if and only if the area is below 40 bytes |
| RingLimits.FifoNeedsHypothesis | HvGin/UioHvDevice.cs:159-224 | on every ring of 40 bytes or more a run from the initial state, through an exact fill, pops a payload out of order |
| RingQueue.MaximumPushSizeIsTight | HvGin/UioHvDevice.cs:145-179 | with 32 bytes free every payload up to the result fits, and none beyond it does unless the cap applied |
| RingQueue.MaximumPushSizeGrows | HvGin/UioHvDevice.cs:145-157 | the result is 0 below 40 free bytes, monotone in the free space and at most 16384 |
| RingQueue.SizedPushFillsOnlySmallSpace | HvGin/UioHvDevice.cs:145-179 | a push within the result can fill the ring exactly only when at most 16416 bytes are free |
| Relay.MaximumPushSizeIsStable | HvGin/UioHvDevice.cs:145-179 | a payload within the result is accepted after any number of consumer steps |
| Relay.RelayPreservesStream | HvGin/SynthRdp.cs:134-168 | for any stream, receive counts and interleaving without hidden fills the loop never stops on a push error and popped bytes are a prefix of those received |
| Relay.GuardedRelayPreservesStream | HvGin/SynthRdp.cs:134-168 | the same for every run in which the loop sends no payload that would fill the free space it sees exactly while the out index is not 0 |
| Relay.OnlyLateFillStopsRelay | HvGin/SynthRdp.cs:134-168 | whatever other fills occur, the loop stops on a push error only if a hidden fill came between the beginning and the publication of one pop |
| Relay.RelayNeverOverflows | HvGin/SynthRdp.cs:134-168 | hidden fills or not, no payload ever overflows the 16-bit length |
| RelayLimits.HiddenFillLosesStream | HvGin/SynthRdp.cs:134-168 | after any run without hidden fills: a continuation without a further one pops bytes that are no prefix of those received only if the next publication is a hidden fill; and then one does, on 48 bytes or more, whenever the first byte lost differs from the next one relayed |
| RelayLimits.RelayCanLoseStream | HvGin/SynthRdp.cs:134-168 | on every ring of 48 bytes or more, if the byte after an exact fill differs from the first byte lost in it, a run from the initial state pops bytes that are no prefix of those received |
| RelayLimits.LateFillStopsRelayIff | HvGin/SynthRdp.cs:134-168 | in any run without late fills so far and with more than 16384 bytes of the stream left, a continuation without a further hidden fill stops the loop after a publication if and only if that publication was a late fill |
| RelayLimits.LateFillCanStopRelay | HvGin/SynthRdp.cs:134-168 | after a late fill, wherever the pop is and however large ring and packet, a continuation without another hidden fill stops the loop on "Insufficient Space" |
| RelayLimits.HiddenFillCanStopRelay | HvGin/SynthRdp.cs:134-168 | with the consumer about to publish, the relay itself can make the late fill and then stop |
| RelayLimits.RelayStopsFromStart | HvGin/SynthRdp.cs:134-168 | on every ring of 80 bytes or more and for every long enough stream, a run from the initial state in which the loop stops on "Insufficient Space" |
| RelayLimits.TurnPushes | HvGin/SynthRdp.cs:138-160 | one undisturbed turn of the loop moves its bytes from the stream into the ring by one push |
| RelayLimits.TurnTakesMost | HvGin/SynthRdp.cs:138-160 | with 40 bytes free and anything available, a turn takes the largest number of bytes that is available, at most 16384, and accepted with every smaller one, or as many of them as the socket delivers, and sends them by one push |
| RelayLimits.SendSizeExists | HvGin/SynthRdp.cs:138-140 | there is exactly one such number |
| RelayLimits.NothingToSend | HvGin/SynthRdp.cs:138-142 | with nothing available or under 40 bytes free the loop goes on sizing |
| RelayLimits.StoppedForGood | HvGin/SynthRdp.cs:161-166 | a loop that an error has stopped takes no more of the stream |
| UioEvents.StepKeepsWakeInv | uio_hv_generic/uio.c:430-437 | every step keeps: a task that armed itself before loading the counter has seen the latest event or has a wake-up coming |
| UioEvents.NoLostWakeUp | uio_hv_generic/uio.c:580-633 | in every run with one reading thread per open file, a reader asleep with no notifier between increment and wake has a count equal to the event count |
| UioEventsLimits.NoWakeUpIsLostIff | uio_hv_generic/uio.c:430-437 | from any initial state that holds in every run if and only if no two threads read one open file, or the device is gone, or nobody notifies |
| UioEventsLimits.SharedFileLosesWakeUp | uio_hv_generic/uio.c:605-613 | whenever two threads share a file, a run in which one stores the older of two counts and the other sleeps with an event unread and no wake-up on its way |
| UioEvents.RescindLeavesNoneAsleep | uio_hv_generic/uio_hv_generic.c:111-132 | in every run with one reading thread per open file, once a rescind's wake-up has gone out no reader sleeps, unless its unread events are a positive multiple of 2^32 |
| UioEventsLimits.RescindWakesAllIff | uio_hv_generic/uio_hv_generic.c:111-132 | from any initial state that holds in every run if and only if no two threads read one open file, or the device is gone, or nobody notifies |
| UioEventsLimits.SharedFileSleepsThroughRescind | uio_hv_generic/uio.c:580-633 | whenever two threads share a file, a run in which one consumes the rescind's event and the other sleeps although its wake-ups have gone out |
| UioEventsLimits.RescindNeedsBound | uio_hv_generic/uio.c:604-605 | a listener for which the rescind's event makes the unread events a multiple of 2^32 takes it for none: a run in which it sleeps through the rescind |
| UioEvents.LaterReadsFail | uio_hv_generic/uio.c:594-601 | a read begun after irq or info is gone can only end with EIO, in every run |
| UioEvents.EventsAreAccounted | uio_hv_generic/uio.c:605-613 | per listener and in every run, modulo 2^32 the differences of the values read add up to the notifications between open and last read |
| UioEvents.EventsAreCounted | uio_hv_generic/uio.c:605-613 | with one reading thread per file and fewer than 2^32 events unread throughout the run, the sum is the number of notifications itself |
| UioEvents.OnlyDeliveryConsumes | uio_hv_generic/uio.c:606-613 | a listener's count changes only in a step that delivers that very value; a faulting copy consumes nothing |
| UioEvents.PollAgreesWithRead | uio_hv_generic/uio.c:560-633 | in every state poll reports readable exactly when a non-blocking read returns neither EAGAIN nor EIO |
| UioReads.ReadEnds | uio_hv_generic/uio.c:592-633 | a read just begun, a sleeper that was woken, and a reader woken before it slept, if undisturbed: EIO if info or irq is gone, asleep again if the counts agree modulo 2^32, otherwise the event count delivered and stored, or EFAULT and nothing consumed |
| UioReads.NotificationDelivers | uio_hv_generic/uio.c:430-437 | from every state with a sleeping reader a notification extends to a run in which that reader delivers the new event count, unless its count agrees with it modulo 2^32 and it sleeps again |
| UioReads.RescindEndsRead | uio_hv_generic/uio_hv_generic.c:111-132 | likewise a rescind extends to a run in which it returns EIO |
| UioReads.SignalEndsRead | uio_hv_generic/uio.c:622-627 | likewise a signal, when there is nothing to read, to one in which it returns ERESTARTSYS and nothing is consumed |
| UioReads.ResultsMean | uio_hv_generic/uio.c:594-625 | each result is set by one statement only: EAGAIN by a non-blocking give-up, ERESTARTSYS by a signal, EFAULT by a failed copy, EIO by the check of info and irq, a value by the copy that stores it |
| UioReads.GivesUpForCause | uio_hv_generic/uio.c:617-625 | in every run a read that never gives up as non-blocking does not return EAGAIN, and one that no signal reaches not ERESTARTSYS |
| UioReads.CopiesAwake | uio_hv_generic/uio.c:603-607 | in every run a task that copies to user space or is outside of a read is running |
| UioEventsLimits.UnregisterWakesIff | uio_hv_generic/uio.c:1116-1126 | once info is gone, the wake-up keeps a reader from ever sleeping again if and only if it does not find the reader between the check of info and the arming |
| UioEventsLimits.UnregisterCanLoseItsWakeUp | uio_hv_generic/uio.c:1116-1126 | from every initial state with the device present, any reader can be put to sleep on a device that is gone with no wake-up on its way |
| UioLifetime.UioDevice.UioOpen | uio_hv_generic/uio.c:476-533 | a failing open undoes every count it took; it succeeds if and only if minor, module, memory and info are there and a first connect works, and then takes exactly one of each |
| UioLifetime.UioDevice.UioRelease | uio_hv_generic/uio.c:543-558 | a release gives back exactly one of each, reaches the driver only while info is set, and disconnects the ring when it is the last |
| UioLifetime.HvUioPrivateData.HvUioOpen | uio_hv_generic/uio_hv_generic.c:207-229 | the ring is connected on the first open only, and a failing connect leaves the count as it was |
| UioLifetime.HvUioPrivateData.HvUioRelease | uio_hv_generic/uio_hv_generic.c:232-244 | the ring is disconnected on the last release only |
| UioLifetime.ReferencesAreConserved | uio_hv_generic/uio.c:476-558 | after any calls, failing anywhere, references are the base plus the open listeners, connects and disconnects alternate, and while registered the ring is connected exactly when a listener is open |
| UioLifetime.OpenResult | uio_hv_generic/uio.c:476-533 | when an open returns 0, and which code each failure gives: -19, -19, -12, -22, or that of the connect |
| UioLifetime.OpenEffect | uio_hv_generic/uio.c:476-533 | a successful open adds one to each count and connects the ring exactly on the first; a failing one changes nothing |
| UioLifetime.ReleaseEffect | uio_hv_generic/uio.c:543-558 | a release takes one from each count, from the driver's exactly while info is set, and disconnects the ring exactly when that count reaches 0 |
| UioLifetime.ListenersFollowCalls | uio_hv_generic/uio.c:476-558 | after any calls the listeners are the opens that returned 0 less the releases made while one was open |
| UioLifetime.BackToBase | uio_hv_generic/uio.c:476-558 | as many releases as successful opens, in any order and with any failures between, bring a registered device back to its base counts with the ring disconnected |
| UioLifetime.UnregisterEffect | uio_hv_generic/uio.c:1111-1121 | unregistering clears info and drops one device reference, so that then only the listeners hold the device |
| UioLifetime.DriverForgottenAfterUnregister | uio_hv_generic/uio.c:549-552 | once info is gone no call changes the driver count or the ring |
| UioAttributes.UioDevice.UioDevAddAttributes | uio_hv_generic/uio.c:285-377 | all or nothing: it succeeds if and only if none of its fallible calls fails, and then registers the longest prefixes of nonzero size; otherwise it stops at the first failure with its code and puts every kobject of the call exactly once and no other |
| UioAttributes.UioDevice.UioDevDelAttributes | uio_hv_generic/uio.c:379-400 | exactly the registered kobjects are put, each once |
| UioAttributes.UioRegisterDevice | uio_hv_generic/uio.c:979-1059 | -517, -22 and -12 for a missing class, bad arguments and no memory; otherwise success if and only if no call fails. A failing registration returns the minor, deletes and frees the device once and puts every kobject once; a successful one puts none |
| UioAttributes.Prefix | uio_hv_generic/uio.c:296-299 | the regions before the first of size zero |
| UioMmap.FaultPageTouchesRegion | uio_hv_generic/uio.c:684-723 | for any address, size and page size, in 64-bit wrapping arithmetic, each page a fault hands out holds a byte of the selected region |
| UioMmap.FaultFindsByte | uio_hv_generic/uio.c:684-723 | byte j of the region lies in the page handed out at page (addr mod page size + j) / page size of the area |
| UioMmap.FaultPagesAreConsecutive | uio_hv_generic/uio.c:705-715 | neighbouring page offsets get neighbouring pages modulo the address space |
| UioMmap.FaultStartsAtRegion | uio_hv_generic/uio.c:705-715 | the first page offset gets the region's own address |
| UioMmap.FaultFailsIff | uio_hv_generic/uio.c:692-703 | SIGBUS exactly when the device is gone or the area selects no region |
| UioMmap.MmapSucceedsIff | uio_hv_generic/uio.c:820-877 | exactly which requests are accepted and how: every whole page must hold a byte of the region, also when the page count wraps; -ENODEV for an unaligned physical region, -EINVAL otherwise |
| UioMmap.PhysicalMappingInsideRegion | uio_hv_generic/uio.c:742-775 | a physical mapping begins at the region's first byte and every byte of it is inside the region |
| UioMmap.PageStartsInRegion | uio_hv_generic/uio.c:845-851 | a page below the accepted page count starts no later than the region's last byte, also when the count wrapped |
| CpuMask.HvContext.IsAllocatedCpu | uio_hv_generic/hyperv_vmbus.h:421-441 | the nested search finds a CPU if and only if a performance channel or sub-channel targets it |
| CpuMask.HvContext.UpdateAllocatedCpus | uio_hv_generic/hyperv_vmbus.h:455-460 | the new bit is set and the old one cleared unless still in use; no other bit of any node changes |
| CpuMask.UpdateRestoresAgreement | uio_hv_generic/hyperv_vmbus.h:443-460 | after any retargeting the update makes mask and lists agree if and only if the new CPU is then allocated or is the old one, as it is for every performance channel |
| CpuMask.UpdateDecidesTwo | uio_hv_generic/hyperv_vmbus.h:443-460 | whatever the mask and the lists were, which of the two bits are set afterwards, and that the others are as before |
| CpuMask.UpdateForOtherChannelDisagrees | uio_hv_generic/hyperv_vmbus.h:443-460 | for a channel that is no performance channel the update sets a bit nothing accounts for |

## Left out

- Memory ordering: runs are sequentially consistent; the C# code has no barriers, so this is an assumption.
- Host behaviour: the peer is taken to follow the same index rule and to keep its indices inside the data area; its packet bytes may be anything.
- UioHvDevice.Device.constructor: assumes a page that holds the 68-byte control block, a mapping larger than two pages, and a half below 2^31 bytes; on other mappings the accessor calls throw.
- Accessor argument checks: a pop that finds Out equal to the area size and In below it first calls ReadArray for zero bytes at the end of the incoming area, which is the end of the mapping when its size is even (HvGin/UioHvDevice.cs:83-87). The model takes that call to do nothing; the runtime library may reject it, and its checks are not part of this model.
- Exceptions that end a relay thread for other reasons than a push (socket errors), thread start and stop, sleeping, console output, and the VMBus-to-TCP direction.
- `PartialDataSize`, `PartialOffset`, `SupportsPendingSendSize`, and the RDP version exchange: not on the push and pop path.
- UioEvents.NoLostWakeUp: for one reading thread per open file; with two on one file it fails (UioEventsLimits.NoWakeUpIsLostIff).
- UioEvents.RescindLeavesNoneAsleep: for one reading thread per open file and unread events that are no positive multiple of 2^32; it fails without either (UioEventsLimits.RescindWakesAllIff, RescindNeedsBound).
- UioEvents.EventsAreCounted: for one reading thread per open file and fewer than 2^32 events unread throughout; without these only the sum modulo 2^32 is promised (EventsAreAccounted).
- RingProtocol.Fifo: for runs without hidden fills; RingRuns.FifoWithHealedFills allows those that are healed before another push begins. Later pushes that happen to fit the freed room are not covered.
- UioEvents.PollAgreesWithRead: for a read that no other thread interrupts; the poll error is a value of its own, not the bit mask it is cast to.
- Opening during a run of reads: listeners are open from the start, at counts not ahead of the event counter.
- Blocking reads as methods: a read that may sleep for ever is a state machine over its statements, not a method, because it need not terminate.
- `kill_fasync`, the interrupt mask, `hv_uio_irqcontrol`, and the interrupt handlers that end in `uio_event_notify`.
- Interleaving of several opens and releases: each call is one step; the driver callbacks run under `info_lock`.
- `hv_uio_probe`, `hv_uio_remove`, `hv_uio_cleanup` and sub-channels: ownership rests on GPADL contracts that are not in the repository.
- Mapping as methods: `uio_mmap` and the fault handler are modelled as functions of the regions and the area; storing `vm_ops`, flags and protection in the area is left out.
- UioMmap.FaultPageTouchesRegion: for an area that was not split; a split area's page offset selects another region.
- The driver's own `mmap` callback, DMA-coherent regions beyond their selection, and mmap of the ring through sysfs.
- CpuMask: lists of channels are values; the caller's update of a target CPU is the function Retarget.
