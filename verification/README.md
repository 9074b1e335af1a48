# Downlink, receiver, kernel lists, co-routines and bus: a verified model

This project models the four parts of the flight software whose correctness is
not visible from any one function, and proves what they promise.

**The radio downlink** (`Downlink`, `RadioQueue` and the modules under it). Messages
wait in a 128 KiB ring; a thread cuts them into chunks of at most 214 octets,
numbers and frames them, tries each packet three times outside the lock and
remembers what it sent for resends. `Downlink` is the state machine of its atomic
steps, with the framing as a parameter; its invariant holds after every
interleaving. `RadioQueue.Queue` is the code, one method for each lock-held region
and one for the loop of attempts, on the ring, the slots and the counters as
arrays and fields; each method is proved to be exactly one step of the machine, so
that what holds of runs holds of the object after any calls (`EndToEnd.QueueDelivers`).

**Packets and the receiver** (`Crc32`, `CrcDivision`, `CrcBoundary`, `SpacePacket`,
`Profile`, `GreedyScan`, `Scanner`, `RadioDeframer`). Builder and parser undo each
other; the CRC, taken as a bit-serial shift register, is the polynomial remainder of
section 3.2.9 of IEEE 802.3 (`CrcDivision.CrcIsRemainder`) and sees every error burst
of up to 32 bits in the octets it covers, at every length, and of the changes to four
octets that reach into its own field all but one; the 240-octet scanner is a
leftmost-greedy scan of the whole stream. `EndToEnd` joins both parts: whatever was
sent after any run is received, in order.

**Kernel lists and co-routines** (`KernelList`, `ItemLists`, `RoundRobin`,
`CoRoutines`, `Scheduling`, `CoRoutineRuns`, `CoRoutineRounds`, `CoRoutineCalls`,
`CoRoutineKernel`). The list is a circular doubly linked structure on the heap, proved
to follow a list value with a cursor; `ItemLists` is all the lists that one kind of
item can be in, where an operation on one leaves the others alone. On list values the
co-routine kernel is a state machine whose actions are single rounds of the
scheduler's loops, calls from the running co-routine and interrupts at any moment;
history fields carry unbounded time. The class `Kernel` has the loops as they are
written, on the linked lists.

**The bus** (`BusFrame`, `BusStream`, `BusSession`, `LeftoverBuffer`, `SimBus`,
`BusHistory`, `SimDriver`, `RealBus`). Frames are put together again from any
fragments of a stream; the simulated bus is an addressed queue in each direction,
from what was asked to be sent to what calls return (`BusHistory`); the real one
polls the known slaves in turn.

`Bytes`, `Options`, `Sequences`, `ShiftRegister` and `Radio` hold what several of
these share, `PacketFraming` the framing that the queue is given, and `GoldenVectors`
the octets that the tests of the wire formats expect.

Six things turned out to hold only under a condition, and are proved that way:

- A delay must be at least one tick (`Scheduling.DelaySettles`,
  `Scheduling.ZeroDelayOverslept`). The callers of `vCoRoutineAddToDelayedList`
  see to that (`rtos/kernels/include/croutine.h:315`,
  `rtos/kernels/src/queue.c:2729`), and runs are those of such callers.
- Compressed telemetry is accepted by the queue but never sent
  (`PacketFraming.FramedIffNotCompressed`).
- A slave whose frames cannot be accepted keeps its turn on the real bus. Calls that
  fail cost a waiting slave nothing (`RealBus.Fair`), but it is served only if no
  slave before it is such a one (`RealBus.ServedIffSound`, `RealBus.BadSlaveStarves`).
- The simulated bus delivers the frames written if and only if every write was whole
  (`BusSession.DeliveredIffWhole`, `SimBus.ArriveExactlyIfWhole`, with
  `BusStream.ShortWriteMisreads` for what a reader then returns). That a send is
  a success tells that everybody got the frame only where at most one connection
  lives (`SimDriver.SuccessTellsAllIffOne`).
- Four damaged octets that lie partly in the CRC field are seen but for one pattern
  at one place (`Profile.FourOctetsAccepted`), which every packet with two payload
  octets can suffer (`Profile.DamagedYetAccepted`).
- The test of `thread_started` in `radio_resend` never decides anything
  (`Downlink.NothingSentBeforeStart`).

The comment at `rtos/kernels/src/croutine.c:276-280` says that an event moves the
generic item to the pending list; the code moves the event item, and the model
follows the code.

`dafny verify dfyconfig.toml` checks everything.

## Model

| member | source | states |
|---|---|---|
| `Crc32.Compute` | shared/ccsds/src/crc32.c:3-23 | the octet-wise loop with its mask trick computes the bit-serial register fed with the message, least significant bit first; 0 for NULL with a length |
| `CrcDivision.CrcIsRemainder` | shared/ccsds/src/crc32.c:3-23 | the CRC, lowest bit first, is the complement of the remainder that long division by the generator leaves of the message times x^32, its first 32 bits complemented |
| `CrcDivision.RegisterDivides` | shared/ccsds/src/crc32.c:10-20 | the shift register holds that remainder, highest power in its lowest bit |
| `GoldenVectors.GoldenCrc` | tests/test_radio_framing.c:34-42 | the CRC of the worked example is A6 30 25 9D |
| `Crc32.ShiftOutOctet` | shared/ccsds/src/crc32.c:16-19 | the inner loop is eight steps of the shift register |
| `Crc32.FeedLinear` | shared/ccsds/src/crc32.c:17-18 | one step with a message bit commutes with exclusive or |
| `Crc32.FeedInjective` | shared/ccsds/src/crc32.c:17-18 | one step with a message bit can be undone |
| `Crc32.BurstDetected` | shared/ccsds/src/crc32.c:3-23 | messages of any equal length that differ only within 32 consecutive bits have different CRCs |
| `Crc32.FourOctetsDetected` | shared/ccsds/src/crc32.c:3-23 | in particular those that differ only within four consecutive octets |
| `SpacePacket.HeaderRoundTrip` | shared/ccsds/src/space_packet.c:20-60 | a written primary header reads back, with version 0 and the right total size, whatever follows it |
| `SpacePacket.HeaderCanonical` | shared/ccsds/src/space_packet.c:118-154 | a version-0 header is what writing its own fields gives |
| `SpacePacket.HeaderOctets` | shared/ccsds/src/space_packet.c:20-60 | each octet of the header, from kind, flag, APID, count and length |
| `SpacePacket.ParseTells` | shared/ccsds/src/space_packet.c:118-154 | exactly which input is too short, of another version, or a packet, and what is then returned |
| `GoldenVectors.GoldenHeader` | tests/test_radio_framing.c:87-101 | the header of the worked example is 00 42 C0 05 00 07 |
| `Profile.Routes` | shared/ccsds/src/profile.c:41-68 | the APID and packet kind of each content type |
| `Profile.ProfileHeaderOctets` | shared/ccsds/src/profile.c:170-181 | each octet of the profile header, with the bits of the config flags |
| `Profile.BuildTells` | shared/ccsds/src/profile.c:116-188 | exactly which arguments are built, and which status the others get |
| `Profile.ShapeTells` | shared/ccsds/src/profile.c:226-239 | exactly which status the checks before the CRC give |
| `Profile.ParseStatusTells` | shared/ccsds/src/profile.c:209-303 | exactly when a packet is refused for its CRC, and which status the checks after it give |
| `GoldenVectors.GoldenPacket` | tests/test_radio_framing.c:31-42 | the packet built of the worked example is the expected 34 octets |
| `Profile.BuildThenParse` | shared/ccsds/src/profile.c:116-303 | parsing a successfully built packet returns its content type, count, items, config and payload |
| `Profile.ParseThenBuild` | shared/ccsds/src/profile.c:116-303 | building from the view of a packet that parses reproduces it octet for octet |
| `CrcBoundary.FourOctetsPass` | shared/ccsds/src/crc32.c:3-23 | a change within four consecutive octets of a message with its CRC behind it, wherever they lie, passes the check if and only if it is 61 D8 on the two octets before the CRC and F4 EE on its first two |
| `CrcBoundary.AcrossTheEnd` | shared/ccsds/src/profile.c:241-245 | so too where the change lies on both sides of the beginning of the CRC field |
| `CrcBoundary.RegistersDiffer` | shared/ccsds/src/crc32.c:9-20 | what the registers of two messages differ by depends on the difference of the messages alone |
| `Profile.FourOctetsAccepted` | shared/ccsds/src/profile.c:209-303 | a valid packet changed within four consecutive octets, CRC field included, is accepted if and only if the change is that one and the payload has at least two octets |
| `CrcBoundary.UnseenExists` | shared/ccsds/src/crc32.c:3-23 | every message of at least six octets can be damaged in that way |
| `Profile.DamagedYetAccepted` | shared/ccsds/src/profile.c:209-303 | every valid packet with at least two payload octets has such a changed one that parses, with another payload |
| `Profile.BurstRejected` | shared/ccsds/src/profile.c:241-245 | a packet changed within 32 consecutive bits before its CRC field never parses |
| `Profile.DamagedCrcRejected` | shared/ccsds/src/profile.c:241-245 | a packet whose CRC field alone is changed is refused as a CRC mismatch |
| `ProfileCodec.BuildInto` | shared/ccsds/src/profile.c:116-188 | the builder writes exactly the specified packet and nothing behind it, or returns the specified error and writes nothing |
| `ProfileCodec.CheckProfile` | shared/ccsds/src/profile.c:247-292 | the checks after the CRC, in the order of the code, give the specified status |
| `ProfileCodec.CheckCrc` | shared/ccsds/src/profile.c:241-245 | the stored CRC is compared with the CRC of everything before it |
| `ProfileCodec.ParseFrom` | shared/ccsds/src/profile.c:209-303 | the parser returns the specified view or the first failing check |
| `Scanner.MaskIsCanStart` | platform/common/radio_deframer.c:41 | the mask test of the first octet is version 0 with a secondary header |
| `Scanner.ValidIsRecognised` | platform/common/radio_deframer.c:41-63 | every valid packet of at most 240 octets passes the quick checks, whatever follows it |
| `Scanner.DeliveryDependsOnStreamOnly` | platform/common/radio_deframer.c:36-70 | drained after each group of octets, packets, skipped octets and octets held depend only on the whole stream |
| `Scanner.DeliveredExactly` | platform/common/radio_deframer.c:36-70 | among resolved offsets a packet is delivered at p if and only if a valid one lies there and no packet delivered earlier reaches over p |
| `Scanner.DeliveredReach` | platform/common/radio_deframer.c:49-63 | a delivered packet reaches over exactly the octets that its length field claims |
| `Scanner.OneCallLeavesRoom` | platform/common/radio_deframer.c:27-70 | one call after an octet leaves fewer than 240 octets |
| `Scanner.HeldNeverFills` | platform/common/radio_deframer.c:27-34 | so with one call per octet the drop in push is never reached |
| `Scanner.CleanStreamDelivered` | platform/common/radio_deframer.c:36-70 | valid packets back to back come out as themselves, drained or one call per octet, nothing skipped or held |
| `Scanner.DatagramFirstPacket` | platform/sim/drivers/radio.c:135-142 | a datagram pushed whole and then one call deliver the first packet of its scan |
| `Scanner.JudgeTells` | platform/common/radio_deframer.c:36-70 | exactly when octets are awaited, skipped unlooked at, looked at and skipped, or delivered |
| `Scanner.InvalidExactly` | platform/common/radio_deframer.c:58-69 | the octets counted as invalid are those skipped that had a whole packet in front that is not valid |
| `GreedyScan.SkippedAreTheOthers` | platform/common/radio_deframer.c:36-70 | every octet is in a delivered packet or counted as skipped |
| `GreedyScan.InvalidAreLookedAt` | platform/common/radio_deframer.c:36-70 | the count of invalid packets is the number of octets skipped after a look |
| `GreedyScan.ScanConserves` | platform/common/radio_deframer.c:36-70 | delivered packets, skipped octets and the rest are the stream, in order |
| `GreedyScan.ScanSplit` | platform/common/radio_deframer.c:27-70 | scanning what is held with what arrives next continues the scan of the whole |
| `GreedyScan.GroupingIrrelevant` | platform/common/radio_deframer.c:27-70 | how the stream is cut into groups makes no difference |
| `GreedyScan.LeftmostGreedy` | platform/common/radio_deframer.c:36-70 | the scan delivers leftmost-greedily, for any way of judging the front |
| `GreedyScan.NothingDeliveredLater` | platform/common/radio_deframer.c:36-70 | nothing is delivered at an offset not yet resolved |
| `GreedyScan.NextBeginsScan` | platform/common/radio_deframer.c:36-70 | one call hands out the first packet of the scan and leaves the rest of the scan |
| `GreedyScan.RunOnceIsScan` | platform/common/radio_deframer.c:27-70 | one call per octet loses and reorders nothing: what came out and what the held octets would bring is the scan of the stream |
| `RadioDeframer.Deframer.Reset` | platform/common/radio_deframer.c:17-20 | reset forgets the octets held, delivers and counts nothing |
| `RadioDeframer.Deframer.Drop` | platform/common/radio_deframer.c:11-15 | the first n octets go, the others stay in order |
| `RadioDeframer.Deframer.Push` | platform/common/radio_deframer.c:27-34 | the octet is appended; a full buffer gives up its oldest octet, which counts as skipped |
| `RadioDeframer.Deframer.Next` | platform/common/radio_deframer.c:36-70 | the loop delivers what the pure scan delivers, with the partition of the stream and the three 32-bit counters kept |
| `RadioDeframer.Deframer.Receive` | platform/real/drivers/radio.c:492-493 | push and one call, as the real receiver does, leave room for the next octet |
| `RadioDeframer.Deframer.Feed` | platform/real/drivers/radio.c:466-493 | over a whole stream the packets found are those of one call per octet |
| `ByteRing.Ring.Read` | platform/common/radio_queue.c:45-53 | ring_read removes the first n octets of the contents, in order, across the wrap |
| `ByteRing.Ring.Write` | platform/common/radio_queue.c:55-63 | ring_write appends to the contents, across the wrap |
| `MessageCodec.HeaderInFront` | platform/common/radio_queue.c:78-84 | with nothing left of a message the ring begins with the next header, never with payload |
| `MessageCodec.ChunkInFront` | platform/common/radio_queue.c:91-105 | taking a chunk leaves the rest of the message in front |
| `MessageCodec.DecodeEncoded` | platform/common/radio_queue.c:153-166 | the ring octets determine the waiting messages |
| `MessageRing.Store.Put` | platform/common/radio_queue.c:153-166 | a message is queued whole or not at all, and exactly when it fits |
| `MessageRing.Store.ReadHeader` | platform/common/radio_queue.c:78-84 | reading a header yields the next message |
| `MessageRing.Store.ReadChunk` | platform/common/radio_queue.c:91-105 | reading a chunk yields the message bytes in order |
| `SentHistory.HoldsOneMore` | platform/common/radio_queue.c:136-142 | after a packet is remembered the 600 slots hold the last 600 packets sent |
| `SentHistory.SearchStep` | platform/common/radio_queue.c:212-219 | a slot that matches is the newest match not looked at before, one that does not leaves the rest of the search |
| `SentHistory.History.Remember` | platform/common/radio_queue.c:136-142 | the packet goes over the oldest slot, with the APID and count of its own header |
| `SentHistory.History.Find` | platform/common/radio_queue.c:212-220 | the search finds the newest match among the last 600, if any |
| `Transmitter.Sender.TakeFramed` | platform/common/radio_queue.c:91-97 | a resend is taken whole into the 240-octet buffer, its number read from its octets |
| `Transmitter.Sender.TakeChunk` | platform/common/radio_queue.c:98-106 | at most 214 octets are taken, numbered per content type |
| `Transmitter.Sender.BuildPacket` | platform/common/radio_queue.c:110-115 | the chunk is framed with item count 1 and no config |
| `Archive.Record.Conclude` | platform/common/radio_queue.c:128-147 | each finished packet is counted as sent, resent, retried or dropped, and remembered if sent for the first time |
| `RadioQueue.Queue.PushLocked` | platform/common/radio_queue.c:153-166 | one atomic step: all or nothing, with the high-water mark |
| `RadioQueue.Queue.Push` | platform/common/radio_queue.c:168-205 | one atomic step: every refusal counted, the thread started once; the run of the object grows by it |
| `RadioQueue.Queue.Resend` | platform/common/radio_queue.c:207-224 | one atomic step: the newest match queued octet for octet, or nothing changed; the run of the object grows by it |
| `RadioQueue.Queue.PendingOctets` | platform/common/radio_queue.c:226-232 | waiting octets and the octets in flight |
| `RadioQueue.Queue.TakeNext` | platform/common/radio_queue.c:75-108 | first lock-held region: takes the abstract state through Take, one more action of the run |
| `RadioQueue.Queue.SendPacket` | platform/common/radio_queue.c:117-121 | the loop of send attempts, for any answers of the radio |
| `RadioQueue.Queue.FinishJob` | platform/common/radio_queue.c:128-147 | second lock-held region: takes the abstract state through Finish, one more action of the run |
| `Downlink.StepKeepsInv` | platform/common/radio_queue.c:65-224 | every step keeps: the queue fits and is parseable, numbers are right, jobs are well ended, no chunk is lost |
| `Downlink.RunInv` | platform/common/radio_queue.c:65-224 | so it holds after every interleaving of pushes, resends and the transmit thread |
| `Downlink.HeadReady` | platform/common/radio_queue.c:78-105 | whenever the thread takes, the message under way is not empty, of a known type, and as a resend fits the 240-octet buffer |
| `Downlink.PushAllOrNothing` | platform/common/radio_queue.c:168-205 | a push succeeds exactly with pointers, known content, octets that are whole packets for SSDV, a thread that runs or starts, and room; then it queues the whole message; else it only counts a refusal, and starts the thread if arguments were good |
| `Downlink.HighWaterIsMost` | platform/common/radio_queue.c:163 | the high-water mark is the most octets that waited at any time of the run |
| `Downlink.TriesUpToThree` | platform/common/radio_queue.c:117-121 | a packet is tried until one attempt works or three have failed |
| `Downlink.JobNumber` | platform/common/radio_queue.c:103-104 | a chunk carries the number of earlier chunks of its content type, modulo 2^14 |
| `Downlink.CountGap` | platform/common/radio_queue.c:103-104 | between two chunks of a type the counts differ by one more than the chunks between them, sent or dropped; resends take no number |
| `Downlink.FinishedInOrder` | platform/common/radio_queue.c:74-148 | the finished jobs are an initial part of the chunking of all accepted messages, in order |
| `Downlink.PendingZeroIffDone` | platform/common/radio_queue.c:226-232 | nothing is pending exactly when every chunk accepted has been sent or given up |
| `Downlink.ResendsAreCopies` | platform/common/radio_queue.c:91-97 | a resend on the air is a packet that was sent before it |
| `Downlink.FoundIffMatch` | platform/common/radio_queue.c:211-220 | the search finds something exactly when something matches, and then the newest |
| `Downlink.ResendQueuesNewest` | platform/common/radio_queue.c:207-224 | a resend succeeds exactly when the thread was started and the newest match is among the last 600 sent and fits, queues it, and otherwise changes nothing |
| `Downlink.PendingMoves` | platform/common/radio_queue.c:226-232 | what is pending grows by each message and its header, shrinks by the header when the first chunk is taken and by a chunk when it is finished |
| `Downlink.ThreeAttempts` | platform/common/radio_queue.c:110-121 | a chunk taken is tried until one of three attempts works; one that cannot be framed is not tried |
| `Downlink.RetriesTell` | platform/common/radio_queue.c:128-147 | the retries counted are the calls of the sender after the first for each packet |
| `Downlink.NothingSentBeforeStart` | platform/common/radio_queue.c:216 | no packet precedes the start of the thread, so that test never decides |
| `PacketFraming.FramedIffNotCompressed` | platform/common/radio_queue.c:112-113 | every chunk but compressed telemetry can be framed, and compressed telemetry never |
| `EndToEnd.SentIsReceived` | platform/common/radio_queue.c:65-150 | after any run, the packets on the air come out of the receiver as exactly those packets, in order, nothing skipped or held |
| `EndToEnd.PayloadsInOrder` | platform/common/radio_queue.c:65-232 | original packets carry, type, number and payload, the in-order chunks of the accepted messages that were not dropped; a drop means three failures or compressed content |
| `Payloads.ChunksJoin` | platform/common/radio_queue.c:91-105 | the chunks of a message join to its data; all but the last are of 214 octets, and a resend is one chunk |
| `Payloads.AllChunksJoin` | platform/common/radio_queue.c:91-105 | for each content type the chunks of the messages accepted join to their data, in order |
| `Payloads.AllDataIffAllDone` | platform/common/radio_queue.c:74-148 | what was sent of a content type is all of its data if and only if every chunk of it was sent |
| `EndToEnd.DataArrives` | platform/common/radio_queue.c:65-232 | after any run the payloads of the original packets of a content type join to exactly the data accepted, in order, if and only if every chunk of it was sent |
| `EndToEnd.MatchesTells` | platform/common/radio_queue.c:211-220 | a packet sent answers to exactly the APID of its content type and its own number |
| `EndToEnd.QueueDelivers` | platform/common/radio_queue.c:65-232 | so it is, and the air is received, for the object after whatever calls, its history of sent packets being the original ones and its counters those of packets sent, dropped, sent again and retried |
| `KernelList.List.constructor` | rtos/kernels/src/list.c:49-86 | an empty ring of the end marker alone |
| `KernelList.List.InsertEnd` | rtos/kernels/src/list.c:105-136 | the links stay a doubly linked ring; the item goes in front of the cursor |
| `KernelList.List.Search` | rtos/kernels/src/list.c:161-199 | the search ends, for every value, behind the last item in front of the first greater one |
| `KernelList.List.Insert` | rtos/kernels/src/list.c:139-213 | the links stay a ring, the item is at the place searched for, a sorted list stays sorted |
| `KernelList.List.Remove` | rtos/kernels/src/list.c:217-247 | only that item goes, a cursor on it steps back, the count is returned |
| `KernelList.List.NextEntry` | rtos/kernels/include/list.h:286-297 | the cursor steps to the next item, past the end marker |
| `KernelList.List.IsEmpty` | rtos/kernels/include/list.h:258 | the count is zero exactly for a list without items |
| `KernelList.List.HeadEntry` | rtos/kernels/include/list.h:233 | the first item |
| `ItemLists.ItemLists.constructor` | rtos/kernels/src/croutine.c:338-355 | n initialised lists that share nothing |
| `ItemLists.ItemLists.Add` | rtos/kernels/src/croutine.c:145-155 | a new item with its owner and value, in no list |
| `ItemLists.ItemLists.PutEnd` | rtos/kernels/src/list.c:105-136 | the item goes to the end of one list; all other lists stay as they are |
| `ItemLists.ItemLists.PutInOrder` | rtos/kernels/src/list.c:139-213 | the item goes to its place by value in one list; all other lists stay as they are |
| `ItemLists.ItemLists.Take` | rtos/kernels/src/list.c:217-247 | the item leaves the list that its container field points to; all other lists stay as they are |
| `ItemLists.ItemLists.Next` | rtos/kernels/include/list.h:286-297 | the cursor of one list steps on and the owner of the item there is returned |
| `ItemLists.ItemLists.Head` | rtos/kernels/include/list.h:403 | the owner of the first item |
| `ItemLists.ItemLists.SetValue` | rtos/kernels/src/croutine.c:191 | the value of an item in no list changes |
| `RoundRobin.NextRotates` | rtos/kernels/include/list.h:286-297 | a step returns what is upcoming first and sends it to the back |
| `RoundRobin.EachOnce` | rtos/kernels/include/list.h:286-297 | n consecutive steps through n items return each exactly once |
| `RoundRobin.InsertEndComesLast` | rtos/kernels/src/list.c:105-136 | an item inserted at the end comes after all others but the one at the cursor |
| `RoundRobin.RemoveOnlyRemoves` | rtos/kernels/src/list.c:217-247 | removing any item, the one at the cursor too, neither skips nor repeats another |
| `RoundRobin.InsertThenRemove` | rtos/kernels/src/list.c:139-247 | removing what was just inserted gives the list back, cursor and all |
| `RoundRobin.RemoveThenInsert` | rtos/kernels/src/list.c:139-247 | putting what was removed back in its place gives the items back, and the cursor if and only if it was not on that item |
| `RoundRobin.PlaceIsStable` | rtos/kernels/src/list.c:153-204 | a sorted list stays sorted and the new item is behind all its equals |
| `IdList.InsertSortedPutsIn` | rtos/kernels/src/list.c:139-213 | sorted insertion of a co-routine keeps order and membership |
| `Scheduling.CreateKeepsInv` | rtos/kernels/src/croutine.c:107-171 | creating keeps the invariant |
| `Scheduling.CreateAddsOne` | rtos/kernels/src/croutine.c:107-171 | the new co-routine is ready, its priority clamped, behind all others of its priority but the one that had the last turn; the first one becomes current; nobody else changes |
| `Scheduling.DelayKeepsInv` | rtos/kernels/src/croutine.c:174-214 | delaying, with or without an event, keeps the invariant |
| `Scheduling.SignalKeepsInv` | rtos/kernels/src/croutine.c:358-384 | an event keeps the invariant, moves the event item of the first waiter to the pending list and touches no ready or delay list |
| `Scheduling.ReleaseKeepsInv` | rtos/kernels/src/croutine.c:217-237 | readying a delayed co-routine keeps the invariant: each generic item in one list, its own priority or a delay list, each event item in at most one |
| `Scheduling.TickKeepsInv` | rtos/kernels/src/croutine.c:246-263 | a tick keeps the invariant once everybody due has been seen to, wrap or not |
| `Scheduling.SelectKeepsInv` | rtos/kernels/src/croutine.c:314-331 | choosing keeps the invariant |
| `Scheduling.ExpireExact` | rtos/kernels/src/croutine.c:266-293 | a co-routine times out at exactly the time it is due |
| `Scheduling.NotLate` | rtos/kernels/src/croutine.c:266-278 | once nobody can time out, all still delayed are due later |
| `Scheduling.SwapEmpty` | rtos/kernels/src/croutine.c:250-263 | the delay list in use is empty when the counter is about to wrap |
| `Scheduling.DelaySettles` | rtos/kernels/src/croutine.c:174-214 | nobody can time out right after a delay exactly when the delay is at least one tick |
| `Scheduling.ZeroDelayOverslept` | rtos/kernels/src/croutine.c:174-263 | a delay of none in the last tick before the wrap leaves the co-routine asleep past its time |
| `Scheduling.SelectHighest` | rtos/kernels/src/croutine.c:314-331 | the next co-routine of the highest nonempty priority becomes current, only that cursor moves; without any, nothing runs |
| `Scheduling.RunsTheHighest` | rtos/kernels/src/croutine.c:299-335 | no ready co-routine has a higher priority than the one chosen |
| `Scheduling.SignalPicksHighest` | rtos/kernels/src/croutine.c:358-370 | an event readies a waiter of the highest priority |
| `Scheduling.ChoiceIsForemost` | rtos/kernels/src/croutine.c:314-331 | the co-routine chosen is ready with nobody ready above it, and none is chosen exactly if nobody is ready |
| `Scheduling.AnswerTells` | rtos/kernels/src/croutine.c:372-383 | the answer is yes exactly if somebody who waits has at least the priority of the one that runs |
| `Scheduling.DelayMoves` | rtos/kernels/src/croutine.c:174-214 | a delay moves only that co-routine, which joins those who wait for the event by priority |
| `Scheduling.SignalMoves` | rtos/kernels/src/croutine.c:358-370 | the first waiter leaves its list and comes last in turn among the pending |
| `Scheduling.ReadiedComesLast` | rtos/kernels/src/croutine.c:72-80 | a co-routine that is readied comes last in turn at its priority |
| `Scheduling.FirstComesFirst` | rtos/kernels/src/croutine.c:217-293 | the first pending is readied first, and of those delayed the one due first times out first |
| `CoRoutineRuns.StepKeepsInv` | rtos/kernels/src/croutine.c:107-384 | every step of the scheduler, a co-routine or an interrupt keeps the machine invariant |
| `CoRoutineRuns.EveryRun` | rtos/kernels/src/croutine.c:107-384 | so it holds in every state of every run |
| `CoRoutineRuns.CatchesUp` | rtos/kernels/src/croutine.c:244-295 | the tick count reaches the clock that was read, however many ticks passed |
| `CoRoutineRuns.SwapsWhenEmpty` | rtos/kernels/src/croutine.c:250-263 | in every run the delay lists change places only while the one in use is empty |
| `CoRoutineRuns.ExactWake` | rtos/kernels/src/croutine.c:174-296 | over every run a co-routine delayed by d, with an event to wait for or not, is ready once time has come to its tick, and if no event came for it exactly then and not before, through any number of wraps |
| `CoRoutineRuns.EventWakes` | rtos/kernels/src/croutine.c:217-237 | a co-routine for which an event has come is ready when the scheduler is through with the pending list, whatever happens in between |
| `CoRoutineCalls.WholeCall` | rtos/kernels/src/croutine.c:299-335 | the rounds of a call that nothing interrupts come to what its loops run to their ends come to |
| `CoRoutineRounds.DrainedExactly` | rtos/kernels/src/croutine.c:217-237 | the pending loop readies exactly the pending co-routines |
| `CoRoutineRounds.SettledExactly` | rtos/kernels/src/croutine.c:265-293 | the inner loop readies exactly those due |
| `CoRoutineRounds.CountedExactly` | rtos/kernels/src/croutine.c:240-296 | counting any number of ticks readies exactly those due by then |
| `CoRoutineRounds.RoundExactly` | rtos/kernels/src/croutine.c:299-335 | a whole call readies exactly the pending co-routines and those due by then |
| `CoRoutineRounds.BatchesDoNotMatter` | rtos/kernels/src/croutine.c:217-335 | two whole calls that count m and n ticks, each with draining and choosing, leave time and the place of every item as one call that counts m + n |
| `CoRoutineRounds.RoundRunsHighest` | rtos/kernels/src/croutine.c:299-335 | a whole call runs the highest priority among ready, pending and due co-routines |
| `CoRoutineRounds.TakesTurns` | rtos/kernels/src/croutine.c:325-327 | the co-routines of the highest priority are run in turn, each once in as many calls as they are |
| `CoRoutineKernel.Kernel.constructor` | rtos/kernels/src/croutine.c:338-355 | fresh linked lists stand for the start state, which satisfies the invariant |
| `CoRoutineKernel.Kernel.AddToReadyQueue` | rtos/kernels/src/croutine.c:72-80 | on the linked lists, the macro is the step AddReady |
| `CoRoutineKernel.Kernel.Create` | rtos/kernels/src/croutine.c:107-171 | with two new list items, xCoRoutineCreate is the step Create |
| `CoRoutineKernel.Kernel.AddToDelayedList` | rtos/kernels/src/croutine.c:174-214 | on the linked lists, vCoRoutineAddToDelayedList is the step Delay |
| `CoRoutineKernel.Kernel.RemoveFromEventList` | rtos/kernels/src/croutine.c:358-384 | on the linked lists, xCoRoutineRemoveFromEventList is the step Signal, and answers whether somebody who waited has at least the priority of the one that runs |
| `CoRoutineKernel.Kernel.CheckPendingReadyList` | rtos/kernels/src/croutine.c:217-237 | the loop is MovePending until none is pending |
| `CoRoutineKernel.Kernel.WakeDue` | rtos/kernels/src/croutine.c:265-293 | the inner loop is Expire until nobody is due |
| `CoRoutineKernel.Kernel.CheckDelayedList` | rtos/kernels/src/croutine.c:240-296 | the outer loop counts the passed ticks and ends at the clock read |
| `CoRoutineKernel.Kernel.Choose` | rtos/kernels/src/croutine.c:314-331 | the search and the choice are the step Select; a co-routine is returned exactly if somebody is ready, and it is a foremost one |
| `CoRoutineKernel.Kernel.Schedule` | rtos/kernels/src/croutine.c:299-335 | on the linked lists, a call is a whole round and runs a foremost ready co-routine, or none exactly if nobody is ready; before the first creation it does nothing |
| `BusFrame.SerializeThenDeserialize` | shared/interfaces/frame.c:6-55 | a serialized frame is read back |
| `BusFrame.DeserializeThenSerialize` | shared/interfaces/frame.c:6-55 | a frame that is read is what serializing it gives, in exactly its own room |
| `BusFrame.WireInFront` | shared/interfaces/frame.c:34-55 | whatever follows, the header tells where the frame ends |
| `BusFrame.FrameOctets` | shared/interfaces/frame.c:6-55 | each octet of a frame, and exactly what is written and what is read |
| `GoldenVectors.GoldenFrame` | tests/test_frame_codec.c:20-33 | the frame of the worked example is 02 01 00 03 10 20 30 |
| `BusFrame.SerializeInto` | shared/interfaces/frame.c:6-32 | the frame is written and nothing else, or -1 and nothing |
| `BusFrame.DeserializeFrom` | shared/interfaces/frame.c:34-55 | the frame is read, or refused exactly when too short, too long or of another length than claimed |
| `BusStream.RoomToRead` | platform/sim/drivers/comms_i2c.c:220-248 | whenever the code comes to read there is room in the buffer |
| `BusStream.ReceiveConserves` | platform/sim/drivers/comms_i2c.c:211-327 | for any octets: what was held and unread is the frame returned and what is held and unread now |
| `BusStream.TimeOutChangesNothing` | platform/sim/drivers/comms_i2c.c:254-277 | a time-out between two calls makes no difference |
| `BusStream.LookAtStream` | platform/sim/drivers/comms_i2c.c:220-248 | in front of a stream of frames the first is found as soon as it is complete, and more octets are awaited until then |
| `BusStream.ReceiveInOrder` | platform/sim/drivers/comms_i2c.c:211-327 | on a stream of frames a call returns the first one or loses nothing |
| `BusStream.ReceiveArrives` | platform/sim/drivers/comms_i2c.c:211-327 | with reads enough, of whatever sizes, the next frame is received |
| `BusStream.ShortWriteMisreads` | platform/sim/drivers/comms_i2c.c:374-405 | where the last octet of a frame is not written, the reader returns a frame that nobody sent |
| `BusStream.LookTells` | platform/sim/drivers/comms_i2c.c:223-248 | for any octets, exactly when more are awaited, a frame is cut out, or the connection is in error |
| `BusStream.NoMoment` | platform/sim/drivers/comms_i2c.c:254-277 | a call out of time returns what is there already, or times out |
| `BusStream.OneMoment` | platform/sim/drivers/comms_i2c.c:278-327 | a failing poll and a read of nothing are errors, an interruption does no harm, and a read takes as much as there is, is handed over and fits |
| `BusSession.OneReading` | platform/sim/drivers/comms_i2c.c:220-248 | a stream of frames can be read in one way only |
| `BusSession.WrittenLength` | platform/sim/drivers/comms_i2c.c:374-405 | the octets taken are the stream of the frames if every write was whole, and fewer if not |
| `BusSession.DeliveredIffWhole` | platform/sim/drivers/comms_i2c.c:211-405 | some calls return exactly the frames written if and only if every write took all it was given |
| `BusSession.ArriveIffWhole` | platform/sim/drivers/comms_i2c.c:211-405 | so too for a reader that has read some frames already |
| `LeftoverBuffer.Leftover.Extract` | platform/sim/drivers/comms_i2c.c:223-248 | a complete frame is taken out and the rest moved to the front; an impossible length is an error |
| `LeftoverBuffer.Leftover.Fill` | platform/sim/drivers/comms_i2c.c:300-325 | one read appends what fits |
| `LeftoverBuffer.Leftover.ReceiveOne` | platform/sim/drivers/comms_i2c.c:211-327 | the loop computes the pure reception, for any sequence of polls and reads |
| `SimBus.CollectKeepsInv` | platform/sim/drivers/comms_i2c.c:472-510 | taking from a connection keeps: frames read and octets on the way are the octets written, packets given out are those addressed to the reader that fit |
| `SimBus.PutKeepsInv` | platform/sim/drivers/comms_i2c.c:374-388 | a write, whole or short, keeps that |
| `SimBus.WholeInOrder` | platform/sim/drivers/comms_i2c.c:211-405 | as long as writes were whole, the frames read are the first ones written |
| `SimBus.CaughtUp` | platform/sim/drivers/comms_i2c.c:211-327 | then a reader with nothing more to read has taken every frame written |
| `SimBus.StepKeepsInv` | platform/sim/drivers/comms_i2c.c:329-510 | every step of master and slaves keeps the invariant |
| `SimBus.AddressedFifo` | platform/sim/drivers/comms_i2c.c:329-510 | in every run, as long as writes to it were whole, a slave is given exactly, in order, the packets for its address that the master sent since it joined, and all of them once it has read all there is |
| `SimBus.UpstreamFifo` | platform/sim/drivers/comms_i2c.c:409-510 | in every run, as long as its writes were whole, the master is given from a slave exactly, in order, what that slave sent to it, and all of it once everything is read |
| `SimBus.ArriveExactlyIfWhole` | platform/sim/drivers/comms_i2c.c:329-510 | in every run a slave can come to have read exactly the frames written to it if and only if each of those writes was whole |
| `SimBus.NeverBroken` | platform/sim/drivers/comms_i2c.c:229-242 | frames written whole never look broken to the reader |
| `SimBus.FailuresStayApart` | platform/sim/drivers/comms_i2c.c:374-388 | in two runs that differ only in what becomes of the writes to one slave, every other live slave has read and was given the same and has the same on the way |
| `BusHistory.CollectTells` | platform/sim/drivers/comms_i2c.c:413-510 | the packet returned is source and payload of a frame read that is addressed to the reader and fits, and exactly that is added to those given out |
| `BusHistory.PollTells` | platform/sim/drivers/comms_i2c.c:440-471 | slots are read in order until one has a packet for the master or one that does not fit, whose outcome is returned; the slots behind are left alone |
| `BusHistory.BroadcastTells` | platform/sim/drivers/comms_i2c.c:374-388 | a write reaches every live slot as far as the system takes it, and closes a slot exactly if it fails |
| `BusHistory.RunJoins` | platform/sim/drivers/comms_i2c.c:329-390 | the frames the master sends and the stations that join are those asked for, in order |
| `BusHistory.StationsAreServed` | platform/sim/drivers/comms_i2c.c:329-510 | in every run the packets that receive calls of a slave return are, in order, those that the master was asked to send to it since it joined, and all once it has read all there is, as long as writes were whole |
| `BusHistory.PollGives` | platform/sim/drivers/comms_i2c.c:409-511 | a call of the master that returns a packet adds it to those of one connection; any other adds none |
| `BusHistory.MasterIsServed` | platform/sim/drivers/comms_i2c.c:409-511 | in every run the packets that receive calls of the master return are those of its connections mixed, each connection giving what its slave was asked to send to the master, in order |
| `SimDriver.Receiver.Take` | platform/sim/drivers/comms_i2c.c:211-327 | reading from one connection, leftover buffer and socket, is the step Collect |
| `SimDriver.Slave.Receive` | platform/sim/drivers/comms_i2c.c:472-510 | the slave receive: time-out for foreign frames, error for a payload that does not fit, else the packet |
| `SimDriver.StatusTells` | platform/sim/drivers/comms_i2c.c:472-510 | length for a packet, -1 for a failed connection or a packet that does not fit, -2 for nothing or a frame for another |
| `SimDriver.Master.Accept` | platform/sim/drivers/comms_i2c.c:111-116 | a new connection is a live slot with nothing on the way |
| `SimDriver.OfferAll` | platform/sim/drivers/comms_i2c.c:367-388 | the loop over the slots is the broadcast, closing those whose write fails; its result is that of the last live one |
| `SimDriver.Master.Send` | platform/sim/drivers/comms_i2c.c:329-406 | a frame is broadcast to every live slot and the status follows the last of them; one too long is an error and goes nowhere |
| `SimDriver.SendStatusTells` | platform/sim/drivers/comms_i2c.c:367-405 | the status is the payload length exactly if some slot lives and the last one that does took the whole frame, else -1 |
| `SimDriver.ReportedThoughLost` | platform/sim/drivers/comms_i2c.c:367-405 | with two live slots a send can be a success though the write to the first failed |
| `SimDriver.SuccessTellsAllIffOne` | platform/sim/drivers/comms_i2c.c:367-405 | success means that every live slave got the frame if and only if at most one is live |
| `SimDriver.AskAll` | platform/sim/drivers/comms_i2c.c:440-471 | the loop over the slots, each with its own leftover buffer and socket, is Poll: it ends at the first packet for the master and closes the connections that fail |
| `SimDriver.Master.Receive` | platform/sim/drivers/comms_i2c.c:409-511 | the result of that loop as status and packet |
| `RealBus.AcceptedIff` | platform/real/drivers/comms_i2c.c:370-416 | what is accepted is exactly a whole frame from that slave to the master whose payload fits the caller |
| `RealBus.AtIsMod` | platform/real/drivers/comms_i2c.c:350 | polling goes round modulo the number of slaves |
| `RealBus.IdleOrDead` | platform/real/drivers/comms_i2c.c:346-453 | with nobody ready the result tells a bus that answers from one that does not, and the turn stays |
| `RealBus.TurnComesNearer` | platform/real/drivers/comms_i2c.c:348-430 | a call that serves another slave brings the turn of one that is ready strictly nearer |
| `RealBus.FirstReadyDecides` | platform/real/drivers/comms_i2c.c:348-430 | the first ready slave in turn is served, and the turn moves on, exactly when its frame can be accepted; else the call fails and the turn stays |
| `RealBus.FirstReadyEver` | platform/real/drivers/comms_i2c.c:348-430 | in whichever round somebody first has something, the first such slave in turn is served and the turn goes on behind it exactly if its frame is good; else the call fails |
| `RealBus.NothingEver` | platform/real/drivers/comms_i2c.c:339-453 | without room or with nobody ever ready the call says so and the turn stays |
| `RealBus.OnlyServingMoves` | platform/real/drivers/comms_i2c.c:424-430 | the turn moves behind the slave served, and stays if none was |
| `RealBus.Fair` | platform/real/drivers/comms_i2c.c:339-453 | a slave ready whenever polled is served as soon as more calls have served somebody than slaves come before it in turn, whatever calls fail in between |
| `RealBus.ServedIffSound` | platform/real/drivers/comms_i2c.c:339-453 | where slaves stay as they are, a ready one is served within as many calls as its place in turn if and only if no slave up to it, itself included, has a frame that cannot be accepted |
| `RealBus.BadSlaveStarves` | platform/real/drivers/comms_i2c.c:370-416 | a call that fails keeps the turn: a slave whose frames cannot be accepted, when first in turn, fails every call |
| `RealBus.Master.Seek` | platform/real/drivers/comms_i2c.c:349-371 | one round finds the first slave in turn that is ready |
| `RealBus.Master.Receive` | platform/real/drivers/comms_i2c.c:339-453 | the nested loops compute the specified outcome and next start |

## Left out

- Event lists belong to the queues that use them; here the kernel holds a fixed number of them. All lists are initialised by the constructor and not at the first creation.
- CoRoutineKernel.Kernel.constructor: the tick type can hold the number of priorities, because an event item's value is computed in that type; larger numbers, which it would truncate, are not modelled.
- CoRoutineKernel.Kernel.AddToDelayedList: a co-routine that is to wait for an event has its event item in no list, because linking an item a second time would break both lists; callers wait for one event at a time.
- Interrupts inside a step: a step is one critical section, or code touching lists that no interrupt touches, so an interrupt falls between steps; that argument is not itself proved.
- Lock, condition variable and thread mechanics, sleeping and logging: each lock-held region is one atomic step; framing runs outside the lock on data that only the transmit thread touches, and is part of the step after it.
- The endless loop of `tx_thread`: its regions are separate methods and actions, so that producers can come between them.
- The 32-bit wrap of the transmit counters, which are unbounded here; the receive counters wrap.
- NULL pointers, except where the code takes them as data (`ccsds_crc32`, `radio_queue_push`).
- Arithmetic on `size_t`: unbounded, within the bounds that the code checks.
- Bit fields of headers are packed by addition and not by shifts; octets are integers from 0 to 255.
- `memcpy` and `memmove` are one parallel assignment each.
- Integrity-check octets and trace macros of the lists: no behaviour. `pvOwner` is the number of the co-routine.
- Failure to allocate a control block, and `vCoRoutineResetState`.
- The function that a co-routine runs: a call of the scheduler returns which one would run.
- Sockets, polls, clocks and I2C transfers: arbitrary outcomes, given as parameters.
- The status that a slave's own send on the simulated bus returns; its frame and its connection are in `SimBus`.
- More than five connections: accepting is enabled while the slot table has room.
- How the receive time is shared among connections: only that time ends, at any moment.
- The wall-clock reset of the receiver in `platform/real/drivers/radio.c`: `Reset` is modelled, when it is called is not.
- The send side of the real bus, status and command encodings, name tables and the board code: they would only add easy members.
