# Distributed camera: models and proofs

A Dafny model of the parts of the distributed camera that move bytes between devices and arbitrate between
peers, with proofs of what they keep and deliver. Each part has its specification on values (functions, state
machines, theorems over every input and every run) and, where the source changes objects step by step, a class
or a loop proved to do what the specification says.

| files | what they model |
|---|---|
| `Bytes`, `DataBuffer` | machine integers, byte orders, `memcpy_s`, the data buffer with its movable range |
| `WireHeader`, `Fragmentation`, `Reassembly`, `SessionRuns`, `OverlappingSends`, `ReceiverSafety`, `SoftbusSession` | the 21-byte header, the sender's cutting of a message into packets, the receiver's assembly of packets, and both over whole streams |
| `Authorization`, `AuthorizationTables` | requester, timer thread and result calls racing for a pending authorization; the adapter's tables |
| `TrustSlots`, `TrustArbitration`, `TrustOverlaps`, `TrustLeaks`, `TrustEffects`, `TrustSlotsAdapter` | binds and shutdowns, section by section, competing for the three trust slots, and the delayed clean-up |
| `VirtualBus`, `VirtualBusMemory` | the shared-memory bus: bytes between two indices, two semaphores, any number of senders and receivers |
| `Base64` | encoding and decoding (RFC 4648), on every string |
| `ThreadIsolation`, `ThreadIsolationWaiting`, `ThreadIsolationWorker` | the worker thread and its queue under interleaved posts, starts and stops; those who wait for completion |
| `TcpFraming` | length framing over a byte stream with partial sends and receives |
| `Nv12` | removing the row padding from the two planes of a decoded frame |
| `CaptureCommand` | the capture command and its JSON tree |
| `FaultInjection` | the fault pipeline a packet passes through |

Limits are the source's: a packet carries at most 4 MiB, chunks leave 512 bytes of it free, a message is 1 byte
to 100 MiB. `hide` statements only limit what the solver looks at.

Where the code does less than one would wish, the model keeps the code, says exactly when it does what is wanted,
and shows a run or input where it does not:

- every message uses sequence number 0, so packets of different fragmented messages are told apart by their
  sub-sequence number alone: for any packets of any sends in any order, exactly the completed messages arrive if
  and only if every last fragment finds the other chunks of its message right before it
  (`OverlappingSends.OverlapDeliversIff`; sends one after the other always do, `SerialIsInPlace`; two overlapping
  two-packet messages end in a mixture or in nothing, `OverlappingSendsMix`);
- `SetRange` adds in 64 bits: an accepted range lies in the buffer exactly when the sum does not wrap;
- the bus subtracts unsigned: a send is written past the memory exactly when less than a header of room is left
  (`VirtualBus.OverrunIffNoRoom`, `OverrunIff`, reached by `OverrunReachable`); and `WaitForData` without a time
  limit keeps the permit it takes, so that a bus with data can have no permit for it, exactly when every permit is
  elsewhere (`StarvedIffPermitsKept`, `StarvedReachable`);
- `tasksCompleted_` is written with an empty queue exactly after a clean count, one with no half-done post at it and
  no push since; so written it is right for as long as it is set, but for the task of a post that is about to clear
  it (`ThreadIsolation.FlagTellsTheTruth`, `FlagWrittenAfterCount`). It is stale after a push between the count and the flag, before the count but not yet
  added, or before `Start` clears it (`CompletionFlagCanBeStale`, `StaleByLateAdd`, `StaleBeforeReset`); the
  counter always tells the truth (`CounterTellsTheTruth`). A waiter asleep when the thread is stopped can be woken
  without another start exactly when the worker is at its flag or has just set it
  (`ThreadIsolationWaiting.WokenAfterStopIff`), and one asleep after an empty function was popped, with no flag on
  its way, is never woken (`EmptyFunctionForever`);
- two binds for one free slot are both told they are connected exactly when both are checked before either takes it
  (`TrustOverlaps.BothConnectIff`, `ConcurrentBindsBothConnect`); a refused control bind is told so exactly when, of
  all that marks and unmarks its session between its own mark and its report, the last takes the mark off
  (`TrustArbitration.ToldIffUnmarked`, `TrustOverlaps.RefusedCanBeTold`), and connected means let through exactly as
  long as that happens to none (`ConnectedMeansGranted`);
- the shutdown of a slot holder frees its slot exactly when its session has an id at the lookup
  (`TrustLeaks.LiveHolderFreedIff`); the id is lost exactly by the close of a shutdown, or a clean-up while the
  control slot is free (`IdLostIff`).
  It is not lost as long as no control bind is refused, no slot is taken over and no bind opens a session between the
  lookup and the close of another socket's shutdown on it (`OrderlyAllFreed`); after a refusal
  (`StaleAfterRefusal`), or a bind that opens before a late close (`StaleAfterLateClose`), the slot can be lost, and
  then stays taken (`StaleSlotStays`);
- what is sent over TCP without a failure arrives exactly when the four bytes of every length arrive together
  (`TcpFraming.ArrivesIffWhole`, frame by frame `InStepIffLengthWhole`), and a cut stream delivers a prefix exactly
  when the cut does not leave length bytes that read as zero (`TcpFraming.CutIsPrefixUnlessStray`); a failed send leaves the sender connected,
  and what is sent after it is read by itself, or taken for what is missing (`TcpFraming.AfterFailedSend`);
- the NV12 copies fill the whole result exactly for an even height or a width of at most one
  (`Nv12.NothingLeftOver`);
- a capture command survives its JSON form exactly when no string holds a NUL and the token id fits an int
  (`CaptureCommand.LosslessIff`).

## Model

| member | source | states |
|---|---|---|
| WireHeader.ParseEncode | services/channel/src/dcamera_softbus_session.cpp:299-318 | reading a written header gives back every field, for all values and whatever follows it |
| WireHeader.EncodeParse | services/channel/src/dcamera_softbus_session.cpp:433-463 | any 21 bytes read and written again are the same 21 bytes |
| WireHeader.HeaderBytes | services/channel/src/dcamera_softbus_session.cpp:433-463 | where each field stands in the bytes of a header, most significant byte first |
| WireHeader.MakeFragDataHeader | services/channel/src/dcamera_softbus_session.cpp:433-463 | the in-place writes produce exactly the header encoding, leave the rest alone, and do nothing when the destination is too short |
| Buffers.DataBuffer.constructor | common/src/utils/data_buffer.cpp:22-31 | 1 byte to 100 MiB give that many zeros, any other capacity an empty buffer without memory |
| Buffers.DataBuffer.SetRange | common/src/utils/data_buffer.cpp:53-62 | exact acceptance condition with the 64-bit sum; an accepted range is inside the buffer iff the sum does not wrap; a refusal changes nothing |
| Buffers.ErrorCodes | common/include/constants/distributed_camera_errno.h:22-38 | the error codes as numbers |
| Fragmentation.PacketSizes | services/channel/src/dcamera_softbus_session.cpp:390-431 | for every size above 4 MiB up to 100 MiB: 2 to 26 packets, every chunk but the last a full one, the last longer than the reserve and at most a packet |
| Fragmentation.CountIsUnique | services/channel/src/dcamera_softbus_session.cpp:390-431 | the closed form ceil((n - MAX) / CHUNK) + 1 is the only packet count compatible with the loop's exit test |
| Fragmentation.Turn | services/channel/src/dcamera_softbus_session.cpp:390-431 | the k-th turn of the loop, described by its offset alone, produces the k-th packet of the closed form; the 16-bit number never wraps; it is the last turn iff the rest fits |
| Fragmentation.LimitsAsNumbers | services/channel/include/dcamera_softbus_session.h:93-97 | 1 to 104857600 bytes are sent; up to 4194304 in one packet, above in chunks of 4193792 and a last one |
| Fragmentation.PacketBytes | services/channel/src/dcamera_softbus_session.cpp:390-463 | a packet byte by byte: version 1, flag 4, 1, 2 or 3, mode, sequence number 0, total length, number, length, and the bytes of the message |
| SoftbusSessions.SoftbusSession.UnPackSendData | services/channel/src/dcamera_softbus_session.cpp:368-418 | what goes out is the first k packets of the message in closed form, k the number the adapter accepted, success exactly when all were; null and empty buffers are refused with nothing sent |
| SoftbusSessions.SoftbusSession.SendFragments | services/channel/src/dcamera_softbus_session.cpp:390-418 | the sending loop for a message above the limit, turn by turn, terminates and sends the closed form's packets in order |
| SoftbusSessions.SoftbusSession.SetHeadParaDataLen | services/channel/src/dcamera_softbus_session.cpp:420-431 | a full chunk while more than a packet is left, otherwise the rest and the END flag; nothing changes past the end |
| SoftbusSessions.SoftbusSession.MakePacket | services/channel/src/dcamera_softbus_session.cpp:394-404 | the allocated buffer holds the header followed by the chunk, and nothing else; an empty chunk is the refusal of the copy |
| SoftbusSessions.SoftbusSession.SendBytes | services/channel/src/dcamera_softbus_session.cpp:465-481 | refused unless opened; recorded as sent exactly when the adapter accepts |
| SoftbusSessions.SoftbusSession.PackRecvData | services/channel/src/dcamera_softbus_session.cpp:139-174 | on any bytes at all the object's new assembly state and what it delivers are the specification's Step; invariant kept, all accesses in bounds |
| SoftbusSessions.SoftbusSession.AssembleNoFrag | services/channel/src/dcamera_softbus_session.cpp:176-198 | a well-formed single packet is delivered as it is, a length mismatch or an empty payload delivers nothing; the assembly is untouched |
| SoftbusSessions.SoftbusSession.StartFrag | services/channel/src/dcamera_softbus_session.cpp:200-223 | a START packet drops what was being assembled and opens a zero-filled buffer of the announced length with its payload in front |
| SoftbusSessions.SoftbusSession.ContinueFrag | services/channel/src/dcamera_softbus_session.cpp:225-247 | a MID or END packet extends the assembly, delivers it at END, or resets it when it does not continue it |
| SoftbusSessions.SoftbusSession.CheckUnPackBuffer | services/channel/src/dcamera_softbus_session.cpp:249-279 | accepts exactly a packet that continues the current assembly: same sequence, next sub-sequence, fitting length |
| SoftbusSessions.SoftbusSession.ResetAssembleFrag | services/channel/src/dcamera_softbus_session.cpp:281-289 | back to the idle assembly, nothing else changed |
| SoftbusSessions.SoftbusSession.PostData | services/channel/src/dcamera_softbus_session.cpp:291-297 | delivered exactly when there is a listener |
| Reassembly.Step | services/channel/src/dcamera_softbus_session.cpp:139-289 | from every consistent state, any packet leads to a consistent state (buffer there and of the announced length at most 100 MiB, offset inside it) and at most one delivery |
| Reassembly.Run | services/channel/src/dcamera_softbus_session.cpp:139-289 | the consistency of the assembly over any sequence of packets |
| ReceiverSafety.CountedByBytes | services/channel/src/dcamera_softbus_session.cpp:139-170 | which packets are looked at, by their bytes and the limits as numbers: the length field is the packet's, at most 4194304 and the total, the total at most 104857600; what the flag byte makes of them |
| ReceiverSafety.FollowsByBytes | services/channel/src/dcamera_softbus_session.cpp:249-279 | which packet continues an open message, by its bytes: same sequence number, next sub-sequence number, room left |
| SessionRuns.PacketParses | services/channel/src/dcamera_softbus_session.cpp:139-174 | the receiver reads from a packet the header and chunk the sender put into it, and no check refuses it |
| SessionRuns.RoundTrip | services/channel/src/dcamera_softbus_session.cpp:139-431 | from any reachable assembly state the packets of any message of 1 byte to 100 MiB deliver exactly that message once, ending idle (fragmented) or untouched (single packet) |
| SessionRuns.FragmentsSoFar | services/channel/src/dcamera_softbus_session.cpp:200-247 | after k fragments the receiver holds the first k chunks and zeros for the rest, whatever it held before |
| SessionRuns.SerialStreamDelivers | services/channel/src/dcamera_softbus_session.cpp:166-247 | for any stream in which fragmented messages may be cut off anywhere and single packets come anywhere in between, exactly the completed messages are delivered, in the order of their last packets |
| SessionRuns.StreamIsSerial | services/channel/src/dcamera_softbus_session.cpp:390-418 | sends one after the other, each stopped after any number of packets, form such a stream, and its completed messages are the finished sends |
| SessionRuns.InterruptedSendsDeliver | services/channel/src/dcamera_softbus_session.cpp:139-431 | any list of sends, each complete or stopped early, delivers exactly the finished ones in order |
| OverlappingSends.OverlapDeliversIff | services/channel/src/dcamera_softbus_session.cpp:200-289 | any packets of any sends in any order, to a session in any state such packets lead to: what is delivered is exactly the completed messages in order iff every last fragment finds the other chunks of its message in the fragments right before it, the first of them announcing its length |
| OverlappingSends.HoldsIffMatches | services/channel/src/dcamera_softbus_session.cpp:225-279 | the receiver holds the first k chunks of a message iff the last k fragments, whoever sent them, brought them |
| OverlappingSends.ItemHandled | services/channel/src/dcamera_softbus_session.cpp:200-289 | one packet of any send, in any state packets of sends lead to: opened, added, delivered or dropped, and the state stays of that kind |
| OverlappingSends.SerialIsInPlace | services/channel/src/dcamera_softbus_session.cpp:390-418 | sends one after the other, with single packets anywhere, meet the condition |
| OverlappingSends.OverlappingSendsMix | services/channel/src/dcamera_softbus_session.cpp:370-417 | two overlapping two-packet messages of any lengths: one message of the second's head and the first's tail, zero-padded, or none when the second is shorter |
| ReceiverSafety.StateIsOpenMessage | services/channel/src/dcamera_softbus_session.cpp:200-289 | after any packets whatever, the receiver waits exactly when there is an open message among them (a START and its MIDs in number), that message is unique, and the buffer holds its payloads |
| ReceiverSafety.DeliveredExactly | services/channel/src/dcamera_softbus_session.cpp:139-247 | for arbitrary bytes: packet i delivers a message iff it is whole by itself or ends an open one, and then the message is the payloads in order, zero-padded to the length START announced; never more than one |
| ReceiverSafety.NextOnOpen | services/channel/src/dcamera_softbus_session.cpp:225-279 | one MID or END packet on an open message: extends it, ends it, or drops it, and which |
| Authorization.DecidedAtMostOnce | services/channel/src/dcamera_softbus_adapter.cpp:1010-1065 | over every interleaving, each request causes at most one write of a decision, every write is by who it says and for the right network, and the table holds the last write per network |
| Authorization.NeverStranded | services/channel/src/dcamera_softbus_adapter.cpp:961-1100 | in every reachable state a pending request has a requester before its timer start, an uncancelled timer, a committed timer, or a result call about to take it |
| Authorization.AllDecidedWhenQuiet | services/channel/src/dcamera_softbus_adapter.cpp:961-1100 | when all agents are through, no pending entry, flag or thread is left, and a request with a network id was decided exactly once, one without not at all |
| Authorization.CancelledTimerNeverDecides | services/channel/src/dcamera_softbus_adapter.cpp:961-1065 | once a result call has cancelled the sleeping timer of its request, that timer writes no decision in any run; when all is quiet a request with a network id was then decided by a result call, with what the call was told |
| Authorization.AgentsFinish | services/channel/src/dcamera_softbus_adapter.cpp:961-1065 | the agents' own steps always come to an end, and they stop only in the quiet state |
| Authorization.SomeoneCanStep | services/channel/src/dcamera_softbus_adapter.cpp:961-1100 | no deadlock: unless all is quiet, some agent has an enabled step |
| Authorization.InvariantKept | services/channel/src/dcamera_softbus_adapter.cpp:961-1100 | every step keeps: one owner of the right to decide per request, every pending request attended, tables in agreement with the agents |
| Authorization.OwnerKept | services/channel/src/dcamera_softbus_adapter.cpp:1016-1065 | the right to decide a request is always at exactly one of the table, its timer, one result call, or used up |
| Authorization.AttendedKept | services/channel/src/dcamera_softbus_adapter.cpp:966-1064 | no step leaves a pending request without an agent that will take it |
| AuthorizationTables.Tables.CancelAuthorizationTimer | services/channel/src/dcamera_softbus_adapter.cpp:998-1008 | marks an existing timer flag, creates none, touches nothing else: the flag table as a map |
| AuthorizationTables.Tables.ProcessAuthorizationResult | services/channel/src/dcamera_softbus_adapter.cpp:1038-1065 | a call nobody interrupts is a run of the machine's steps; it writes its decision exactly for a pending request with a network id |
| AuthorizationTables.Tables.TimerThread | services/channel/src/dcamera_softbus_adapter.cpp:966-1036 | the thread after its sleep is a run of the machine's steps; it takes and denies its request exactly if its flag is there and not cancelled, otherwise leaves request and decisions alone, and leaves no trace of itself |
| AuthorizationTables.Tables.RequestAndWaitForAuthorization | services/channel/src/dcamera_softbus_adapter.cpp:1067-1100 | granted at once without a listener or package name, otherwise registered and armed before the listener is asked, as a run of the machine's steps |
| AuthorizationTables.Tables.SetAuthorizationGranted | common/src/utils/dcamera_utils_tools.cpp:511-521 | the network's decision is replaced, every other kept |
| TrustSlots.StepKeeps | services/channel/src/dcamera_softbus_adapter.cpp:562-830 | every section of a bind, shutdown or clean-up keeps: slots held by binds let through for them, distinct sockets, map entries and lookups leading to the right session, marks on control sessions only, clean-ups and events of returned binds |
| TrustArbitration.OneHolderEach | services/channel/src/dcamera_softbus_adapter.cpp:629-830 | over every interleaving of sections a slot is free or held by one socket whose bind was let through for it, and no socket holds two |
| TrustArbitration.SlotChanges | services/channel/src/dcamera_softbus_adapter.cpp:680-830 | a slot changes only to the socket of a bind that takes it, or to free by the release in the shutdown of its own holder; clean-up tasks change none |
| TrustArbitration.UninterruptedBind | services/channel/src/dcamera_softbus_adapter.cpp:629-718 | the sections of one bind in a row are the whole bind and its return code |
| TrustArbitration.UninterruptedShutdown | services/channel/src/dcamera_softbus_adapter.cpp:780-830 | the sections of one shutdown in a row, lookup, release, close, report and erase, are the whole shutdown |
| TrustArbitration.BindArbitrates | services/channel/src/dcamera_softbus_adapter.cpp:629-718 | in every reachable state a bind then left alone on a busy slot reports busy, changes no slot and is not reported; an accepted one found its slot free, holds it afterwards, moves no other, and is reported connected |
| TrustArbitration.ConnectedMeansGranted | services/channel/src/dcamera_softbus_adapter.cpp:643-830 | however binds and shutdowns overlap, connected is reported only to binds let through iff every refused control bind still finds its mark when it reports |
| TrustArbitration.MarkIs | services/channel/src/dcamera_softbus_adapter.cpp:685-801 | through any run the mark of a session is what the last refused bind, take or release of a shut-down holder on it has made it |
| TrustArbitration.ToldIffUnmarked | services/channel/src/dcamera_softbus_adapter.cpp:685-693 | from its mark to its report, whatever comes between: a refused control bind is reported connected iff the last that marks or unmarks its session in between takes the mark off |
| TrustArbitration.GrantedIffCheckedFirst | services/channel/src/dcamera_softbus_adapter.cpp:680-718 | any number of overlapping binds for a free slot: one that returns was let through iff it was checked before the first of them took the slot |
| TrustOverlaps.BothConnectIff | services/channel/src/dcamera_softbus_adapter.cpp:629-718 | two binds for one free slot, in any interleaving: both are reported connected iff both were checked before either took it |
| TrustOverlaps.ConcurrentBindsBothConnect | services/channel/src/dcamera_softbus_adapter.cpp:629-718 | a run in which both are, and the slot is left to the second |
| TrustOverlaps.RefusedCanBeTold | services/channel/src/dcamera_softbus_adapter.cpp:685-801 | a run in which a refused bind is reported connected |
| TrustLeaks.LiveHolderFreedIff | services/channel/src/dcamera_softbus_adapter.cpp:562-582 | in every reachable state a holder not shut down yet has its map entry; its shutdown's lookup succeeds, and left alone it frees the slot, iff its session has an id |
| TrustLeaks.ReleaseFrees | services/channel/src/dcamera_softbus_adapter.cpp:790-801 | once the lookup has succeeded the socket holds no slot after the release, whatever came between |
| TrustLeaks.IdLostIff | services/channel/src/dcamera_softbus_adapter.cpp:720-830 | a session loses its id exactly by the close of a shutdown that has found it, or a clean-up on it while the control slot is free |
| TrustLeaks.OrderlyAllFreed | services/channel/src/dcamera_softbus_adapter.cpp:629-830 | as long as no control bind is refused, no taken slot is taken over and no bind opens a session between the lookup and the close of another socket's shutdown on it, every bind let through and not shut down holds its slot, and its shutdown finds its session and frees it |
| TrustLeaks.StaleAfterRefusal | services/channel/src/dcamera_softbus_adapter.cpp:680-815 | a refused second peer on the same session that shuts down before its clean-up makes the holder's shutdown miss the slot |
| TrustLeaks.StaleAfterLateClose | services/channel/src/dcamera_softbus_adapter.cpp:780-830 | with nobody refused: a second peer binds between the release and the close of the first one's shutdown, both are reported connected, and the slot is lost |
| TrustLeaks.StaleSlotStays | services/channel/src/dcamera_softbus_adapter.cpp:680-815 | a slot missed that way, with nobody past the check, stays taken in every continuation of overlapping sections, and whoever competes for it is refused |
| TrustEffects.SlotByTag | services/channel/src/dcamera_softbus_adapter.cpp:684-715 | the tags of a name, as text, decide the slot: control before continue before snapshot |
| TrustEffects.BindLeaves | services/channel/src/dcamera_softbus_adapter.cpp:629-718 | in every reachable state, what each outcome of a bind left alone leaves in every table |
| TrustEffects.ShutdownLeaves | services/channel/src/dcamera_softbus_adapter.cpp:780-830 | in every reachable state, what a shutdown left alone leaves in every table: nothing without an id, otherwise slot, entry and id gone and the disconnection reported unless the session is marked and the socket held nothing |
| TrustEffects.CleanupGivesHolder | services/channel/src/dcamera_softbus_adapter.cpp:729-740 | in every reachable state a clean-up gives its session the id of the control slot's holder, a bind let through for it, or none; never a refused bind's |
| TrustEffects.CleanupRestoresHolder | services/channel/src/dcamera_softbus_adapter.cpp:629-741 | two binds on one control session and the clean-up of the second: the first one's id, its entry kept, the second's gone, and the first one's shutdown works |
| TrustSlotsAdapter.SinkAdapter.SinkOnBind | services/channel/src/dcamera_softbus_adapter.cpp:629-677 | the object's tables and return code after a bind are the specification's |
| TrustSlotsAdapter.SinkAdapter.HandleConflictSession | services/channel/src/dcamera_softbus_adapter.cpp:680-718 | refuses or takes according to whether a slot the name competes for is held |
| TrustSlotsAdapter.SinkAdapter.SinkOnShutDown | services/channel/src/dcamera_softbus_adapter.cpp:780-830 | releases the holder's slot, closes the session and tells the listener unless it is a refused peer's |
| TrustSlotsAdapter.SinkAdapter.RunCleanup | services/channel/src/dcamera_softbus_adapter.cpp:720-741 | the two critical sections of the clean-up: the refused socket loses its entry, and its session gets the id of the control slot's holder |
| TrustSlotsAdapter.SinkAdapter.OnSessionOpened | services/channel/src/dcamera_softbus_session.cpp:88-101 | takes over the socket and reports connected unless marked as conflicting |
| VirtualBus.FirstInFirstOut | services/virtual_bus/src/dcamera_virtual_bus.cpp:76-199 | over every interleaving of senders and receivers, up to a send past the memory if there is one: messages sent are those delivered followed by those the bytes between the indices decode to, and a permit is somewhere for each of the latter |
| VirtualBus.RegionDecodes | services/virtual_bus/src/dcamera_virtual_bus.cpp:107-128 | messages laid out one after the other decode, from the bytes alone, to themselves |
| VirtualBus.ReceiverNeverEmptyHanded | services/virtual_bus/src/dcamera_virtual_bus.cpp:141-199 | a receiver that got a permit always finds a whole message: its error branches are dead |
| VirtualBus.PermitMeansMessage | services/virtual_bus/src/dcamera_virtual_bus.cpp:150-190 | what such a receiver returns is the oldest undelivered message |
| VirtualBus.OverrunIffNoRoom | services/virtual_bus/src/dcamera_virtual_bus.cpp:98-105 | an accepted send leaves the memory iff less than a header of room is left |
| VirtualBus.OverrunIff | services/virtual_bus/src/dcamera_virtual_bus.cpp:96-125 | a run ends past the memory iff its last step is a send with less than a header of room left |
| VirtualBus.OverrunReachable | services/virtual_bus/src/dcamera_virtual_bus.cpp:98-125 | every bus with two permits can be overrun: a message that fills it, then one of any size |
| VirtualBus.StarvedIffPermitsKept | services/virtual_bus/src/dcamera_virtual_bus.cpp:201-241 | in every reachable state the bus has data but no permit iff the permits of all undelivered messages are unposted, with receivers, or kept by waiters without a time limit |
| VirtualBus.StarvedReachable | services/virtual_bus/src/dcamera_virtual_bus.cpp:201-220 | a run after which a message is there, nobody is in between and a waiter has kept its permit |
| VirtualBus.LifetimeIsBounded | services/virtual_bus/src/dcamera_virtual_bus.cpp:76-199 | space is never reclaimed: all messages ever sent fit the memory together, their number is bounded by the permits, and permits come back only near the end |
| VirtualBus.PermitsExactly | services/virtual_bus/src/dcamera_virtual_bus.cpp:190-193 | in every run, write permits: one goes with each accepted send, one comes back with each delivered message that ends within 24 + 1024 bytes of the end, and no other |
| VirtualBus.AcceptedIff | services/virtual_bus/src/dcamera_virtual_bus.cpp:98-113 | a send is accepted iff header and data fit behind the write index, or not even a header does |
| VirtualBus.MessageBytes | services/virtual_bus/src/dcamera_virtual_bus.cpp:115-128 | a message byte by byte: position, size, stamp, and the data from byte 24 |
| VirtualBus.StepKeeps | services/virtual_bus/src/dcamera_virtual_bus.cpp:76-199 | every step of a sender, receiver or waiter keeps the representation and the permit balance |
| VirtualBusMemory.Bus.SendData | services/virtual_bus/src/dcamera_virtual_bus.cpp:76-139 | bad sizes and a full bus change nothing; it writes past the memory iff less than a header of room is left; otherwise header and payload are in memory and the index moved, or the permit is given back |
| VirtualBusMemory.Bus.ReceiveData | services/virtual_bus/src/dcamera_virtual_bus.cpp:141-199 | nothing without a permit, and a permit taken for nothing given back; otherwise the bytes behind the header at the read index, the index moved past them, and a write permit back within 24 + 1024 bytes of the end |
| VirtualBusMemory.Bus.HasData | services/virtual_bus/src/dcamera_virtual_bus.cpp:233-242 | on a bus any run has led to, data is reported iff a message sent has not been delivered |
| Base64.RoundTrip | common/src/utils/dcamera_utils_tools.cpp:92-191 | decoding an encoding gives back the bytes |
| Base64.EncodedShape | common/src/utils/dcamera_utils_tools.cpp:92-139 | length 4 * ceil(n / 3), ceil(4 * n / 3) alphabet characters and pads after them |
| Base64.AlphabetIs | common/src/utils/dcamera_utils_tools.cpp:92-139 | table 1 of RFC 4648 and the pad |
| Base64.SextetsAreDigits | common/src/utils/dcamera_utils_tools.cpp:105-121 | three bytes and four sextets are the digits of one number |
| Base64.TailIsLeadingBits | common/src/utils/dcamera_utils_tools.cpp:171-188 | a last group of one, two or three characters gives none, one or two bytes, the leading bits |
| Base64.FillNeverShows | common/src/utils/dcamera_utils_tools.cpp:171-188 | the failed alphabet lookups that fill a short last group could be any values: the output is the same |
| Base64.DecodesPrefixOnly | common/src/utils/dcamera_utils_tools.cpp:141-196 | on any string: exactly floor(3 * k / 4) bytes, k the length of the alphabet prefix, and nothing after the prefix matters |
| Base64.ReencodesIffCanonical | common/src/utils/dcamera_utils_tools.cpp:92-196 | a string survives decoding and encoding iff it is canonical in the sense of section 3.5 of RFC 4648 |
| Base64.Base64Encode | common/src/utils/dcamera_utils_tools.cpp:92-139 | the loop over the two small arrays computes the encoding |
| Base64.Base64Decode | common/src/utils/dcamera_utils_tools.cpp:141-191 | the loop, its stop at the first foreign character and its tail compute the decoding |
| ThreadIsolation.TasksInOrder | services/thread_isolation/src/dcamera_thread_isolation.cpp:69-140 | over every interleaving: accepted tasks = taken ++ queued, what was run or is held is exactly the callable ones taken, in order and once each; the counter's exact value |
| ThreadIsolation.AllRunWhenWaiting | services/thread_isolation/src/dcamera_thread_isolation.cpp:100-144 | a worker waiting at an empty queue has run everything accepted; its counter is zero iff no empty function was posted |
| ThreadIsolation.StopTakesNothingMore | services/thread_isolation/src/dcamera_thread_isolation.cpp:47-67 | after stop every worker step is nearer the exit, no further task is taken and only the one held is still run |
| ThreadIsolation.StopCannotHang | services/thread_isolation/src/dcamera_thread_isolation.cpp:47-67 | while joining, the worker always has a step or the join itself is possible |
| ThreadIsolation.StoppedTakesNoPosts | services/thread_isolation/src/dcamera_thread_isolation.cpp:69-83 | until another start, a stopped thread accepts only posts already past the check |
| ThreadIsolation.CounterTellsTheTruth | services/thread_isolation/src/dcamera_thread_isolation.cpp:69-140 | in every reachable state nothing is queued or held iff the counter, corrected for a post or a task in between, equals the empty functions popped |
| ThreadIsolation.FlagTellsTheTruth | services/thread_isolation/src/dcamera_thread_isolation.cpp:31-140 | in every reachable state, from before Start has cleared it on: the flag is about to be written with an empty queue iff the count before it was clean; a set flag written so means that nothing is held, and nothing queued but the task of a post that is about to clear it |
| ThreadIsolation.FlagWrittenAfterCount | services/thread_isolation/src/dcamera_thread_isolation.cpp:127-135 | from the count to the flag nothing is popped: the flag comes with an empty queue iff the queue was empty at the count and nothing is pushed in between; at the count it holds at most one task, pushed and not yet added |
| ThreadIsolation.CompletionFlagCanBeStale | services/thread_isolation/src/dcamera_thread_isolation.cpp:92-140 | stale by a post between the count and the flag |
| ThreadIsolation.StaleByLateAdd | services/thread_isolation/src/dcamera_thread_isolation.cpp:69-140 | stale by a post pushed before the count and added after it |
| ThreadIsolation.StaleBeforeReset | services/thread_isolation/src/dcamera_thread_isolation.cpp:31-45 | stale between running and the clearing in Start |
| ThreadIsolationWaiting.NoLostWakeUp | services/thread_isolation/src/dcamera_thread_isolation.cpp:92-135 | in every reachable state a waiter asleep while the flag is set is about to be notified |
| ThreadIsolationWaiting.AtRestFlagIffCounted | services/thread_isolation/src/dcamera_thread_isolation.cpp:92-140 | with the worker waiting at an empty queue and no empty function popped: the flag is set iff a task was counted off since the start, a waiter that looks returns iff so, and one asleep is so only if not |
| ThreadIsolationWaiting.WokenAfterStopIff | services/thread_isolation/src/dcamera_thread_isolation.cpp:47-98 | a waiter asleep in a stopped thread can be woken without another start iff the worker stands at its flag or has just set it |
| ThreadIsolationWaiting.LookAfterStopReturns | services/thread_isolation/src/dcamera_thread_isolation.cpp:92-98 | after a Stop of a running thread and until another start, whoever looks returns, whatever is counted or queued |
| ThreadIsolationWaiting.StoppedSleeperReachable | services/thread_isolation/src/dcamera_thread_isolation.cpp:47-98 | a run in which Stop leaves a waiter asleep |
| ThreadIsolationWaiting.EmptyFunctionForever | services/thread_isolation/src/dcamera_thread_isolation.cpp:92-135 | after an empty function was popped, with no flag on its way, the flag is never set again and a waiter asleep stays asleep, through further starts too |
| ThreadIsolation.StepKeeps | services/thread_isolation/src/dcamera_thread_isolation.cpp:31-144 | every step of posters, worker and controller keeps the order, the counter and the agreement of thread and flags |
| ThreadIsolationWorker.Isolation.ThreadMain | services/thread_isolation/src/dcamera_thread_isolation.cpp:100-144 | left alone the loop runs the whole queue in order, counts off the callable tasks and sets the flag exactly when the counter came down to zero |
| ThreadIsolationWorker.Isolation.PostTask | services/thread_isolation/src/dcamera_thread_isolation.cpp:69-83 | ignored when not running, otherwise queued last, counted, and the flag cleared |
| TcpFraming.FramesDeliver | source_module/src/socket_receiver.cpp:159-224 | whatever list of messages below 2^31 bytes is framed is delivered, message by message |
| TcpFraming.FrameBytes | sink_module/src/socket_sender.cpp:97-113 | a frame byte by byte: size, least significant byte first, then the data; from 2 GiB on, where the size reads as negative, the size alone |
| TcpFraming.LengthDecides | source_module/src/socket_receiver.cpp:186-224 | what a whole length makes of the stream, byte by byte: that many bytes, the end, or that many zeros if it reads as negative |
| TcpFraming.InStepIffLengthWhole | source_module/src/socket_receiver.cpp:186-200 | with fewer than four length bytes in the first read the receiver is out of step, with four it is in step |
| TcpFraming.CutDelivers | source_module/src/socket_receiver.cpp:159-224 | what a stream cut after any number of bytes delivers |
| TcpFraming.CutIsPrefixUnlessStray | source_module/src/socket_receiver.cpp:186-224 | a cut stream delivers a prefix of what was sent iff it is not cut in a length whose bytes so far read as zero |
| TcpFraming.Sender.SendDataInternal | sink_module/src/socket_sender.cpp:132-146 | however send splits: success puts all bytes on the wire, failure a proper prefix |
| TcpFraming.Sender.SendData | sink_module/src/socket_sender.cpp:97-113 | success puts exactly the frame on the wire, failure a proper prefix of it, nothing when not connected |
| TcpFraming.Receiver.ReceivePayload | source_module/src/socket_receiver.cpp:203-217 | however recv splits: the whole payload or the end of the stream |
| TcpFraming.Receiver.ReceiveData | source_module/src/socket_receiver.cpp:186-224 | one message, and the stream left behind it, for a first read of any size |
| TcpFraming.Receiver.ReceiveThreadProc | source_module/src/socket_receiver.cpp:159-184 | the loop delivers what the framing says for the sizes of its first reads, and the plain framing when each length is read in one go |
| TcpFraming.ArrivesIffWhole | source_module/src/socket_receiver.cpp:159-224 | for any list and any sizes of the first reads, the list is delivered iff every length is read in one go |
| TcpFraming.Transfer | source_module/src/socket_receiver.cpp:159-224 | from sender to receiver, any list and any splits: when all sends succeed the list arrives iff every length is read in one go; after a failed send, so read, what the cut stream gives |
| TcpFraming.SendAll | sink_module/src/socket_sender.cpp:97-146 | the frames one after the other, up to somewhere inside the first that fails |
| TcpFraming.SendEvery | sink_module/src/socket_sender.cpp:97-146 | sending on after failures: each send leaves its whole frame or a proper prefix, by its return code, one after the other |
| TcpFraming.NothingCutArrives | source_module/src/socket_receiver.cpp:159-224 | as long as no failed send has put a byte on the wire, exactly the messages sent successfully arrive |
| TcpFraming.WholeThenRest | source_module/src/socket_receiver.cpp:159-224 | messages sent whole arrive whatever follows them, and what follows is read by itself |
| TcpFraming.AfterFailedSend | source_module/src/socket_receiver.cpp:186-224 | what follows a send that failed: read by itself if no byte went out, otherwise its first bytes are taken for the missing payload or length |
| Nv12.PlaneAt | source_module/src/ffmpeg_decoder_wrapper.cpp:161-185 | byte j of row i of an unpacked plane is the source byte at i * stride + j |
| Nv12.TightPlane | source_module/src/ffmpeg_decoder_wrapper.cpp:161-178 | for a stride equal to the width the rows are one block: both copy paths mean the same |
| Nv12.NothingLeftOver | source_module/src/ffmpeg_decoder_wrapper.cpp:154-185 | the two planes fill the result iff the height is even or the width at most one; otherwise half a row is left |
| Nv12.RestAt | source_module/src/ffmpeg_decoder_wrapper.cpp:157-185 | for an odd height, byte by byte: the next chroma bytes from one block, what the vector held before from rows |
| Nv12.Decoder.UnpackFrame | source_module/src/ffmpeg_decoder_wrapper.cpp:152-188 | on either path of either plane the vector is the Y rows, then the UV rows, then exactly what is left over |
| Nv12.CopyRows | source_module/src/ffmpeg_decoder_wrapper.cpp:164-185 | the row loop writes the unpacked plane and not a byte outside it |
| CaptureCommand.WrittenIsReadBack | services/cameraservice/base/src/dcamera_capture_info_cmd.cpp:24-200 | reading a written command into any object restores every field up to NULs and the token id's range, appends the captures to the old ones, nested settings included; a missing capture writes and reads nothing |
| CaptureCommand.LosslessIff | services/cameraservice/base/src/dcamera_capture_info_cmd.cpp:24-127 | nothing is lost iff no string holds a NUL and the token id fits an int |
| CaptureCommand.WrittenItems | services/cameraservice/base/src/dcamera_capture_info_cmd.cpp:44-66 | which item holds which member of a capture and of its settings |
| CaptureCommand.RootItems | services/cameraservice/base/src/dcamera_capture_info_cmd.cpp:29-71 | which item holds which member of the command |
| CaptureCommand.AnyTreeRead | services/cameraservice/base/src/dcamera_capture_info_cmd.cpp:77-127 | any tree: what is replaced up to a missing required string, what the optional members become when missing (0, -1, 0, empty) and also when a capture does not read, and the code that says whether all did |
| CaptureCommand.NumberAsInt | services/cameraservice/base/src/dcamera_capture_info_cmd.cpp:77-200 | a number beyond an int reads as the end of its range |
| CaptureCommand.StopsReading | services/cameraservice/base/src/dcamera_capture_info_cmd.cpp:129-175 | the captures read are those before the first that does not |
| CaptureCommand.SettingsStop | services/cameraservice/base/src/dcamera_capture_info_cmd.cpp:177-201 | one setting that does not read fails them all |
| CaptureCommand.InfoReads | services/cameraservice/base/src/dcamera_capture_info_cmd.cpp:35-175 | one capture with its settings is read back from its tree |
| CaptureCommand.CaptureInfoCmd.Marshal | services/cameraservice/base/src/dcamera_capture_info_cmd.cpp:24-75 | the loop builds the command's tree, or fails exactly when a capture is missing |
| CaptureCommand.CaptureInfoCmd.Unmarshal | services/cameraservice/base/src/dcamera_capture_info_cmd.cpp:77-127 | every field and return code on any tree, fields before a failure already replaced |
| CaptureCommand.CaptureInfoCmd.UmarshalValue | services/cameraservice/base/src/dcamera_capture_info_cmd.cpp:129-175 | captures are appended up to the first that does not read, and the code says whether all did |
| CaptureCommand.UmarshalSettings | services/cameraservice/base/src/dcamera_capture_info_cmd.cpp:177-201 | all settings, or failure at the first that does not read |
| FaultInjection.FaultInjector.InjectFault | fault_injection/src/dcamera_fault_injection.cpp:58-105 | null iff some enabled drop has its draw below its probability; otherwise the same packet, its head inverted after an odd number of corruptions; counters grow by exactly what was applied; the original is unchanged |
| FaultInjection.FaultInjector.InjectFormatCorruption | fault_injection/src/dcamera_fault_injection.cpp:194-221 | a fresh copy with its first min(4, n) bytes inverted |
| FaultInjection.OnlyParityCounts | fault_injection/src/dcamera_fault_injection.cpp:194-221 | any number of corruptions is none or one, by parity: bytes 0 to 3 taken from 255, all others kept; a packet comes back unchanged iff it is even |
| FaultInjection.EndIsUnique | fault_injection/src/dcamera_fault_injection.cpp:72-102 | the pipeline has one end, with one drop before it if any drop fires and none otherwise |
| FaultInjection.FiresIff | fault_injection/src/dcamera_fault_injection.cpp:71-79 | what fires, and how often, by the fields of the configurations and the draws |
| FaultInjection.DisabledDoNothing | fault_injection/src/dcamera_fault_injection.cpp:71-74 | without the disabled configurations and their draws the pipeline drops, delays and corrupts exactly as often |
| FaultInjection.AppliedSnoc | fault_injection/src/dcamera_fault_injection.cpp:71-102 | one more configuration counts exactly when it fires and none before it drops |
| FaultInjection.ShouldInjectFault | fault_injection/src/dcamera_fault_injection.cpp:223-234 | for a draw in [0, 1) a fault fires iff the draw is below its probability, whatever that is |

## Left out

- VIDEO mode and SendStream: they bypass fragmentation.
- Sockets, SoftBus, FFmpeg, operating-system calls: what they answer is a parameter or any allowed value.
- JSON text: capture commands are modelled as trees; an object is what a lookup sees, the first item of each name.
- CheckOsType, all-connect, wake-up, event reports, logging: no effect on the modelled state.
- User interfaces, test tools, mocks, simulated leaks, thread blocks and exhaustion, delays in milliseconds.
- memcpy_s: securec.h is not part of this model; a refusal returns one error code and leaves the destination unspecified.
- SoftbusSessions.SoftbusSession.PackRecvData: delivered buffers are recorded by their contents at delivery; sharing of the buffer object with the listener is not modelled.
- SoftbusSessions.SoftbusSession.StartFrag: AssembleFrag is two methods here, one per branch on the flag.
- Authorization.DecidedAtMostOnce: request ids are taken to be fresh, clocks and time-outs are steps that may come at any time, and clearing the decision tables is not modelled.
- TrustArbitration.OneHolderEach: listeners are present, sockets are not bound twice, session objects are map entries, closing a session from this side is not modelled, a socket is shut down after its bind has returned, and the two unlocked reads of a check are one.
- TrustArbitration.GrantedIffCheckedFirst: names hold one of the three tags, as the session names of the repository do.
- VirtualBus.FirstInFirstOut: a run is over when a send writes past the memory, undefined behaviour from there on; the memory is below 4 GiB.
- VirtualBusMemory.Bus.SendData: the polling wait with a time limit, GetBufferUsage and set-up of the named memory and semaphores; the header's time stamp and priority are opaque bytes.
- Base64.Base64Encode: lengths below 2^31; masks and shifts are written as quotients and remainders, characters as their codes.
- ThreadIsolationWorker.Isolation.ThreadMain: the loop left alone; other threads' steps between its own are in ThreadIsolation.
- ThreadIsolationWaiting.WokenAfterStopIff: condition variables wake nobody without a notification; one waiter.
- ThreadIsolation.TasksInOrder: wake-ups of condition variables are guarded steps, the pending counter does not overflow, one thread calls Start and Stop, tasks end or throw standard exceptions.
- TcpFraming.Receiver.ReceiveData: a recv error is the end of the stream.
- TcpFraming.Sender.Send: send never returns zero.
- Nv12.Decoder.UnpackFrame: negative or too small strides, and width times height beyond an int.
- CaptureCommand.CaptureInfoCmd.Marshal: a null entry among the settings, and out-of-memory of the JSON library.
- FaultInjection.FaultInjector.InjectFault: probabilities are reals and the generator's draws are parameters; the copy of the buffer, whose copy constructor data_buffer.h deletes, copies its range and contents.
