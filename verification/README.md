# A model of the simulator's buffers and protocols

The simulator stands in for the host of a train controller. Its sockets, files and timers are thin; what has to be
right is in the small stateful parts between them. This project models those parts and proves what they promise over
all inputs, all runs and all interleavings.

| file | what it models |
|---|---|
| `Bytes.dfy`, `Wrappers.dfy` | octets, fixed-width integers, optional values |
| `MessageRing.dfy`, `PoolSpec.dfy`, `MessagePool.dfy` | the static message pool: one overwriting ring per message type, and the bounded queues they refine |
| `MaintenanceLog.dfy` | the flat buffer of variable-length maintenance records, and its drain |
| `Framing.dfy`, `SendFraming.dfy`, `FramedReceiver.dfy` | TCP framing in its three modes, both directions, and the server that drives it |
| `Safety037.dfy` | the safety-037 session: delayed success and failure, loss detection |
| `LogQueue.dfy`, `PoolShutdown.dfy` | the asynchronous logger's circular queue, locked queue and worker pool |
| `SessionCrc.dfy`, `MaintenanceSession.dfy`, `SdmuPacket.dfy` | the wire codecs |
| `StorageArea.dfy` | the delayed operations of the first storage area |
| `PayloadPublisher.dfy`, `ExternalOutput.dfy` | payloads on their way into and out of the pool |

Code that changes state is modelled by classes and methods with the same branches and cursors. Each is proved against
a specification on values (a step of a state machine or a queue), and the promises over whole runs are lemmas about
that specification. Clocks, file outcomes, socket readiness and the answers of other components are parameters.

## Where the code differs from what it is for

- DMI framing (`tcp_framing.h:47-61`): a scan that finds no magic drops the whole buffer, also a last 0x55 whose 0xAA
  is still to come. `Framing.CutIsHarmlessIff` is the exact condition.
- A write into a full ring (`Interface_Data.c:432`) keeps the end of the longer message it covers:
  `PoolSpec.WriteIsExactIff`, with the concrete case in `PoolSpec.StaleTail`.
- The maintenance scanner (`maint_session.cpp:115-117`) subtracts two from the low octet before joining the octets, and
  so rejects every frame whose length field has a low octet of 0 or 1: `MaintenanceSession.AcceptedIff`.
- A log pool whose queue has no room cannot be destroyed: `PoolShutdown.NoRoomDeadlocks`. The vendored library allows
  such a pool; the simulator never makes one (`logging/logger.cpp:138-140` and `291-293` replace sizes below one).
- The first storage area does not answer NO_AVAILABLE as its documentation promises, for three consecutive failures of
  the same operation. It counts all failures in one octet, reads and writes together, through accepted writes, and not
  those of a wrong size: `StorageArea.ThirdFailureIff`, with four runs beside it. The status call never reports a
  failure (`StatusHidesFailures`), reports each completion it finds twice (`ReportedTwice`), and a write refused because
  another operation waits is answered like one that was accepted (`PendingMeansWrittenIff`).
- A CONNECT of the safety protocol without data takes the identity of its session from what its slot held before
  (`mainsafety.cpp:260-267`): `ExternalOutput.TargetIsFixedIff` and `BareIdentity`.
- A frame too long for the caller's buffer blocks every receive with a buffer that is too small, in DMI and two-byte
  mode: `FramedReceiver.TcpServer.Receive`, `TooLongEndsIff`. Closing the server ends it, or a send that fails.
- The application's writing call accepts sizes 2501 to 2503 and then copies past the end of the application's array of
  2500 octets (`interface_p2a.c:127-133`): `ExternalOutput.StaysInBoundsIff`.
- External payloads: a published message may hold 2500 octets, the application's reading call refuses more than 2497
  (`interface_p2a.c:90-94`), so no payload of several messages is ever read whole: `PayloadPublisher.PayloadIsReadIff`.
- The log queue counts a discarded message after its critical section (`mpmc_blocking_q.h:60-64`), so its counters do not
  balance in between: `LogQueue.BlockingQueue.TryPush`.

## Model

| member | source | states |
|---|---|---|
| PoolSpec.ReadsInWriteOrder | Source/300C_SIMU/ASW_300C/Interface_Data.c:285-488 | Over any run of calls on one type, a read yields the oldest write that has neither been read nor overwritten, and no write comes out twice; a write drops one exactly when the ring is full; EMPTY is answered exactly when nothing is left; the count is what is left; a reset drops everything |
| PoolSpec.Fifo | Source/300C_SIMU/ASW_300C/Interface_Data.c:285-488 | In every run the queue is the tail of the writes accepted since the last reset, in order, each entry beginning with the octets written |
| PoolSpec.ExactWhereRoom | Source/300C_SIMU/ASW_300C/Interface_Data.c:391-455 | In every run a message whose own write found room reads back as exactly the octets written followed by zeros, whatever overflowed before or after it |
| PoolSpec.ExactWithoutOverflow | Source/300C_SIMU/ASW_300C/Interface_Data.c:391-455 | So in a run without any overflow every message reads back exactly |
| PoolSpec.WriteIsExactIff | Source/300C_SIMU/ASW_300C/Interface_Data.c:426-449 | A write shows its octets and zeros if and only if there was room or the message it covers was zero beyond them |
| PoolSpec.StaleTail | Source/300C_SIMU/ASW_300C/Interface_Data.c:432-449 | The run that shows the other case: in the VtsTx ring of 32 slots of 17 octets, after 32 full messages a message of one octet reads back with the end of the oldest of them |
| PoolSpec.RunIsLocal | Source/300C_SIMU/ASW_300C/Interface_Data.c:285-488 | In any run over all types, each ring goes through exactly what its own calls do to it |
| PoolSpec.ApplyIsLocal | Source/300C_SIMU/ASW_300C/Interface_Data.c:285-488 | One call changes the ring of its own type and no other |
| PoolSpec.EnqueueAllKeepsLast | Source/300C_SIMU/ASW_300C/Interface_Data.c:391-455 | Any number of writes leave the last entries of what was queued followed by what was written, as many as fit |
| MessageRing.RingPush | Source/300C_SIMU/ASW_300C/Interface_Data.c:426-449 | Copying into the slot at the write cursor and moving the cursors, with or without overflow, is one enqueue on the bounded queue and keeps the flags true exactly on the live window |
| MessageRing.RingPop | Source/300C_SIMU/ASW_300C/Interface_Data.c:308-337 | Clearing the slot at the read cursor and moving it is one dequeue of the oldest message and keeps the live window |
| MessageRing.FlagMeansNotEmpty | Source/300C_SIMU/ASW_300C/Interface_Data.c:308-337 | The received flag at the read cursor is set if and only if the ring holds a message |
| MessagePool.SlicesDisjoint | Source/300C_SIMU/ASW_300C/Interface_Data.c:171-211 | Registered slices lie one behind the other, so they are disjoint |
| MessagePool.SlicesCover | Source/300C_SIMU/ASW_300C/Interface_Data.c:171-211 | Every slot below the current position belongs to a slice |
| MessagePool.DistinctTypesAreFew | Source/300C_SIMU/ASW_300C/Interface_Data.c:171-211 | The index manager cannot overflow: no type is registered twice, so there are at most sixteen entries for its fifty places |
| MessagePool.PoolUpdate | Source/300C_SIMU/ASW_300C/Interface_Data.c:285-488 | Changing one slice and its entry keeps the pool's invariant and leaves the queue of every other type as it was |
| MessagePool.SlotsForAll | Source/300C_SIMU/ASW_300C/Interface_Data.c:35-169 | The twelve types need 644 of the 2000 slots |
| MessagePool.RegisteredRings | Source/300C_SIMU/ASW_300C/Interface_Data.c:35-169 | The twelve rings and their capacities, one by one |
| PoolSpec.StructureSizes | Source/300C_SIMU/ASW_300C/Interface_Data.c:240-283 | The size of each type's messages, as the sum of the fields of its packed structure |
| MessagePool.Pool.Init | Source/300C_SIMU/ASW_300C/Interface_Data.c:35-169 | Initialisation always succeeds, with twelve empty rings of the stated capacities |
| MessagePool.Pool.AddMsgType | Source/300C_SIMU/ASW_300C/Interface_Data.c:171-211 | Registering a new type appends an empty ring if it fits, fails without a change if not, and changes nothing for a type already there |
| MessagePool.Pool.FindEntry | Source/300C_SIMU/ASW_300C/Interface_Data.c:213-238 | The first entry of a type, or none |
| MessagePool.Pool.Write | Source/300C_SIMU/ASW_300C/Interface_Data.c:391-455 | Implements a write on the queue model; no cursor, flag or octet of another type changes |
| MessagePool.Pool.Read | Source/300C_SIMU/ASW_300C/Interface_Data.c:285-389 | Implements a read on the queue model, including EMPTY and failure; nothing of another type changes |
| MessagePool.Pool.Reset | Source/300C_SIMU/ASW_300C/Interface_Data.c:457-488 | Implements a reset on the queue model; nothing of another type changes |
| MessagePool.Pool.GetMsgNum | Source/300C_SIMU/ASW_300C/Interface_Data.c:339-368 | The count is the length of the type's queue and asking changes nothing |
| MaintenanceLog.NothingLost | Source/300C_SIMU/ASW_300C/Interface_Data.c:490-584 | In every run the log delivers what it accepted, in order and each record once; at most five wait; the buffer is rewound when none does |
| MaintenanceLog.FiveAlwaysFit | Source/300C_SIMU/ASW_300C/Interface_Data.c:525-584 | From an empty log any five records of at most 1200 octets are accepted |
| MaintenanceLog.DrainEmpties | Source/300C_SIMU/BSW_CODE/mainsafety.cpp:285-319 | After any run, reading as many records as wait leaves the log empty and everything ever accepted delivered |
| MaintenanceLog.CyclesAreLossless | Source/300C_SIMU/BSW_CODE/mainsafety.cpp:285-319 | With at most five such records a cycle, each cycle a batch of writes and then as many reads as records wait, everything written over any number of cycles has been delivered, in order, and the log is empty |
| MaintenanceLog.ReadingOneMakesNoRoom | Source/300C_SIMU/ASW_300C/Interface_Data.c:490-584 | Space comes back only when the log is empty: five full records, one read, and a sixth is refused though four wait |
| MaintenanceLog.Limits | Source/300C_SIMU/ASW_300C/Interface_Data.c:525-560 | 1200 octets a record, 7000 with headers since the log was last empty, five records: the cases on either side |
| MaintenanceLog.HeaderReadsBack | Source/300C_SIMU/ASW_300C/Interface_Data.c:525-584 | The header written before a payload gives its peripheral number and size back |
| MaintenanceLog.Log.Write | Source/300C_SIMU/ASW_300C/Interface_Data.c:525-584 | Accepts a record exactly if it is small enough, fewer than five wait and there is room behind the last; the octets between the cursors stay the encodings of the waiting records |
| MaintenanceLog.Log.Read | Source/300C_SIMU/ASW_300C/Interface_Data.c:490-523 | Copies out the whole oldest record and leaves the read cursor on a record boundary; rewinds both cursors after the last |
| MaintenanceLog.Log.Drain | Source/300C_SIMU/BSW_CODE/mainsafety.cpp:285-319 | The drain loop hands over every waiting record, in order, with the peripheral number and payload it was written with, and leaves the log empty |
| Framing.ChunkIndependence | Source/300C_SIMU/BSW_CODE/Pub_Comm/tcp_framing.h:37-184 | Any stream cut into any chunks gives the frames and leftover of the whole stream; for DMI if no cut splits the magic |
| Framing.CutIsHarmlessIff | Source/300C_SIMU/BSW_CODE/Pub_Comm/tcp_framing.h:37-93 | A cut after some octets makes no difference to any continuation if and only if parsing them did not end by throwing away half a magic |
| Framing.LostMagic | Source/300C_SIMU/BSW_CODE/Pub_Comm/tcp_framing.h:47-61 | What a harmful cut costs: uncut, the whole magic would have stayed in the buffer |
| Framing.CutLosesFrame | Source/300C_SIMU/BSW_CODE/Pub_Comm/tcp_framing.h:47-61 | The input that shows it: the smallest frame, cut after its first octet, is lost; whole it is delivered |
| Framing.LossEndsInMagic | Source/300C_SIMU/BSW_CODE/Pub_Comm/tcp_framing.h:47-61 | Only in DMI mode, and only a stream that ends in 0x55, can lose by being cut there |
| Framing.ParseAppend | Source/300C_SIMU/BSW_CODE/Pub_Comm/tcp_framing.h:37-184 | Parsing a stream in two parts equals parsing it whole |
| Framing.TooLongStays | Source/300C_SIMU/BSW_CODE/Pub_Comm/tcp_framing.h:80-84 | A complete frame longer than the caller's buffer is found again by every further extraction; it never happens in NDJSON mode |
| Framing.PassedOver | Source/300C_SIMU/BSW_CODE/Pub_Comm/tcp_framing.h:37-184 | Zero lengths, empty lines, lines too long and a magic with a length below six make no difference to what is extracted behind them |
| SendFraming.RoundTrip | Source/300C_SIMU/BSW_CODE/Pub_Comm/tcp_framing.h:188-275 | The frames of any payloads within the limits, concatenated, are extracted as those payloads in order (DMI: as whole frames), nothing left over |
| SendFraming.DmiCarriesPayloads | Source/300C_SIMU/BSW_CODE/Pub_Comm/tcp_framing.h:37-218 | In DMI mode each frame that arrives has its payload from offset six on, behind 55 AA, zero, its own length and two zeros |
| SendFraming.DmiWireLayout | Source/300C_SIMU/BSW_CODE/Pub_Comm/tcp_framing.h:192-218 | A DMI frame octet by octet |
| SendFraming.WireLayout | Source/300C_SIMU/BSW_CODE/Pub_Comm/tcp_framing.h:220-275 | The other frames: the size in two octets, in either order, before the payload, or one line feed behind it |
| SendFraming.RoundTripBefore | Source/300C_SIMU/BSW_CODE/Pub_Comm/tcp_framing.h:37-275 | The same in front of any further octets, also where NDJSON drops empty or oversize lines: one frame never affects what follows |
| SendFraming.RoundTripsIff | Source/300C_SIMU/BSW_CODE/Pub_Comm/tcp_framing.h:188-275 | A payload comes back if and only if it is within the mode's limits: at most the buffer's capacity, sizes 1 to 65535 in two-byte mode, no inner line feed or trailing carriage return in NDJSON |
| SendFraming.SentComesBackIff | Source/300C_SIMU/BSW_CODE/Pub_Comm/tcp_framing.h:188-275 | The 65536-octet send buffer stops payloads before the length field is cut off (65534 in two-byte mode): whatever a send accepts comes back, if and only if, in NDJSON, it has no inner line feed and no trailing carriage return |
| SendFraming.CarriageReturnIsLost | Source/300C_SIMU/BSW_CODE/Pub_Comm/tcp_framing.h:140-275 | A line that is sent and does not come back: its trailing carriage return is dropped |
| SendFraming.AllSentComesBack | Source/300C_SIMU/BSW_CODE/Pub_Comm/tcp_framing.h:37-275 | So does any sequence of accepted sends, in order, with nothing left over |
| FramedReceiver.FrameToSend | Source/300C_SIMU/BSW_CODE/Pub_Comm/tcp_connection_server.cpp:746-794 | A send goes ahead exactly for a payload that is not empty and whose frame fits the send buffer, with that frame |
| SendFraming.DmiPartition | Source/300C_SIMU/BSW_CODE/Pub_Comm/tcp_framing.h:37-93 | Delivered, discarded and kept octets partition the input in order; every delivered frame starts 55 AA and has its own length, at least six, as its fourth octet; no octet that begins a magic in the input is discarded, except a magic whose length octet there is below six |
| SendFraming.GarbagePrefix | Source/300C_SIMU/BSW_CODE/Pub_Comm/tcp_framing.h:37-93 | A valid frame behind garbage without a magic is always delivered |
| FramedReceiver.ReceiveBuffer.TryExtractDmi | Source/300C_SIMU/BSW_CODE/Pub_Comm/tcp_framing.h:37-93 | The in-place scan leaves in the receive buffer, the caller's buffer and the size exactly what the specification of one extraction says |
| FramedReceiver.ReceiveBuffer.TryExtractTwoByte | Source/300C_SIMU/BSW_CODE/Pub_Comm/tcp_framing.h:95-138 | The same for the two-byte length prefix, zero lengths skipped |
| FramedReceiver.ReceiveBuffer.TryExtractNdjson | Source/300C_SIMU/BSW_CODE/Pub_Comm/tcp_framing.h:140-184 | The same for lines, empty and oversize lines dropped |
| FramedReceiver.BuildDmi | Source/300C_SIMU/BSW_CODE/Pub_Comm/tcp_framing.h:192-218 | Writes the frame in front of the output buffer, the payload from offset six on, or nothing if payload or buffer do not allow it |
| FramedReceiver.BuildTwoByte | Source/300C_SIMU/BSW_CODE/Pub_Comm/tcp_framing.h:220-246 | Writes the size in the order asked for and the payload, or nothing if the buffer is too small |
| FramedReceiver.BuildNdjson | Source/300C_SIMU/BSW_CODE/Pub_Comm/tcp_framing.h:248-275 | Writes the line with one line feed, or nothing for an empty payload or a buffer too small |
| FramedReceiver.WaitingIsFinal | Source/300C_SIMU/BSW_CODE/Pub_Comm/tcp_framing.h:37-184 | After an extraction that found nothing, extracting again finds nothing and changes nothing |
| FramedReceiver.ExtractTakesParts | Source/300C_SIMU/BSW_CODE/Pub_Comm/tcp_framing.h:37-184 | A delivered frame is a run of consecutive octets of the buffer, and what is kept is its end |
| FramedReceiver.TooLongEndsIff | Source/300C_SIMU/BSW_CODE/Pub_Comm/tcp_framing.h:80-84 | A frame too long for one buffer is delivered into another if and only if that one is as long as the frame |
| FramedReceiver.ArriveKeepsConsistent | Source/300C_SIMU/BSW_CODE/Pub_Comm/tcp_connection_server.cpp:399-475 | Received octets keep the invariant: frames delivered to a client's visit and its leftover are the parse of that client's own octets |
| FramedReceiver.ExtractKeepsConsistent | Source/300C_SIMU/BSW_CODE/Pub_Comm/tcp_connection_server.cpp:399-475 | So does taking out a frame |
| FramedReceiver.TcpServer.CloseClient | Source/300C_SIMU/BSW_CODE/Pub_Comm/tcp_connection_server.cpp:636-644 | The octets a client leaves behind go with it, so no later frame can contain them |
| FramedReceiver.TcpServer.EnsureClientConnected | Source/300C_SIMU/BSW_CODE/Pub_Comm/tcp_connection_server.cpp:662-744 | A client is accepted only into an empty buffer; the result says why there is none |
| FramedReceiver.TcpServer.Open | Source/300C_SIMU/BSW_CODE/Pub_Comm/tcp_connection_server.cpp:580-634 | Opening an open server, or one that cannot be configured, bound or made to listen, changes nothing and says why; opening a closed one starts with an empty buffer |
| FramedReceiver.TcpServer.Close | Source/300C_SIMU/BSW_CODE/Pub_Comm/tcp_connection_server.cpp:646-660 | Closing drops the client and its octets, delivers nothing and leaves the server closed also when the socket reports an error |
| FramedReceiver.TcpServer.Receive | Source/300C_SIMU/BSW_CODE/Pub_Comm/tcp_connection_server.cpp:399-475 | With buffers of any size: the octets of the chunks that arrived, and no others, are added to the visit of the client they came from, and the frame delivered is the first found in them behind what was waiting; every frame delivered to a visit is made of that visit's octets only; a client leaves exactly when its socket says so, and had then been given every complete frame of its stream, if all its buffers were of one size and, in DMI mode, no chunk boundary split 55 from AA; a call reads until a frame is complete, the socket has nothing more or fails; and once a frame too long for the buffer is at the head, every call with such a buffer is refused, reads nothing and never lets the client leave |
| Safety037.OneMode | Source/300C_SIMU/BSW_CODE/session/safety037_session.cpp:243-431 | In every run at most one of connected, connecting and disconnecting holds, and loss detection is armed exactly while connected with a positive timeout |
| Safety037.SuccessIff | Source/300C_SIMU/BSW_CODE/session/safety037_session.cpp:292-335 | SUCCESS is emitted exactly at a tick not earlier than the delay after a CONNECT with no request or status since |
| Safety037.FailureIff | Source/300C_SIMU/BSW_CODE/session/safety037_session.cpp:292-335 | FAILURE is emitted exactly at a tick not earlier than the delay after a DISCONNECT with no request or status since |
| Safety037.LostIff | Source/300C_SIMU/BSW_CODE/session/safety037_session.cpp:292-335 | LOST is emitted exactly at a tick when the timeout has passed since the connection's SUCCESS or last data, whichever is later |
| Safety037.LostIsOverdue | Source/300C_SIMU/BSW_CODE/session/safety037_session.cpp:292-335 | Under a monotone clock the timeout has then passed since the SUCCESS and since everything received in that connection |
| Safety037.EveryStatusAnswers | Source/300C_SIMU/BSW_CODE/session/safety037_session.cpp:292-335 | Every SUCCESS or FAILURE answers a request, every LOST a SUCCESS |
| Safety037.AnswersAreDistinct | Source/300C_SIMU/BSW_CODE/session/safety037_session.cpp:292-431 | A request has at most one SUCCESS or FAILURE and none once superseded; between two LOST there is a SUCCESS |
| Safety037.ARunInSeconds | Source/300C_SIMU/BSW_CODE/session/safety037_session.cpp:292-431 | A run with literal times: no status one nanosecond before each delay, and SUCCESS, LOST and FAILURE at it |
| Safety037.Session.ScheduleConnectSuccess | Source/300C_SIMU/BSW_CODE/session/safety037_session.cpp:399-407 | The state after a CONNECT, as the run model has it |
| Safety037.Session.ScheduleDisconnectFailure | Source/300C_SIMU/BSW_CODE/session/safety037_session.cpp:409-417 | The state after a DISCONNECT, as the run model has it |
| Safety037.Session.HandleReceiveActivity | Source/300C_SIMU/BSW_CODE/session/safety037_session.cpp:419-431 | Data counts only while connected and with loss detection on |
| Safety037.Session.DoInput | Source/300C_SIMU/BSW_CODE/session/safety037_session.cpp:243-290 | Only packets that were forwarded count as received data; the result is that of the first packet not forwarded or of the connection |
| Safety037.ReadAllIs | Source/300C_SIMU/BSW_CODE/session/safety037_session.cpp:254-289 | The result is that of the first packet that could not be forwarded or of the fault that ends the reading; without either, whether there was any packet |
| Safety037.Session.DoOutput | Source/300C_SIMU/BSW_CODE/session/safety037_session.cpp:292-335 | The periodic step emits at most one status, as the run model says, and reports when it could not be forwarded |
| Safety037.Session.Output | Source/300C_SIMU/BSW_CODE/session/safety037_session.cpp:337-392 | Requests change the state as the run model says; a CONNECT whose peer cannot be applied, data and anything else leave it alone |
| LogQueue.ViewPush | Source/300C_SIMU/EXTERNAL/spdlog/details/circular_q.h:46-56 | Storing at the tail with one spare place is a push on a queue of bounded capacity that loses its oldest item if full, and the cursors meet exactly then |
| LogQueue.ViewPop | Source/300C_SIMU/EXTERNAL/spdlog/details/circular_q.h:83-83 | Moving the head is taking out the oldest item |
| LogQueue.CircularQueue.PushBack | Source/300C_SIMU/EXTERNAL/spdlog/details/circular_q.h:46-56 | Push on the bounded queue; the overrun count goes up exactly when it was full; a disabled queue ignores it |
| LogQueue.CircularQueue.PopFront | Source/300C_SIMU/EXTERNAL/spdlog/details/circular_q.h:83-83 | Takes the oldest item and nothing else |
| LogQueue.CircularQueue.Size | Source/300C_SIMU/EXTERNAL/spdlog/details/circular_q.h:66-72 | The number of items between the cursors, also when they have wrapped |
| LogQueue.CircularQueue.Item | Source/300C_SIMU/EXTERNAL/spdlog/details/circular_q.h:76-79 | Item i in queue order |
| LogQueue.CircularQueue.Full | Source/300C_SIMU/EXTERNAL/spdlog/details/circular_q.h:87-93 | True exactly at capacity, never for a disabled queue |
| LogQueue.CircularQueue.Empty | Source/300C_SIMU/EXTERNAL/spdlog/details/circular_q.h:85-85 | True exactly when there is no item |
| LogQueue.CircularQueue.MoveFrom | Source/300C_SIMU/EXTERNAL/spdlog/details/circular_q.h:101-113 | The items move with the counters and the other queue is left disabled and empty |
| LogQueue.BlockingQueue.Enqueue | Source/300C_SIMU/EXTERNAL/spdlog/details/mpmc_blocking_q.h:31-38 | Blocking enqueue: keeps order and capacity and the balance offered = dequeued + queued + overrun + discarded; waits exactly while full |
| LogQueue.BlockingQueue.EnqueueNowait | Source/300C_SIMU/EXTERNAL/spdlog/details/mpmc_blocking_q.h:41-47 | Enqueue that overruns the oldest item exactly when full, with the balance kept |
| LogQueue.BlockingQueue.EnqueueIfHaveRoom | Source/300C_SIMU/EXTERNAL/spdlog/details/mpmc_blocking_q.h:49-65 | Enqueue that counts a discard exactly when full; the balance holds when no other thread comes between its critical section and the count behind it |
| LogQueue.BlockingQueue.TryPush | Source/300C_SIMU/EXTERNAL/spdlog/details/mpmc_blocking_q.h:49-58 | Its critical section: a refused item is missing from the balance until it is counted, and only that |
| LogQueue.BlockingQueue.CountDiscard | Source/300C_SIMU/EXTERNAL/spdlog/details/mpmc_blocking_q.h:60-64 | The count outside of the lock restores the balance by one, whatever the queue holds by then |
| LogQueue.BlockingQueue.Dequeue | Source/300C_SIMU/EXTERNAL/spdlog/details/mpmc_blocking_q.h:68-90 | Takes the oldest item exactly if there is one, with the balance kept |
| PoolShutdown.StepKeepsInv | Source/300C_SIMU/EXTERNAL/spdlog/details/thread_pool-inl.h:44-122 | Every step of every worker, producer and the destructor keeps: each message in one place, queue and dequeued in offer order, what was overrun older than what waits, the last offers waiting while nothing was refused, terminates behind all else, one terminate for every worker without one, no lost wakeup |
| PoolShutdown.RunKeepsInv | Source/300C_SIMU/EXTERNAL/spdlog/details/thread_pool-inl.h:44-122 | So does every run, in all interleavings and with spurious wakeups |
| PoolShutdown.OfferEffect | Source/300C_SIMU/EXTERNAL/spdlog/details/thread_pool-inl.h:79-89 | An offer with room loses nothing; without room overrun_oldest loses the oldest message and queues the new one, discard_new refuses the new one and leaves the queue |
| PoolShutdown.OfferIsEnqueueNowait | Source/300C_SIMU/EXTERNAL/spdlog/details/thread_pool-inl.h:83-84 | The step of an overrun_oldest offer is what the queue's own method promises, the overrun count included |
| PoolShutdown.OfferedIsLast | Source/300C_SIMU/EXTERNAL/spdlog/details/thread_pool-inl.h:79-89 | After any run of a pool with room, a message offered with overrun_oldest is the last in the queue |
| PoolShutdown.ShutdownIsComplete | Source/300C_SIMU/EXTERNAL/spdlog/details/thread_pool-inl.h:44-55 | At the join the queue is empty, each worker has taken exactly one terminate and nothing after it, and every message offered was taken out by one worker, overrun or discarded exactly once, those taken out in order |
| PoolShutdown.NoDeadlock | Source/300C_SIMU/EXTERNAL/spdlog/details/thread_pool-inl.h:44-122 | No run of a pool with room gets stuck, open or closing: while there is a message, a producer waiting for room, a notification due or a join outstanding, some thread can go on without a spurious wakeup or a new message |
| PoolShutdown.SomeoneCanGoOn | Source/300C_SIMU/EXTERNAL/spdlog/details/thread_pool-inl.h:44-122 | Which thread that is, from any state that satisfies the invariant |
| PoolShutdown.RunsAreBounded | Source/300C_SIMU/EXTERNAL/spdlog/details/thread_pool-inl.h:44-122 | Every run is bounded by a measure of its start, its spurious wakeups and the messages offered: no request, also no blocking one, costs more than a fixed number of steps |
| PoolShutdown.WorkCompletes | Source/300C_SIMU/EXTERNAL/spdlog/details/thread_pool-inl.h:44-122 | From any state the pool can be brought to rest, with every waiting producer through and the queue empty, or if it is closing to the join |
| PoolShutdown.ShutdownTerminates | Source/300C_SIMU/EXTERNAL/spdlog/details/thread_pool-inl.h:44-122 | A closing pool takes no more steps than a measure of its state and its spurious wakeups allow |
| PoolShutdown.ShutdownCompletes | Source/300C_SIMU/EXTERNAL/spdlog/details/thread_pool-inl.h:44-122 | From any state of a closing pool with room the join can be reached |
| PoolShutdown.NoRoomDeadlocks | Source/300C_SIMU/EXTERNAL/spdlog/details/mpmc_blocking_q.h:31-38 | A pool whose queue has capacity zero deadlocks when destroyed: a run into a stuck state, for every number of workers |
| PoolShutdown.NoRoomNeverJoins | Source/300C_SIMU/EXTERNAL/spdlog/details/mpmc_blocking_q.h:31-38 | No run of such a pool reaches the join |
| SessionCrc.TableIsDivision | Source/300C_SIMU/BSW_CODE/session/session_crc.cpp:5-40 | Each of the 256 table entries is the eight-step reflected division of its index by 0xEDB88320 (the polynomial of section 3.2.9 of IEEE 802.3-2018) |
| SessionCrc.TableStepIsDivision | Source/300C_SIMU/BSW_CODE/session/session_crc.cpp:42-62 | The loop body with table and shift equals eight steps of the division for every state and octet |
| SessionCrc.DivideOctetLinear | Source/300C_SIMU/BSW_CODE/session/session_crc.cpp:42-62 | The division is linear over exclusive or |
| SessionCrc.Crc32 | Source/300C_SIMU/BSW_CODE/session/session_crc.cpp:42-62 | The loop computes the bit-by-bit division of the whole message, from zero and without a final complement |
| SessionCrc.BitsAreTheNumber | Source/300C_SIMU/BSW_CODE/session/session_crc.cpp:42-62 | The bits an octet is divided as are the number it is: the sum of the powers of two set is the octet |
| SessionCrc.ChecksumOfOneOctet | Source/300C_SIMU/BSW_CODE/session/session_crc.cpp:5-62 | The checksums of the octets 1 and 128 are 0x77073096 and 0xEDB88320 |
| SessionCrc.ChecksumOfDigits | Source/300C_SIMU/BSW_CODE/session/session_crc.cpp:5-62 | The checksum of the ASCII digits one to nine is 0x2DFD2D88 |
| SessionCrc.AbsorbInjectiveInState | Source/300C_SIMU/BSW_CODE/session/session_crc.cpp:42-62 | For a fixed octet different states stay different |
| SessionCrc.AbsorbInjectiveInOctet | Source/300C_SIMU/BSW_CODE/session/session_crc.cpp:42-62 | For a fixed state different octets give different states |
| SessionCrc.OneOctetIsDetected | Source/300C_SIMU/BSW_CODE/session/session_crc.cpp:42-62 | Two messages of equal length that differ in exactly one octet have different checksums |
| SessionCrc.BurstIsDetected | Source/300C_SIMU/BSW_CODE/session/session_crc.cpp:42-62 | Any change confined to four consecutive octets changes the checksum |
| SessionCrc.FewOctetsAreDetermined | Source/300C_SIMU/BSW_CODE/session/session_crc.cpp:42-62 | Up to four octets that lead from a state to the same remainder are the same; from different states, the states differ at most in as many low octets |
| SessionCrc.DivideAppend | Source/300C_SIMU/BSW_CODE/session/session_crc.cpp:42-62 | The checksum of a concatenation continues from that of the first part |
| MaintenanceSession.StuffRoundTrip | Source/300C_SIMU/BSW_CODE/session/maint_session.cpp:23-55 | Unstuffing the stuffed form of any octet string returns it (the escapes of section 4.2 of RFC 1662 for 0x7E and 0x7D) |
| MaintenanceSession.StuffedBody | Source/300C_SIMU/BSW_CODE/session/maint_session.cpp:23-55 | A stuffed body holds no delimiter and is at most twice its data, so it fits the fixed buffer |
| MaintenanceSession.OctetsOnTheLine | Source/300C_SIMU/BSW_CODE/session/maint_session.cpp:30-54 | 7E goes out as 7D 5E, 7D as 7D 5D, everything else as itself, between two 7E |
| MaintenanceSession.FrameLayout | Source/300C_SIMU/BSW_CODE/session/maint_session.cpp:113-129 | A frame on the way in, octet by octet, from 7E to 7F |
| MaintenanceSession.FramePacket | Source/300C_SIMU/BSW_CODE/session/maint_session.cpp:23-55 | The in-place framing loop, within its fixed array, sends the delimited stuffed data |
| MaintenanceSession.LineRoundTrip | Source/300C_SIMU/BSW_CODE/session/maint_session.cpp:23-55 | Any packets sent one after the other are read as the data fields they were made from |
| MaintenanceSession.ScanInverts | Source/300C_SIMU/BSW_CODE/session/maint_session.cpp:82-148 | For any message of gaps and frames the scan finds exactly the non-empty data fields, in order, up to the first frame whose length field has a low octet below two |
| MaintenanceSession.AcceptedIff | Source/300C_SIMU/BSW_CODE/session/maint_session.cpp:113-124 | The scanner accepts a message of gaps and frames if and only if the low octet of every length field is at least two, and then finds every non-empty data field |
| MaintenanceSession.AcceptsExactly | Source/300C_SIMU/BSW_CODE/session/maint_session.cpp:82-148 | Any octets at all are accepted if and only if they are made of gaps without a start octet and frames whose length field, at least two in its low octet, is the size of their data and two; what is found are then the non-empty data fields, in order |
| MaintenanceSession.TruncatedIsRefused | Source/300C_SIMU/BSW_CODE/session/maint_session.cpp:106-111 | A message that ends in a start octet with fewer than six behind it is never answered with success |
| MaintenanceSession.SendingSucceedsIff | Source/300C_SIMU/BSW_CODE/session/maint_session.cpp:82-148 | So the session's result for a message of gaps and frames is success, with a connection that takes everything, exactly if it has between one and 1200 octets and every length field has a low octet of at least two |
| MaintenanceSession.FrameRefused | Source/300C_SIMU/BSW_CODE/session/maint_session.cpp:113-124 | A well-formed frame that is refused: 254 octets of data, length field 256 |
| MaintenanceSession.ScanAndSend | Source/300C_SIMU/BSW_CODE/session/maint_session.cpp:104-148 | The loop, with its index and the connection's answers, is the scan and stops at the first packet not taken; all reads are in bounds and the index advances |
| MaintenanceSession.DeliveredUpTo | Source/300C_SIMU/BSW_CODE/session/maint_session.cpp:131-138 | Packets go out in order up to the first the connection does not take, whose answer is the result |
| MaintenanceSession.Output | Source/300C_SIMU/BSW_CODE/session/maint_session.cpp:82-148 | The guards before the loop, and the loop's result |
| MaintenanceSession.Guards | Source/300C_SIMU/BSW_CODE/session/maint_session.cpp:82-102 | A skipped session answers success; others refuse a message that is empty, longer than 1200 octets or has no connection |
| MaintenanceSession.SentIsReadBack | Source/300C_SIMU/BSW_CODE/session/maint_session.cpp:23-148 | End to end: what the session puts on the line for such a message is read back as exactly its data fields |
| SdmuPacket.SecureRoundTrip | Source/300C_SIMU/BSW_CODE/session/sdmu_packet.cpp:90-133 | Decoding the assembled secure packet of any sample, by widths given as numbers, gives head, type and length, every field, the velocity clamped at zero, the acceleration if and only if it fits sixteen bits, and bounds 1000 and 100 around an estimate above that and equal to it otherwise; the packet is accepted |
| SdmuPacket.AccurateRoundTrip | Source/300C_SIMU/BSW_CODE/session/sdmu_packet.cpp:135-189 | The same for the accurate packet with its wheels: time, diameter 1050, 200 teeth, count, and a state that is one if and only if this wheel or one before it has a zero pulse state |
| SdmuPacket.SecureFieldsFit | Source/300C_SIMU/BSW_CODE/session/sdmu_packet.cpp:90-118 | No field is cut off and no bound wraps, for any sample |
| SdmuPacket.AccurateFieldsFit | Source/300C_SIMU/BSW_CODE/session/sdmu_packet.cpp:135-174 | No field is cut off, for any sample |
| SdmuPacket.SignedRoundTripIff | Source/300C_SIMU/BSW_CODE/session/sdmu_packet.cpp:38-65 | A value comes back from its two's complement field if and only if it fits the field's signed range |
| SdmuPacket.TwosComplement | Source/300C_SIMU/BSW_CODE/session/sdmu_packet.cpp:38-65 | A field holds a non-negative value itself and a negative one plus the next power of 256 |
| SdmuPacket.FieldsRoundTrip | Source/300C_SIMU/BSW_CODE/session/sdmu_packet.cpp:27-65 | Reading a sequence of big-endian fields returns every value that fits its width |
| SdmuPacket.PacketIsAccepted | Source/300C_SIMU/BSW_CODE/session/sdmu_packet.cpp:120-133 | A packet closed with its own length and checksum has the head, tail and length a receiver expects, and the four octets before the tail are, most significant first, the number of the checksum of all before them |
| SdmuPacket.CrcOctetsAreTheNumber | Source/300C_SIMU/BSW_CODE/session/sdmu_packet.cpp:73-79 | The octets a checksum is stored as, read most significant first, are the sum of the powers of two set in it |
| SdmuPacket.AnySingleOctetErrorIsRejected | Source/300C_SIMU/BSW_CODE/session/sdmu_packet.cpp:120-133 | An accepted packet with any one octet changed, wherever it is, is not accepted |
| SdmuPacket.BurstIsRejected | Source/300C_SIMU/BSW_CODE/session/sdmu_packet.cpp:120-133 | An accepted packet with any change of up to four consecutive covered octets is not accepted |
| SdmuPacket.AssembleSecure | Source/300C_SIMU/BSW_CODE/session/sdmu_packet.cpp:90-133 | The cursor, the patched length and the checksum produce exactly the specified packet |
| SdmuPacket.AssembleAccurate | Source/300C_SIMU/BSW_CODE/session/sdmu_packet.cpp:135-189 | The same, with the loop over three wheels and its cumulative state |
| SdmuPacket.Seal | Source/300C_SIMU/BSW_CODE/session/sdmu_packet.cpp:120-133 | Tail, length and checksum patched in afterwards give the packet of the fields with the right length |
| StorageArea.ReportedWhenDue | Source/300C_SIMU/ASW_300C/interface_p2a.c:50-60 | Asked about a waiting operation, the area says SUCCEED exactly from its start plus its configured delay on, and PENDING before |
| StorageArea.NeverReportedEarly | Source/300C_SIMU/ASW_300C/interface_p2a.c:607-771 | Nothing else reports SUCCEED while it waits before that time, except a read that delivers data and supersedes it |
| StorageArea.StatusIff | Source/300C_SIMU/ASW_300C/interface_p2a.c:751-771 | What a status call answers in every run: SUCCEED if and only if a waiting operation is due or a completion has not been asked about, PENDING if and only if one waits and is not due, otherwise NO_OPERATION |
| StorageArea.PendingIff | Source/300C_SIMU/ASW_300C/interface_p2a.c:607-771 | The area is pending if and only if a performed operation has neither been reported nor superseded |
| StorageArea.SucceedIff | Source/300C_SIMU/ASW_300C/interface_p2a.c:607-771 | The area remembers a success if and only if a completion has not been asked about |
| StorageArea.ArmedIffPending | Source/300C_SIMU/ASW_300C/interface_p2a.c:607-771 | An operation is armed if and only if the area is pending, and the area's state is never a failure |
| StorageArea.StatusHidesFailures | Source/300C_SIMU/ASW_300C/interface_p2a.c:751-771 | So the status call never answers FAILED or NO_AVAILABLE, in no run, though `ASW_300C/README.md:107-112` lists both as answers |
| StorageArea.StatusAfterFailures | Source/300C_SIMU/ASW_300C/interface_p2a.c:751-771 | A run that shows it: after three failing reads, the last answered NO_AVAILABLE, the status is NO_OPERATION |
| StorageArea.ReportedTwice | Source/300C_SIMU/ASW_300C/interface_p2a.c:751-771 | A completion reported by a status call is reported once more by the next, and then not again |
| StorageArea.WriteWhilePending | Source/300C_SIMU/ASW_300C/interface_p2a.c:712-716 | A valid write while an operation waits changes neither file nor record |
| StorageArea.PendingMeansWrittenIff | Source/300C_SIMU/ASW_300C/interface_p2a.c:696-749 | A write answered PENDING has reached the file if and only if no operation was waiting, or the file held that already |
| StorageArea.SecondWriteIsLost | Source/300C_SIMU/ASW_300C/interface_p2a.c:712-716 | A run that shows the other case: two writes at once, both answered PENDING, the first one stored |
| StorageArea.ReadsWhatWasWritten | Source/300C_SIMU/ASW_300C/interface_p2a.c:607-749 | A read after a write delivers exactly what was written, if and only if it fits the buffer, the file can be read and no read is waiting, until another write reaches the file |
| StorageArea.ReadRefusedIff | Source/300C_SIMU/ASW_300C/interface_p2a.c:607-693 | A read fails if and only if it asks for more than 1024 octets or, with no read waiting, the file does not open, is larger than the buffer or is cut short; otherwise it delivers the file unless a read waits |
| StorageArea.WriteRefusedIff | Source/300C_SIMU/ASW_300C/interface_p2a.c:696-749 | A write fails if and only if it has more than 1024 octets or, with nothing waiting, the file does not open or does not take everything; and what the file then holds |
| StorageArea.CountIsInARow | Source/300C_SIMU/ASW_300C/interface_p2a.c:607-771 | The failure counter is the number of failures in a row, modulo 256 |
| StorageArea.ThirdFailureIff | Source/300C_SIMU/ASW_300C/interface_p2a.c:607-749 | `ASW_300C/README.md:348` promises NO_AVAILABLE for three consecutive failures of the same operation. Of any failing call, the promise is kept if and only if: a third in a row has a permitted size and a count of failures, modulo 256, of three or more; any other has a size not permitted or a count below three |
| StorageArea.NoAvailableIff | Source/300C_SIMU/ASW_300C/interface_p2a.c:607-749 | A failure is answered NO_AVAILABLE if and only if its size is permitted and its number among all failures, reads and writes, since the count was last cleared is, modulo 256, three or more |
| StorageArea.PlainUseIff | Source/300C_SIMU/ASW_300C/interface_p2a.c:607-749 | With permitted sizes and only one kind of call failing, without a success, since the count was last cleared, the promise is kept exactly until the count wraps |
| StorageArea.MixedFailuresAreCountedTogether | Source/300C_SIMU/ASW_300C/interface_p2a.c:638-648 | Run against the promise: a failing read, write and read, and the third is answered NO_AVAILABLE |
| StorageArea.AcceptedWriteDoesNotEndTheRow | Source/300C_SIMU/ASW_300C/interface_p2a.c:638-648 | Run against the promise: two failing reads, an accepted write, a failing read, answered NO_AVAILABLE |
| StorageArea.WrongSizesAreNotCounted | Source/300C_SIMU/ASW_300C/interface_p2a.c:615-620 | Run against the promise: three reads of a size not permitted, the third answered FAILED |
| StorageArea.CountWraps | Source/300C_SIMU/ASW_300C/interface_p2a.c:638-648 | Run against the promise: of 256 failing reads in a row the last is answered FAILED |
| StorageArea.ThirdReadIsNotAvailable | Source/300C_SIMU/ASW_300C/interface_p2a.c:638-648 | Of three failing reads the first two are answered FAILED, the third NO_AVAILABLE |
| StorageArea.Area.ReadData | Source/300C_SIMU/ASW_300C/interface_p2a.c:607-693 | The read call's every branch, as the run model has it |
| StorageArea.Area.WriteData | Source/300C_SIMU/ASW_300C/interface_p2a.c:696-749 | The write call's every branch, as the run model has it, also the file a short write leaves |
| StorageArea.Area.GetStatus | Source/300C_SIMU/ASW_300C/interface_p2a.c:751-771 | The status call, as the run model has it |
| PayloadPublisher.ChunksPartition | Source/300C_SIMU/BSW_CODE/session/ext_session.cpp:152-195 | The chunks of a payload joined are the payload; none is empty or too long and only the last is short |
| PayloadPublisher.ChunkCount | Source/300C_SIMU/BSW_CODE/session/ext_session.cpp:152-195 | There are as few chunks as can hold the payload |
| PayloadPublisher.ReceivedIff | Source/300C_SIMU/ASW_300C/interface_p2a.c:62-102 | A platform message is received, as it was sent and whatever lies behind it in its slot, if and only if its size is at most 2497 |
| PayloadPublisher.ReceivedAs | Source/300C_SIMU/ASW_300C/interface_p2a.c:62-102 | A published chunk is received as the device, the octets 10, 0, 0, the zero prefix and the chunk |
| PayloadPublisher.PayloadIsReadIff | Source/300C_SIMU/BSW_CODE/session/ext_session.cpp:152-195 | A payload published into a ring in any state is read back whole by the application if and only if prefix and payload are at most 2497 octets together |
| PayloadPublisher.LongPayloadIsLost | Source/300C_SIMU/BSW_CODE/session/ext_session.cpp:152-195 | The input that shows the other case: of a payload of 2501 octets the application reads the last |
| PayloadPublisher.PacketIsLost | Source/300C_SIMU/BSW_CODE/session/ext_session.cpp:72-195 | And one that the connection can deliver: of a packet of 2498 octets without a prefix nothing is read |
| PayloadPublisher.PublishPayload | Source/300C_SIMU/BSW_CODE/session/ext_session.cpp:152-195 | The application's ring ends as its old queue followed by the payload's messages, overflow included; every failure leaves it unchanged |
| PayloadPublisher.WritePlatformMsg | Source/300C_SIMU/ASW_300C/interface_p2a.c:1374-1392 | Lays out the header and writes only the part of the message in use |
| PayloadPublisher.HeaderLayout | Source/300C_SIMU/ASW_300C/Interface_Data.h:137-152 | Where the fields of a platform message lie and in which order their octets |
| PayloadPublisher.DoInput | Source/300C_SIMU/BSW_CODE/session/ext_session.cpp:72-120 | A whole input cycle: the ring ends with the messages of every packet before the first empty one, in order, or of the idle payload if nothing came; without a connection nothing changes |
| PayloadPublisher.ReadNewMsg | Source/300C_SIMU/ASW_300C/interface_p2a.c:62-102 | Takes the oldest message out of the ring and gives it to the application, or says what the ring answered, or that the message was too long and is gone |
| PayloadPublisher.ForwardedTwice | Source/300C_SIMU/BSW_CODE/session/ext_session.cpp:72-120 | Publishing two payloads one after the other is publishing their messages together |
| ExternalOutput.PackedIsHandedOver | Source/300C_SIMU/BSW_CODE/mainsafety.cpp:215-283 | A slot that begins with a message of the application is handed over with its number and data, whatever lies behind it, to: the external session for kind 10, RSSP-1 for 1, for 3 the raw session if there is one, else the other application, else maintenance, for 2 the safety session of the device or for a CONNECT of the identity in the next octet, nobody otherwise |
| ExternalOutput.TargetIsFixedIff | Source/300C_SIMU/BSW_CODE/mainsafety.cpp:260-267 | The target does not depend on what lies behind the message in its slot, if and only if the message has data or is no CONNECT of the safety protocol |
| ExternalOutput.BareIdentity | Source/300C_SIMU/BSW_CODE/mainsafety.cpp:260-267 | A CONNECT without data goes to identity zero if the ring had room, and otherwise to the identity in that place of the message it covers |
| ExternalOutput.StrayConnect | Source/300C_SIMU/BSW_CODE/mainsafety.cpp:260-267 | A run of 151 messages that sends such a CONNECT to the session with the identity 7 |
| ExternalOutput.LastAreHandedOver | Source/300C_SIMU/BSW_CODE/mainsafety.cpp:215-283 | The messages of a cycle are handed over in the order they were written, as they were written and each to the target it names, that of a CONNECT without data included; of more than the ring holds, the last ones are |
| ExternalOutput.CycleIsHandedOver | Source/300C_SIMU/BSW_CODE/mainsafety.cpp:215-283 | The same for the pool: among any calls for other types between two drains, the application's writes leave its ring so that the drain hands over the last of them |
| ExternalOutput.Drain | Source/300C_SIMU/BSW_CODE/mainsafety.cpp:215-283 | The drain loop hands over the whole outgoing queue, whatever is in it, in order, and leaves it empty and every other queue as it was |
| ExternalOutput.WriteNewMsg | Source/300C_SIMU/ASW_300C/interface_p2a.c:104-145 | A message is written if and only if its size is between 3 and 2503, the subtraction wrapping below three; what is written is what lies in memory from the array on |
| ExternalOutput.StaysInBoundsIff | Source/300C_SIMU/ASW_300C/interface_p2a.c:104-145 | What is written depends on nothing but the application's structure, if and only if the size is at most the 2500 octets of its array |
| ExternalOutput.ReadsBehindTheArray | Source/300C_SIMU/ASW_300C/interface_p2a.c:127-133 | The input that shows it: with a size of 2501 the last octet written is the one behind the array |

## Left out

- Sockets, serial lines, UDP, processes, files and threads themselves: a receive is a chunk, an end or an error that is
  handed in; a file is an octet string with an outcome for each call.
- JSON configuration, logging, printing, SNMP, PXI and train-position mapping, board status and the raw and RSSP-1
  sessions: lookups per entry.
- FramedReceiver.TcpServer.Receive: the raw mode without framing is not modelled, nor is a client closed by a failing
  send. That a departed client had been given all its frames is stated for visits in which every call offered a buffer
  of the same size and, in DMI mode, no chunk boundary split the magic; without that it need not be so. The client side
  has the same receive loops and is not modelled a second time.
- MessagePool.Pool.AddMsgType: a type with no slots, which the source would enter with an end before its start, is left
  out; no type is registered so.
- MessagePool.Pool.Init: its twelve registrations are one loop over a table of types and sizes; the null checks and the
  error log entries are left out.
- MaintenanceLog.Log.Write: the header is a packed little-endian structure, as on the hosts the simulator is built for;
  so is that of a platform message.
- LogQueue.BlockingQueue.Enqueue: a call is one pass through its critical section, which puts the item in or goes on
  waiting; resetting the counters is left out because the balance is stated without resets.
- PoolShutdown.StepKeepsInv: the pool starts to close when no producer is under way any more, as its owner guarantees;
  handling a message always returns; which of several waiting producers holds which message is left open until it is
  pushed.
- Safety037.Session.Output: applying a dynamic peer is an outcome that is handed in; the text of the peer's address and
  the table of peers are left out. The clock counts nanoseconds in unbounded integers.
- SessionCrc.BurstIsDetected: errors spread over more than four octets are not treated.
- SdmuPacket.BurstIsRejected: a burst that reaches from the covered octets into the checksum is not treated.
- MaintenanceSession.ScanInverts: messages whose gaps contain a frame start that is no frame are covered by the scan
  itself (ScanAndSend), not by the inverse.
- SdmuPacket.AssembleSecure: the time is a parameter, a value of 32 bits; handing the packet to the pool is left out.
- SdmuPacket.AnySingleOctetErrorIsRejected: the receiver of these packets is not part of the repository; head, tail,
  length and checksum are what the packet offers it to check.
- StorageArea.ThirdFailureIff: "consecutive" is read as: the same kind of call answered as failed, with no success and no
  failure of the other kind in between; status calls and calls answered PENDING without effect do not interrupt.
- StorageArea.Area.ReadData: milliseconds do not overflow 64 bits; file positions do not fail apart from opening and
  reading. The second and third storage areas, and the fourth, are left out: two of them share a record.
- PayloadPublisher.PublishPayload: the check of a size against 65535 cannot fail and is left out; a prefix above 2500 is
  excluded, as the input cycle excludes it before.
- PayloadPublisher.ReadNewMsg: the fields a refused message leaves in the caller's structure are left out.
- ExternalOutput.Drain: what a session does with a message, and the warning for a missing session, are left out.
- Education data, version numbers, elapsed-time arithmetic and the grouping of signal digits: no property across calls.
