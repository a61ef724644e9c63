# Verification of rosserial_ros2

A Dafny model of the server's serial path and proofs about it: the buffered reader and the staged
packet parser, the shared write queue and its framing, topic registration and routing, the packed
ROS 1 codec driven by runtime type descriptions, and the stream sniffer.

Run `dafny verify dfyconfig.toml` in this directory.

## How it is laid out

Code that updates objects is modelled by classes with the same fields and methods: `RosStream`
(`SerialStream.dfy`), `WriteBuffer` (`MessageSerialization.dfy`), `AsyncReadBuffer` (`AsyncRead.dfy`),
`AsyncWriteBuffer` (`AsyncWrite.dfy`), `SerialDrive` (`SerialSession.dfy`), the codec loops
(`Adapter.dfy`, over the type descriptions of `Introspection.dfy`), publisher and subscriber
(`TopicHandle.dfy`) and `StreamSniffer` (`Sniffer.dfy`). Their methods are proved against specification
functions, and the results are lemmas about those functions and their runs.

The reading side goes through three levels. `AsyncReadBuffer` is a fixed array with two indices,
compaction and raw views; it refines a queue of unread bytes with one continuation (`Channel`, `Ask`).
`Session` is the handler chain on that queue as a state machine over transfers, handler runs and port
errors. `Scanner` says what the server makes of a whole byte stream: no buffer, no stages, no chunks,
and then (`Deliver`) of a list of messages: no bytes either. `Reception` says what becomes of such a
list: which messages get through and when a handler throws. `EndToEnd` runs callers, write queue, wire
and session together in every interleaving.

An asynchronous read is completed by an adversary with any number of bytes between the missing ones
and the free space, or with an error. A continuation is one of: a read in flight, a posted handler,
or stopped (request refused, port error, handler threw).

## What the code does not promise

These were found while proving; the model keeps the code's behaviour.

- The writer cuts its message checksum to eight bits, the server adds as int. A packet whose payload
  sum and topic sum carry over eight bits is refused although it is intact
  (`Frame.ServerAcceptsWriter`, `Frame.CarryIsHopeless`), for instance topic 255 with the one-byte
  payload 1 (`Frame.CarryExample`; `Frame.EncodeExample` spells out a packet that is accepted). The
  end-to-end result needs no assumption about this: `Scanner.Deliver` drops such messages.
- A payload above 511 bytes makes the session ask for more than its buffer holds, which is refused
  without a further read: the session stays silent from then on.
- Readme.md says that after a failed check the parser looks for the next packet. It does so after whole
  rejected units only. Bytes in front of a packet are harmless exactly when the server, given those
  bytes alone, waits with none of them left (`Scanner.ResyncExact`), which is to say that they are
  whole units and no handler throws on the packets among them (`Scanner.ResyncByUnits`). A stray 0xFF
  is no whole unit and raises an exception out of the handler (`Scanner.StrayFlagRaises`); an empty
  registration is a whole unit, and its handler throws (`Scanner.EmptyRegistrationRaises`).
- One payload that is shorter than its type, or has an empty string, ends the session, since the
  exception of the reading leaves the handler: a registration, or a message that passes every check
  (`Reception.BrokenPayloadRaises`, `Reception.EmptyTextRaises`). `Reception.NothingLostExact` gives the
  exact condition, on the messages, the types loaded for their topics and the answers of the ROS side,
  for all of them to be dispatched.
- A payload whose reading is refused (a long string, an array) is logged and then published all the same,
  as far as it was read: `publish` goes on with the object it has already finalised. In the log of the
  model this is `Published(p, Refused)`.
- A message that cannot be converted or is refused on the way out is sent all the same, empty or cut
  after the last member written (`TopicHandle.Forward`).
- A payload of 65536 bytes or more goes out cut to its length modulo 65536 (`AsyncWrite.SentIsPayload`).
- A failed write drops every packet behind it too (`WriteQueue.FailClears`), and the unsent part of the
  front packet is missing from the wire. The server is aligned with what follows only if nothing of it
  was sent (`Scanner.CutSpoils`); a packet cut after its header swallows exactly as many later bytes as
  it lacks, with a mixed payload accepted if the sum happens to fit (`Scanner.CutSwallows`).
- Strings of 0 characters are written but raise when read back, and strings above 400 are refused (the
  log message speaks of 2048); `Codec.RoundTripExact` gives the exact domain.
- `run_io_contect` runs up to 51 completions a call, one more than its limit of 50 suggests.
- The branch of `read_callback` that continues with `async_read_some` is never taken, since the read
  before it transfers at least what is missing: `SerialDrive.ReaderOk` keeps that operation out.

## Model

The rows are the results and the operations. Steps on the way to them have a comment where they are
proved: `Session.StepRefines` and `WriteQueue.StepSafe` for single events, `WriteQueue.DoneFindsItsFrame`
for the pop, `Scanner.NextUnitStable` for verdicts, `Codec.SeqRoundTrip` and `Codec.DoublesRoundTrip` for
headers and arrays, `Adapter.MemberFrame` and `Adapter.HoldsNext` for members that do not overlap,
`WriteQueue.PutGoesLast` and `WriteQueue.FinishedPops` for the queue without errors. Byte for byte are
spelled out a packet (`Frame.EncodeExample`), a registration (`SerialStream.LayoutExample`) and a
std_msgs header (`Codec.HeaderExample`); `Bytes.Le32Digits`, `Bytes.U32Digits` and `Bytes.I32Digits`
give the byte order of integers, `Codec.ScalarSizes` the sizes of scalars.

| member | source | states |
|---|---|---|
| EndToEnd.EndToEnd | src/rosserial_server/include/rosserial_server/transport/async_transport.hpp:37-260 | for all callers, interleavings, transfer sizes and handlers, each call of a handler free to throw or not, if no write has failed the session dispatches what the enqueued messages deliver, in queue order, never more, and when all is read and it waits, it waits for a head byte with nothing left over |
| EndToEnd.EveryMessageArrives | src/rosserial_server/include/rosserial_server/session/serial_session.hpp:266-324 | closed form, on the messages that the callers packaged: if each has at most 511 bytes and no carry and none breaks its handler, then in every run without a failed write the session stops for no reason but a port error, dispatches those messages with their own payloads in queue order, and once all is read and it waits has dispatched every one |
| EndToEnd.EveryValueArrives | src/rosserial_server/include/rosserial_server/ros_adapter/topic_handle.hpp:30-44 | if moreover the ROS side does not throw and the messages carry values of the types that their topics are registered with, then in every state each publisher has read from each of its frames just the value sent, to the last byte, and the session still never ends of itself |
| EndToEnd.CanFinish | src/rosserial_server/include/rosserial_server/transport/async_transport.hpp:37-260 | every run without a failed write can be continued, with the frames already enqueued, until everything is sent and the session has read it all and waits, or has stopped: no deadlock between queue, wire and session |
| EndToEnd.RunCoherent | src/rosserial_server/include/rosserial_server/transport/async_transport.hpp:176-260 | in every reachable state of the whole system, write errors included, the queue is orderly and the session is the scan of the part of the wire it received |
| EndToEnd.NeverStarves | src/rosserial_server/include/rosserial_server/transport/async_transport.hpp:56-81 | with the queue drained, a waiting session that has not read everything can be given just the bytes it asks for: the minimum transfer size never blocks it |
| Reception.NothingLostExact | src/rosserial_server/include/rosserial_server/session/serial_session.hpp:266-324 | for every ROS side, all messages are dispatched in order and the server waits for more, if and only if each has at most 511 bytes and no carry and none breaks its handler: by the reading of its payload, in the type its topic was last registered with or as a registration, or by the call into the ROS side after it |
| Reception.DeliverSurvives | src/rosserial_server/include/rosserial_server/session/serial_session.hpp:286-324 | for every ROS side and from any consistent routing state, the session ends with an exception if and only if a message that gets through breaks its handler |
| Reception.GoodTrafficSurvives | src/rosserial_server/include/rosserial_server/ros_adapter/ros_message_adapter.hpp:173-300 | if the ROS side does not throw, messages that carry values with strings of 1 to 400 characters, of readable types that their topics are registered with, and registrations that parse or are refused for their lengths, break no handler |
| Reception.DeliverReadsBack | src/rosserial_server/include/rosserial_server/ros_adapter/topic_handle.hpp:40-44 | such messages are read by their publishers as exactly the values they carry |
| Reception.BrokenPayloadRaises | src/rosserial_server/include/rosserial_server/ros_adapter/ros_message_adapter.hpp:87 | after a registration, one payload whose reading throws ends the session, although it passes every check and the ROS side does not throw |
| Reception.EmptyTextRaises | src/rosserial_server/include/rosserial_server/protocol/serial_stream.hpp:43-53 | for instance an empty string, for any type that begins with a string |
| Reception.DeliverAccepts | src/rosserial_server/include/rosserial_server/session/serial_session.hpp:266-296 | whatever the ROS side does, the dispatched frames are the messages without a carry, up to the first too long for the buffer: all of those if no handler throws, the first of them otherwise |
| Reception.AllAccepted | src/rosserial_server/include/rosserial_server/session/serial_session.hpp:266-296 | the messages that pass the checks are all of them if and only if each has at most 511 bytes and no carry |
| EndToEnd.ValueArrives | src/rosserial_server/include/rosserial_server/ros_adapter/ros_message_adapter.hpp:173-413 | a written value, framed and sent, is accepted as one packet whose payload reads back as the value |
| Session.RunRefines | src/rosserial_server/include/rosserial_server/session/serial_session.hpp:202-296 | in every run, whatever the transfer sizes, the session has the log, maps and undecided bytes of one scan of the unchunked stream; unread bytes and views are the end of the stream in order; maps agree with the log |
| Session.ChunkingIrrelevant | src/rosserial_server/include/rosserial_server/session/serial_session.hpp:202-296 | two runs that received the same bytes and both wait are in the same state, however the bytes were cut |
| Session.PortErrorEnds | src/rosserial_server/include/rosserial_server/transport/async_transport.hpp:118-123 | in every run a port error is the last event: no byte is read and nothing is dispatched after it |
| Session.HandlerKeeps | src/rosserial_server/include/rosserial_server/session/serial_session.hpp:208-296 | a handler uses up its view and no other byte, and keeps maps and log in step |
| Session.HandlerShrinks | src/rosserial_server/include/rosserial_server/session/serial_session.hpp:208-296 | in a session equal to the scan, a posted handler can run and leaves fewer bytes to work on, so after finitely many handler runs it waits or has stopped |
| Session.HandlerAgrees | src/rosserial_server/include/rosserial_server/session/serial_session.hpp:208-296 | each of the four stages does on its view what the scanner does on the unit it belongs to |
| Scanner.ScanExtend | src/rosserial_server/include/rosserial_server/session/serial_session.hpp:202-296 | scanning can stop when it runs dry and go on later; after an end nothing changes any more |
| Scanner.ScanRest | src/rosserial_server/include/rosserial_server/session/serial_session.hpp:202-296 | what is left is a suffix of the stream, undecided exactly while the server waits |
| Scanner.ScanConsistent | src/rosserial_server/include/rosserial_server/session/serial_session.hpp:286-324 | over any bytes the log only grows and stays in step with the maps |
| Scanner.ScanDelivers | src/rosserial_server/include/rosserial_server/session/serial_session.hpp:208-296 | resynchronisation: rejected units anywhere between packets change nothing about what is delivered, and what follows is scanned as from a fresh start |
| Scanner.Dissect | src/rosserial_server/include/rosserial_server/session/serial_session.hpp:208-296 | every byte string is rejected units and packets of the writer that pass the checks, then a rest whose front is no such unit: undecided, oversized or FF FF; what the handlers do with the packets is the next row |
| Scanner.ScanIsDelivery | src/rosserial_server/include/rosserial_server/session/serial_session.hpp:208-296 | so the scan of any bytes at all is the delivery of the packets in them, ended by a handler that throws or else by the verdict on that rest |
| Scanner.PacketVerdict | src/rosserial_server/include/rosserial_server/session/serial_session.hpp:246-296 | a packet of the writer is accepted, rejected whole or oversized, by its carry and its size alone |
| Scanner.VerdictInBytes | src/rosserial_server/include/rosserial_server/session/serial_session.hpp:202-296 | the verdict on the front of any stream, in terms of its bytes: sync bytes, length at places 2 and 3, the untruncated sums, the limit of 511 |
| Scanner.NoiseRejected | src/rosserial_server/include/rosserial_server/session/serial_session.hpp:208-278 | the four kinds of noise are skipped exactly, whatever follows |
| Scanner.AcceptedIsPacket | src/rosserial_server/include/rosserial_server/session/serial_session.hpp:274-295 | whatever is accepted is byte for byte the writer's packet of that topic and payload |
| Scanner.ResyncExact | src/rosserial_server/include/rosserial_server/session/serial_session.hpp:202-296 | the server comes to look for a new unit just after some bytes if and only if, given those alone, it waits with none of them left; what follows is then scanned as from a fresh start |
| Scanner.ResyncByUnits | src/rosserial_server/include/rosserial_server/session/serial_session.hpp:202-296 | the same condition on the bytes and handlers: the bytes are whole units and no handler throws on the packets among them |
| Scanner.StrayFlagRaises | src/rosserial_server/include/rosserial_server/session/serial_session.hpp:234-237 | one stray sync flag in front of any packet ends the session with an exception, and the packet is never looked at |
| Scanner.EmptyRegistrationRaises | src/rosserial_server/include/rosserial_server/protocol/serial_stream.hpp:192-196 | an empty registration in front of anything ends the session too, although it is a whole unit |
| Scanner.CutSpoils | src/rosserial_server/include/rosserial_server/transport/async_transport.hpp:236-252 | the part of a packet that went out before its write failed leaves the server aligned for what follows if and only if nothing went out |
| Scanner.CutSwallows | src/rosserial_server/include/rosserial_server/session/serial_session.hpp:254-278 | a packet cut after its header takes just the missing bytes from what follows, and if it is accepted at all it is with its own topic and the mixed payload |
| Frame.ServerAcceptsWriter | src/rosserial_server/include/rosserial_server/session/serial_session.hpp:251-274 | the server accepts every length the writer sends, and a body if and only if its sums do not carry |
| Frame.CarryIsHopeless | src/rosserial_server/include/rosserial_server/session/serial_session.hpp:274 | a body with a carry is refused under every check byte |
| Routing.DispatchConsistent | src/rosserial_server/include/rosserial_server/session/serial_session.hpp:286-324 | every dispatch that returns keeps callback, publisher and subscriber maps equal to the latest registrations of the log, with the built-in handlers at 0 and 1 unless registered over |
| Routing.DispatchExplained | src/rosserial_server/include/rosserial_server/session/serial_session.hpp:286-324 | what a frame comes to is determined by the frames before it: its id's latest publisher, with its payload read by the type of that publisher; a registration; or nothing |
| Routing.DispatchThrowsExact | src/rosserial_server/include/rosserial_server/session/serial_session.hpp:286-324 | for every ROS side, a call ends with an exception if and only if the reading of the payload throws or the call into the ROS side after it does: by the publisher of the id, else as a registration for ids 0 and 1, else never |
| Routing.FrameEffect | src/rosserial_server/include/rosserial_server/session/serial_session.hpp:286-293 | a frame that is no registration adds one entry to the log, with what its publisher read, and changes no map |
| Routing.RegistrationEffect | src/rosserial_server/include/rosserial_server/session/serial_session.hpp:297-324 | a registration that goes through sets its own id in the map of its kind, and for a publisher the callback of that id, and nothing else |
| Routing.LongRegistrationRefused | src/rosserial_server/include/rosserial_server/session/serial_session.hpp:300-303 | a registration with a name, type or md5 above 400 characters is noted, changes no map, and throws nothing, so the server reads on |
| Routing.RegisteredThenPublished | src/rosserial_server/include/rosserial_server/session/serial_session.hpp:286-313 | a registration within the limits creates a publisher, and the next frame of its id goes to that publisher, read by the type loaded for it |
| SerialSession.SerialDrive.constructor | src/rosserial_server/include/rosserial_server/session/serial_session.hpp:175-187 | the session starts in the initial state of the machine, waiting for a head byte |
| SerialSession.SerialDrive.ReadAsyncFirst | src/rosserial_server/include/rosserial_server/session/serial_session.hpp:208-221 | the first stage, through the cursor on the view in the buffer, is the machine's |
| SerialSession.SerialDrive.ReadAsyncSecond | src/rosserial_server/include/rosserial_server/session/serial_session.hpp:223-244 | the second stage, with its exception on a second flag |
| SerialSession.SerialDrive.ReadLength | src/rosserial_server/include/rosserial_server/session/serial_session.hpp:246-264 | the length stage |
| SerialSession.SerialDrive.ReadBody | src/rosserial_server/include/rosserial_server/session/serial_session.hpp:266-296 | the body stage with its dispatch |
| SerialSession.SerialDrive.Call | src/rosserial_server/include/rosserial_server/session/serial_session.hpp:286-293 | the lookup and call change the maps and the log as the routing specification says, or throw and change nothing |
| TopicHandle.Publish | src/rosserial_server/include/rosserial_server/ros_adapter/ros_message_adapter.hpp:70-132 | a payload is read into a fresh message object, and what the ROS side finds there is what reading the bytes gives; an exception of the reading leaves the handler, a refusal does not |
| TopicHandle.Forward | src/rosserial_server/include/rosserial_server/ros_adapter/topic_handle.hpp:82-90 | a message of the ROS side is enqueued as the packet of its encoding, whole below 65536 bytes, of the part written before a refusal, or of nothing if the conversion failed; if writing throws, the queue is as before |
| SerialSession.SerialDrive.RunCreatePublisher | src/rosserial_server/include/rosserial_server/session/serial_session.hpp:297-313 | a publisher registration, refused registration or exception |
| SerialSession.SerialDrive.RunCreateSubscriber | src/rosserial_server/include/rosserial_server/session/serial_session.hpp:314-324 | a subscriber registration, refused registration or exception |
| SerialSession.SerialDrive.RunPosted | src/rosserial_server/include/rosserial_server/transport/async_transport.hpp:153-165 | a posted handler still finds in the buffer the bytes it was posted with, also after the indices were reset, and the step keeps the session equal to the scan |
| SerialSession.SerialDrive.Transfer | src/rosserial_server/include/rosserial_server/transport/async_transport.hpp:116-130 | a completed read is one transfer of the machine and leads to a posted handler |
| SerialSession.SerialDrive.PortError | src/rosserial_server/include/rosserial_server/transport/async_transport.hpp:118-123 | a failed read stops the chain and nothing else |
| SerialSession.SerialDrive.PollOne | src/rosserial_server/include/rosserial_server/session/serial_session.hpp:102 | one completion is run exactly when one is ready: a transfer, a failed read or a handler of this session, or one of another operation on the same executor; no byte is lost between line and session |
| SerialSession.SerialDrive.RunIoContext | src/rosserial_server/include/rosserial_server/session/serial_session.hpp:99-116 | a call runs at most 51 completions, those of the session, failed reads included, and of other operations counted together, and stops earlier only when none is ready or a handler threw; the session goes through that many completions from its old state and stays equal to the scan of the bytes received |
| AsyncRead.AsyncReadBuffer.Read | src/rosserial_server/include/rosserial_server/transport/async_transport.hpp:37-91 | refuses, waits or posts as the queue of unread bytes says, with compaction invisible; a read it starts is aimed inside the buffer with room for what is missing |
| AsyncRead.AsyncReadBuffer.Compact | src/rosserial_server/include/rosserial_server/transport/async_transport.hpp:67-73 | the move keeps the unread bytes |
| AsyncRead.AsyncReadBuffer.ReadCallback | src/rosserial_server/include/rosserial_server/transport/async_transport.hpp:116-137 | on success the transferred bytes join the unread ones and the pending request is served or continued; on error the chain stops |
| AsyncRead.AsyncReadBuffer.CallSuccessCallback | src/rosserial_server/include/rosserial_server/transport/async_transport.hpp:138-165 | the handler is posted with exactly the first requested unread bytes, the rest stays, an emptied buffer is rewound |
| AsyncRead.AsyncReadBuffer.CompleteRead | src/rosserial_server/include/rosserial_server/transport/async_transport.hpp:78-81 | whatever the transfer size between missing and free, the request is served from old unread bytes followed by new ones |
| AsyncWrite.AsyncWriteBuffer.PackagingMsg | src/rosserial_server/include/rosserial_server/transport/async_transport.hpp:197-225 | the vector sent is the packet and nothing else, 8 + (n mod 65536) bytes, also when the preallocation length wraps; from its eighth byte on it holds the beginning of the payload, and all of it below 65536 bytes |
| AsyncWrite.SentIsPayload | src/rosserial_server/include/rosserial_server/transport/async_transport.hpp:201-218 | what goes out of a payload is its first n mod 65536 bytes, unchanged |
| AsyncWrite.AsyncWriteBuffer.PackageHeader | src/rosserial_server/include/rosserial_server/transport/async_transport.hpp:206-216 | sync flags, length, length checksum and topic id, in the growable buffer |
| AsyncWrite.AsyncWriteBuffer.MessageCheck | src/rosserial_server/include/rosserial_server/transport/async_transport.hpp:220-221 | the message checksum over the bytes sent |
| AsyncWrite.AsyncWriteBuffer.WriteToSerial | src/rosserial_server/include/rosserial_server/transport/async_transport.hpp:176-190 | enqueues the packet of the message, with its own payload below 65536 bytes; the queue stays safe |
| AsyncWrite.AsyncWriteBuffer.CompleteWrite | src/rosserial_server/include/rosserial_server/transport/async_transport.hpp:231-234 | a finished or failed write steps the queue, and a failed one leaves it empty with nothing in flight; the queue stays safe |
| AsyncWrite.AsyncWriteBuffer.WriteEcCallback | src/rosserial_server/include/rosserial_server/transport/async_transport.hpp:236-260 | success pops the front and starts the next write, an error clears the queue |
| WriteQueue.RunSafe | src/rosserial_server/include/rosserial_server/transport/async_transport.hpp:176-260 | in every run, with errors, one write is in flight exactly while the queue is not empty, of the unchanged front frame; every frame is completed, cut short, dropped or pending, and the wire is exactly their shares in order |
| WriteQueue.FailClears | src/rosserial_server/include/rosserial_server/transport/async_transport.hpp:236-252 | a failed write leaves nothing queued and nothing in flight: the front frame stays cut where it was, each one behind it is dropped, the wire is as it was |
| WriteQueue.NothingAfterFailure | src/rosserial_server/include/rosserial_server/transport/async_transport.hpp:236-252 | in every run, no byte of a frame enqueued before a failure ever goes out after it: the wire goes on with frames enqueued later |
| WriteQueue.WireInOrder | src/rosserial_server/include/rosserial_server/transport/async_transport.hpp:176-260 | without failures the wire is whole frames in queue order and a prefix of the front one |
| Writers.RunOrderly | src/rosserial_server/include/rosserial_server/transport/async_transport.hpp:176-190 | with any number of callers packaging outside the lock, every caller's messages enter the queue in its own order, none lost or duplicated |
| SerialStream.ParseTopicInfoExact | src/rosserial_server/include/rosserial_server/protocol/serial_stream.hpp:182-225 | a registration parses if and only if it is the packed layout of a message whose three strings have 1 to 400 characters, and leaves exactly what follows |
| SerialStream.ParseTopicInfoRefused | src/rosserial_server/include/rosserial_server/protocol/serial_stream.hpp:192-219 | a registration is refused if and only if a length above 400 stands in front of the name, after a good name, or after a good name and type; every other failure is an exception |
| SerialStream.TakePrefixedOutcomes | src/rosserial_server/include/rosserial_server/protocol/serial_stream.hpp:182-203 | a string is refused if and only if its length field is there and above 400, and throws if and only if the field is not all there, is 0, or promises more than there is |
| SerialStream.GetTopicInfo | src/rosserial_server/include/rosserial_server/protocol/serial_stream.hpp:192-225 | the step-by-step parse is that function of the window, with its refusals and exceptions, and never leaves the window |
| SerialStream.RosStream.Take | src/rosserial_server/include/rosserial_server/protocol/serial_stream.hpp:18-42 | reading a value takes it off the front or throws and moves nothing |
| SerialStream.RosStream.TakeString | src/rosserial_server/include/rosserial_server/protocol/serial_stream.hpp:43-64 | reading a string, with the exception on size 0 |
| SerialStream.RosStream.TakeStream | src/rosserial_server/include/rosserial_server/protocol/serial_stream.hpp:65-94 | the sub-stream is a window on the next bytes of the same memory, and the two tile the old window |
| MessageSerialization.StreamDataSum | src/rosserial_server/include/rosserial_server/protocol/message_serialization.hpp:20-28 | the wrapping eight-bit loop gives the sum of the window modulo 256 |
| MessageSerialization.DataSum16Bytes | src/rosserial_server/include/rosserial_server/protocol/message_serialization.hpp:14-18 | the shifted addition is the sum of the two bytes modulo 256 |
| MessageSerialization.WriteBuffer.BufferWrite | src/rosserial_server/include/rosserial_server/protocol/message_serialization.hpp:71-87 | appends exactly n bytes, growing only when needed; null sources are refused unless nothing is written |
| MessageSerialization.WriteBuffer.EnsureSize | src/rosserial_server/include/rosserial_server/protocol/message_serialization.hpp:50-57 | growing keeps what was written |
| Codec.RoundTripExact | src/rosserial_server/include/rosserial_server/ros_adapter/ros_message_adapter.hpp:173-413 | for every nested type, reading what was written gives the value back and leaves exactly what follows, if and only if the type is readable and all strings have 1 to 400 characters |
| Codec.ScalarsInOrder | src/rosserial_server/include/rosserial_server/ros_adapter/ros_message_adapter.hpp:206-243 | scalar members of 1, 1, 4, 4, 4 and 8 bytes lie one after the other in the order of the type, without padding, in both directions |
| Codec.SeqWritten | src/rosserial_server/include/rosserial_server/ros_adapter/ros_message_adapter.hpp:371-389 | four zero bytes are put in front of a nested message if and only if it is called header and has a member called stamp |
| Codec.SeqRead | src/rosserial_server/include/rosserial_server/ros_adapter/ros_message_adapter.hpp:262-282 | four bytes are dropped in front of exactly those when they are read |
| Codec.ReadRefusals | src/rosserial_server/include/rosserial_server/ros_adapter/ros_message_adapter.hpp:188-203 | reading refuses every array but a fixed one of doubles, every unknown kind and every string above 400, and no scalar |
| Codec.WriteRefusals | src/rosserial_server/include/rosserial_server/ros_adapter/ros_message_adapter.hpp:319-410 | writing refuses unknown kinds, throws on sequences of scalars and strings, and writes no element of an unbounded sequence of messages |
| Codec.WritingUndoesReading | src/rosserial_server/include/rosserial_server/ros_adapter/ros_message_adapter.hpp:173-413 | for arbitrary bytes that read successfully, writing again gives the consumed bytes with each header's seq zeroed |
| Codec.AllDecoded | src/rosserial_server/include/rosserial_server/ros_adapter/ros_message_adapter.hpp:173-300 | reading succeeds only on readable types and gives only values of the type with good strings |
| Adapter.DeserializeRos1ToStruct | src/rosserial_server/include/rosserial_server/ros_adapter/ros_message_adapter.hpp:173-300 | the loop ends as reading the bytes ends, with the cursor there and inside the window; it changes only the message object; if no members overlap, every member then holds the value read |
| Adapter.DeserializeMember | src/rosserial_server/include/rosserial_server/ros_adapter/ros_message_adapter.hpp:184-297 | one turn changes only the member's extent and stores what was read there |
| Adapter.ObjectFound | src/rosserial_server/include/rosserial_server/ros_adapter/ros_message_adapter.hpp:173-300 | the value that a message object of a readable type holds is determined by its memory: it is the one found by walking the description |
| Adapter.HeldInPlace | src/rosserial_server/include/rosserial_server/ros_adapter/ros_message_adapter.hpp:184-185 | a member lies at its offset, the elements of a fixed array 1, 4, 8, 32 or the size of their type apart |
| Adapter.Transcribe | src/rosserial_server/include/rosserial_server/ros_adapter/ros_message_adapter.hpp:173-413 | writing one message object and reading the bytes into another makes the other hold the same value, for values with strings of 1 to 400 characters of readable types |
| Adapter.SerializedStructToRos1 | src/rosserial_server/include/rosserial_server/ros_adapter/ros_message_adapter.hpp:303-413 | the loop appends exactly the encoding of the value held by the memory, also of the part before it refuses or throws |
| Adapter.SerializeMember | src/rosserial_server/include/rosserial_server/ros_adapter/ros_message_adapter.hpp:313-410 | one turn for every kind of member, arrays included |
| Adapter.ReadAndMvPtr | src/rosserial_server/include/rosserial_server/protocol/message_serialization.hpp:89-99 | a scalar or fixed array goes out as one block equal to its elements in order; sequences throw |
| Adapter.FindStamp | src/rosserial_server/include/rosserial_server/ros_adapter/ros_message_adapter.hpp:266-276 | the loop finds a stamp member if and only if there is one |
| Sniffer.IncrementalIsBatch | src/rosserial_server/rosserial_stream_sniffer.py:174-195 | for all bytes cut in any way, the same frames at the same places and the same leftover as one parse of the whole |
| Sniffer.ParseInvertsFraming | src/rosserial_server/rosserial_stream_sniffer.py:28-89 | on the writer's packets of any messages, back to back, exactly those messages, both checksums right, every byte used |
| Sniffer.ParseRosserialFrames | src/rosserial_server/rosserial_stream_sniffer.py:46-89 | the index loop is the parse of the buffer, and the index it returns leaves the unparsed bytes |
| Sniffer.StreamSniffer.OnChunk | src/rosserial_server/rosserial_stream_sniffer.py:174-195 | after each chunk, reported frames and kept bytes are the parse of the whole capture |
| Sniffer.ParseExtend | src/rosserial_server/rosserial_stream_sniffer.py:49-60 | parsing can stop at an incomplete frame and go on when more has arrived |
| Sniffer.ChecksumsAgree | src/rosserial_server/rosserial_stream_sniffer.py:19-25 | for all topics and payloads the writer's check bytes are the ones the sniffer expects, carry or not |
| Sniffer.RecordExact | src/rosserial_server/rosserial_stream_sniffer.py:54-85 | the record of any complete frame, byte by byte; each flag is up if and only if the bytes it covers sum up to 255 modulo 256 |
| Sniffer.CorruptionSeen | src/rosserial_server/rosserial_stream_sniffer.py:71-85 | a packet of the writer with one byte of topic, payload or check changed is found at the same place and reported as bad, and what follows is parsed as before |
| Sniffer.CorruptionRejected | src/rosserial_server/include/rosserial_server/session/serial_session.hpp:274-278 | the server rejects the packet with the changed byte as a whole and looks for the next one right after it |
| Sniffer.ReportedIsThere | src/rosserial_server/rosserial_stream_sniffer.py:49-85 | every frame reported is in the capture at its offset, after two sync bytes |
| Sniffer.NothingOverlooked | src/rosserial_server/rosserial_stream_sniffer.py:49-60 | before the bytes that are kept, two sync bytes start a frame that was reported or lie inside one |
| Sniffer.ServerAcceptedPassesSniffer | src/rosserial_server/rosserial_stream_sniffer.py:71-85 | a packet that the server accepts is one frame for the sniffer, with both checksums right |

## Left out

- Boost.Asio, serial ports and timing: a read completes with an allowed number of bytes or an error, a posted handler runs once, later; the bytes of a read that fails part-way are not modelled.
- Opening and reconfiguring the port, the parameter callback and the destructor: one open port per run.
- Type support loading and CDR conversion: the parameter `Env` says for each call whether the ROS side throws, and for each endpoint which description was loaded; a description is well-formed, with members inside their message and apart. Without one `members_` was never set: the outcome `Unspecified`.
- A callback that replaces itself in the map while it runs (a registration for id 0 sent to id 0): the map entry is replaced as written, the lifetime of the running function object is not modelled.
- TopicHandle.Forward: says nothing of the frame after the outcome `Undefined` of the writing, since C++ gives that run no meaning.
- EndToEnd.EndToEnd: says what arrives only while no write has failed; after a failure the session is still the scan of the wire (EndToEnd.RunCoherent) and the wire is accounted for (WriteQueue.RunSafe), and the bytes a cut packet takes from what follows are exact (Scanner.CutSpoils, Scanner.CutSwallows), but which later packets are met again depends on their contents and is only given as a condition (Scanner.ResyncExact).
- Bounded sequences of messages walk the sequence object itself when written: the outcome `Undefined`. Reading a bool from a byte other than 0 or 1 is the outcome `Unspecified`. After an outcome without a meaning in C++, and after publishing a finalised object, the handler returns or throws as `Env.publishThrows` says.
- Memory of sequence members is not part of a message object's value: neither direction reaches it.
- Floating-point values are their 4 or 8 bytes; `sizeof(std::string)` is the constant 32.
- Log output, printing, hex dumps, the sniffer's command line and capture file.
