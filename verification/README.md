# BlazeFTC in Dafny

BlazeFTC sits between the Java FTC SDK and the serial bus of a robot's motor hubs. It shares one 8-bit message-id space
between two clients, relays and re-encodes packets, hands the SDK a byte stream, and sends repeating reads under
real-time rules. This project models those parts and proves what they are for.

- `Bytes`, `Utf8`, `LynxCommands`, `Packets`: the wire format. All payload kinds, module-relative command ids, the frame with its
  length and checksum, both encoders, the decoder with its refusals and its panics.
- `FrameReader`, `UsbHandler`: the serial and USB read threads as machines over the bytes of the port and a reused
  buffer, the thread classes with their in-place buffers, and the two writers.
- `MessageIds`, `Proxies`, `ReplyRouting`, `RequestOrder`, `RoutingExact`, `PromptReplies`: the timestamp table ids are drawn from, the
  write and read proxy with their shared watch list and start-up phase, the whole proxy as a step system in which every
  interleaving is a run, what of its requests reaches the wire, exactly which reads and which starts make a run go wrong, and what late replies do to it.
- `SdkStream`, `SdkWrites`: the SDK's two directions: its byte stream with the one-off misalignment, and its packets on
  their way through the interceptors.
- `EndToEnd`: frame reader, proxy and byte stream in a row, from the hubs' wire to what the SDK reads.
- `RepeatingScheduler`, `SchedulerRuns`, `TimerHandshake`: slot arithmetic, planning, the timer thread over runs, the
  grouping of `set_orders`, and the scheduler's own class with its two channel ends and the handshake that replaces a
  timer thread.
- `Rs485Lockout`, `WorkerPool`, `MotorCache`, `I2CDevice`, `MovingAverage`: the small protocols and caches.

How it is put together: each operation the program performs by changing state is a class method or a method with a loop,
proved equal to a function or predicate on values; the theorems are lemmas about those functions, over all inputs or over
all runs of a step system. The clock is a supply of readings, a channel is a sequence, the hub globals are a module table,
and the panics that what arrives on a wire or what another thread does can cause are outcomes (`Panics`, `Died`,
`Panicked`), not preconditions; the few that only an oversized batch or a wrong index can cause are listed under
"Left out". History variables, where a state has them, are only written.

What was found to be false, or true only under a condition, is stated as an equivalence with its exact condition:

- A frame stream is read back exactly only if the noise before it does not end inside a lock attempt (`68 68 75` is not
  recognised as a frame start), and only up to a packet that kills the thread: the serial thread panics on its 52nd packet
  if no hub is initialised by then, the USB thread on a Nack with an undefined reason or an interface name that is not
  UTF-8: `StreamRoundTrip`, `DamageIsLocal`, `AllReadWhenSurvived`, `WriteThenRead`.
- The two writers agree exactly when every stored checksum is right, which the write proxy sees to: `WritersAgree`.
- A command comes back as it was encoded exactly when it is canonical; the count of a read response is cut to a byte:
  `LynxRoundTripExactly`, `LongReadCut`.
- A PIDF coefficient of -2^31 cannot be sent on, and makes the encoder panic: `PidfFixedPoint`, `DecodedEncodable`.
- The id table counts 0, 1, ..., 254, 0, ... exactly when every due slot was last stamped before its turn began with slot
  0; a clock that only never goes back is not enough: `FollowsExactly`, `StalledClockRepeats`.
- The read proxy takes the first packet it sees for the one the SDK was waiting for. So routing is right in every run from
  a start exactly when such a reply is pending there. When none is, the first reply goes to the SDK without its number
  restored, and the entry of this answered request stays on the list for good: `RoutedExactlyWhenPending`,
  `FirstReplyUnrestored`. In start-up a reply equal to the pending one is passed on as it is, which is right exactly when it
  is the SDK's and needs no renumbering: `ReadDeliversExactly`.
- With nothing assumed about hubs, clock or start, a run is routed right throughout exactly when each of its reads is: a
  token takes only a reply of Blaze's, start-up only the pending reply or one the SDK wants as it is, and after it the
  first entry with the reply's number is its request's own, or there is none and the reply is Blaze's: `RoutedExactly`,
  `RightReadDelivers`.
- An unanswered SDK request leaves an entry that takes the reply of a later request under the same id. From a start with a
  reply pending, replies are routed right in every run in which each is read before the 255th draw after its request's; a
  draw hits an outstanding id exactly when that limit is overstepped, and a run in which the SDK is handed Blaze's reply is
  exhibited: `RoutingWhenPrompt`, `PromptExactly`, `StaleEntryReached`, `StaleEntryMisroutes`.
- A group other than the best one is planned with it exactly when it is due before every lone group (one within the 250 us
  with nothing due in the 50 us before it) and there is a lone group, so a tight cluster with nothing after it is split up:
  `NeighbourPlanned`, `PairSplitUp`.
- The one-hour sentinel is planned instead of a slot when all slots lie beyond it: `SentinelExact`,
  `TwoHourOffsetPlannedEarly`.
- On an RS485 hub exactly those give-ups are forced through that come at least 26 ms after the give-up before them, whoever
  gave up; none is exactly when they crowd, and then only a reply's token lets a sender go on. A sender waits 25 ms, so one
  on its own is forced through at the first waking that is at least 1 ms late and otherwise starts over, any number of
  times. A give-up also logs three packets, and dies if one of them cannot be formatted: `ForcedExactly`,
  `CrowdedNeverForced`, `ThroughWhenLate`, `NeverThroughReached`, `Await`.
- A batch of motor powers on an RS485 hub is refused after the cache was changed; a stop lost that way is never sent by
  later single requests: `BatchOverRs`, `RefusedStopSticks`.
- An I2C reply of an unexpected kind passes on but drops the tracked id, ending the poll; a one-byte register write sends
  the register in place of the byte. A tracked Nack with an undefined reason panics after the new query went out:
  `PassingIsTransparent`, `WriteKeepsData`, `TryInterpretResponse`.

`dafny verify dfyconfig.toml` checks the project.

## Model

| member | source | states |
|---|---|---|
| `Bytes.BSChecksum.ConsumeBytes` | src/serialization/packet.rs:192-210 | consuming bytes adds their total to the value modulo 256, whatever it was |
| `Bytes.OneByteSeen` | src/serialization/packet.rs:192-210 | changing one byte of a sequence always changes its checksum |
| `Packets.ComputeChecksum` | src/serialization/packet.rs:136-149 | feeding the fields one after the other gives the byte total of the encoded header and payload modulo 256 |
| `LynxCommands.LynxLenAgrees` | src/serialization/lynx_commands/base_lynx_command.rs:92-110 | for every payload kind the declared length is the number of bytes its encoder writes |
| `LynxCommands.LynxRoundTrip` | src/serialization/lynx_commands/base_lynx_command.rs:146-193 | decoding what any encoder wrote, under its own id, gives the command back: the if-else chain never takes a wrong branch |
| `LynxCommands.LynxRoundTripExactly` | src/serialization/lynx_commands/base_lynx_command.rs:92-193 | a command that can be encoded comes back as it was if and only if its read data has at most 255 bytes, its coefficients are multiples of 2^-16 and it is no unknown command under a known id |
| `LynxCommands.LongReadCut` | src/serialization/lynx_commands/lynx_commands.rs:648-667 | a read response with more than 255 bytes of data decodes to its first (length mod 256) bytes: the count is cut to a byte |
| `LynxCommands.LynxReencode` | src/serialization/lynx_commands/base_lynx_command.rs:92-193 | a decoded command keeps its id and re-encodes to the part of the payload its decoder read, boolean and speed bytes normalised |
| `LynxCommands.DecodePanicsExactly` | src/serialization/lynx_commands/base_lynx_command.rs:146-193 | a payload makes the decoders panic exactly when it is shorter than what they read or holds a number outside its enumeration; an undefined I2C speed becomes the unknown one |
| `LynxCommands.LynxTransparent` | src/serialization/lynx_commands/base_lynx_command.rs:92-193 | decode then encode is the identity on a payload if and only if it has the exact length and normalised boolean and speed bytes |
| `LynxCommands.CoefficientNearest` | src/serialization/lynx_commands/lynx_commands.rs:689-691 | any coefficient goes out as the nearest multiple of 2^-16, halves away from zero, and panics exactly when that is 32768 or more in size |
| `LynxCommands.PidfFixedPoint` | src/serialization/lynx_commands/lynx_commands.rs:689-694 | the 16.16 conversion to a coefficient and back is defined, and then the identity, exactly for every i32 except the minimum |
| `LynxCommands.BulkRoundTrip` | src/serialization/lynx_commands/lynx_commands.rs:267-316 | the 34 bytes of bulk data (interleaved motor fields apart) decode to the record they encode |
| `Packets.CommandLenAgrees` | src/serialization/command.rs:78-131 | the declared length of every command equals its encoded size |
| `Packets.CommandRoundTrip` | src/serialization/command.rs:57-77 | the standard decoders, the modules and the fallback together return the encoded command, none pre-empting another |
| `Packets.IdBack` | src/serialization/command.rs:57-77 | a decoded command stands for the id it came under, except an Ack, Nack or keep-alive that came with the response bit set |
| `Packets.FrameLayout` | src/serialization/packet.rs:150-184 | where each field of a packet is in its encoding, byte by byte and least significant first, and that the last byte is the total of the others modulo 256 |
| `Packets.PacketRoundTrip` | src/serialization/packet.rs:92-184 | decoding an encoded well-formed packet returns it, whatever stale bytes follow in the buffer, and the length field is the encoded size |
| `Packets.EncodingInjective` | src/serialization/packet.rs:166-184 | no two well-formed packets share an encoding |
| `Packets.DecodedFrame` | src/serialization/packet.rs:92-135 | only frames whose byte sum fits are decoded, and the packet's fields are the frame's |
| `Packets.RefusedExactly` | src/serialization/packet.rs:92-116 | the decoder gives None exactly for data that does not start with 68 75, or whose length field lies within it and whose sum does not fit |
| `Packets.DecodedExactly` | src/serialization/packet.rs:92-135 | it gives a packet exactly for a frame with a sum that fits, at least 11 bytes and a payload that decodes; on all else it panics |
| `Packets.PrintableExactly` | src/serialization/command.rs:96-115 | a packet cannot be formatted if and only if it is a Nack with code 19, 29, 32-39, 47-49 or 53-252, or an interface name that is no UTF-8 text up to its first NUL |
| `Packets.ModuleIdsSurvive` | src/serialization/command_utils.rs:73-94 | with a range below the standard ids, adding the module base is undone by exactly one of the command and response tests |
| `Packets.ModuleIdsExactly` | src/serialization/command_utils.rs:73-94 | for every module and id: which relative command and response ids there are, and that they are the id less the base, ranges past sixteen bits included |
| `Packets.RouteExactly` | src/serialization/lynx_commands/base_lynx_command.rs:113-145 | a packet is module m's under relative id r if and only if its id is m's base plus r and it was sent to m with r a command, or to no module from m with r a response |
| `Packets.BuiltSealed` | src/serialization/packet.rs:73-88 | new_full sets every field as given, the id and a right checksum, and a right length exactly when the payload has at most 65524 bytes |
| `Packets.BuiltCommandWellFormed` | src/serialization/packet.rs:73-88 | a module command built by new_full meets everything the round trip asks for |
| `Packets.BuiltResponseWellFormed` | src/serialization/packet.rs:73-88 | the same for a response of a module to an address that is no module's |
| `Utf8.Utf8Exactly` | src/serialization/command.rs:113-115 | the names that can be formatted are, up to the first NUL, exactly the UTF-8 encodings of texts |
| `Packets.FrameTransparent` | src/serialization/packet.rs:92-184 | decode then encode is the identity on a frame if and only if nothing follows the frame and its payload is in normal form |
| `Packets.RelayTransparent` | src/sdk_proxy/send_proxy.rs:94-115 | relaying bytes under a new id changes the two numbers and the checksum and nothing else, if and only if the frame is normal |
| `Packets.ReplyPatched` | src/sdk_proxy/read_proxy.rs:82-91 | a reply handed to the SDK under its old number encodes to the hub's frame with both numbers and the checksum patched |
| `Packets.DecodedEncodable` | src/serialization/lynx_commands/lynx_commands.rs:689-743 | a decoded packet can be encoded again unless one of its four PIDF words is the minimal i32, judged on the received bytes |
| `FrameReader.StreamRoundTrip` | src/threads/read.rs:39-126 | after noise with no frame start in it, a list of frames is read back exactly, in order, with no loss of lock and no byte left over, if and only if the noise does not end inside a lock attempt and no packet kills the thread |
| `FrameReader.QuietNoiseIsClean` | src/threads/read.rs:109-126 | noise without the first frame byte never ends inside a lock attempt |
| `FrameReader.RejectDamaged` | src/serialization/packet.rs:105-116 | a frame of the right length with a wrong checksum is refused, whatever follows it |
| `FrameReader.OneByteRefused` | src/serialization/packet.rs:92-116 | a well-formed frame with any one byte changed that is not in its length field is refused, whatever follows it |
| `FrameReader.DamageIsLocal` | src/threads/read.rs:39-107 | of any mix of good frames, frames with a wrong checksum, and noise between them, exactly the good frames are read in order, and the lock is lost once per damaged frame and per stretch of noise met under it, from any buffer contents, locked or not; all this up to the first frame that kills the thread |
| `FrameReader.LockRegained` | src/threads/read.rs:58-72 | a locked reader that meets bytes starting no frame gives up its lock once and reads all the frames that follow, on either port, if and only if none kills it |
| `FrameReader.FourBytesLost` | src/threads/read.rs:58-72 | in particular after any four such bytes on the serial port |
| `FrameReader.RuntFrame` | src/threads/read.rs:73-83 | a frame of 4 to 9 bytes kills the serial thread exactly when its sum fits, and otherwise costs the lock |
| `FrameReader.ReadInPieces` | src/threads/read.rs:43-107 | how the bytes are cut up on arrival makes no difference: what was read stays, the rest is read as if it followed the unread bytes, and a dead thread stays dead |
| `FrameReader.AllReadWhenSurvived` | src/threads/read.rs:90-104 | everything is read if and only if no frame makes the decoder panic and no good one comes as the 52nd packet or later with no hub initialised, or on USB cannot be formatted |
| `FrameReader.FrontIrrelevant` | src/threads/read.rs:58-66 | what the reused buffer holds in its first four bytes never matters |
| `FrameReader.EmittedBytes` | src/threads/read.rs:43-107 | on any input whatever, the packets read account for no more bytes than arrived, frame bytes of a lock just taken included |
| `FrameReader.ReadThread.AttemptLock` | src/threads/read.rs:109-126 | one or two bytes are consumed and the rest of the port is read as the specification reads it from the new state |
| `FrameReader.ReadThread.ReadFrame` | src/threads/read.rs:58-106 | the in-place header, growth, body and decode steps do what one locked pass of the specification does, buffer contents, packet count and the panic after 50 packets without a hub included |
| `FrameReader.ReadThread.Run` | src/threads/read.rs:39-107 | the thread sends exactly the packets, loses lock exactly as often, and dies exactly when the specification says |
| `UsbHandler.WritersAgree` | src/threads/usb_handler.rs:38-49 | the USB and UART writers put the same bytes on the wire if and only if every stored checksum is right |
| `UsbHandler.SealedAgree` | src/sdk_proxy/send_proxy.rs:81-91 | for a batch whose checksums were recomputed, as the write proxy does with every batch, both writers put the same bytes on the wire |
| `UsbHandler.WriteThenRead` | src/threads/usb_handler.rs:38-49 | what the USB writer puts on the wire for well-formed packets, a reader on either port reads back exactly and without losing lock, if and only if none of the packets kills that reader |
| `UsbHandler.Encode` | src/serialization/packet.rs:150-164 | encode fills exactly its region of the buffer, leaves the rest alone and returns where the rest starts |
| `UsbHandler.WritePackets` | src/threads/usb_handler.rs:38-49 | the regions are adjacent from the start of the buffer and together are the stored encodings; nothing beyond them is touched |
| `UsbHandler.ConvByteVec` | src/serialization/packet.rs:224-231 | the UART writer's bytes are the concatenated recomputed encodings |
| `UsbHandler.ReadThread.TryLock` | src/threads/usb_handler.rs:86-108 | a turn of the byte-wise lock loops is one lock attempt of the specification |
| `UsbHandler.ReadThread.DoRead` | src/threads/usb_handler.rs:117-133 | exactly the asked-for region of the buffer is overwritten with the next bytes of the wire |
| `UsbHandler.ReadThread.ReadFrame` | src/threads/usb_handler.rs:109-115 | header, body, decode and print in the fixed buffer do what a locked pass does on a USB port, death on a packet that cannot be formatted included |
| `UsbHandler.ReadThread.Run` | src/threads/usb_handler.rs:58-116 | the USB reader sends exactly the packets, loses lock exactly as often, and dies exactly when the shared reader specification says for a USB port |
| `MessageIds.MessageList.RegisterPacket` | src/sdk_proxy/send_proxy.rs:13-33 | the first slot among the oldest is returned (slot 0 when none is older than the clock) and only it is stamped |
| `MessageIds.MessageList.RegisterPackets` | src/sdk_proxy/send_proxy.rs:34-41 | a batch is that many single draws in a row |
| `MessageIds.DrawIsNext` | src/sdk_proxy/send_proxy.rs:13-29 | while the clock ticks the oldest slot is the next one of the rotation and no other, and stamping it rotates the table by one |
| `MessageIds.TableIsACounter` | src/sdk_proxy/send_proxy.rs:13-53 | the k-th id ever drawn is k mod 255, by single and batch calls in any mix |
| `MessageIds.ConsecutiveDrawsDistinct` | src/sdk_proxy/send_proxy.rs:13-53 | two draws get the same id if and only if they are a multiple of 255 apart |
| `MessageIds.BatchDistinct` | src/sdk_proxy/send_proxy.rs:34-41 | from any point of the rotation, a batch of at most 255 gets pairwise distinct ids |
| `MessageIds.NoEarlyRedraw` | src/sdk_proxy/send_proxy.rs:13-53 | an id is not handed out again within 255 draws, single or batch, from any point of the rotation |
| `MessageIds.DueSlotDrawn` | src/sdk_proxy/send_proxy.rs:13-29 | in a rotated table the due slot is drawn if and only if it was stamped before the scan's clock reading or is slot 0 |
| `MessageIds.DueSlotExact` | src/sdk_proxy/send_proxy.rs:13-29 | when slots may share stamps, the due slot is drawn if and only if it is slot 0, or older than both the reading and slot 0 |
| `MessageIds.FollowsExactly` | src/sdk_proxy/send_proxy.rs:13-53 | with a clock that never goes back, the k-th id is k mod 255 for all k if and only if every due slot was last stamped before its turn's draw of slot 0 |
| `MessageIds.StalledClockRepeats` | src/sdk_proxy/send_proxy.rs:13-29 | the condition can fail: two draws at the instant the table was made get the same id |
| `Proxies.ReadProxy.Receive` | src/sdk_proxy/read_proxy.rs:32-93 | the loop body in place (phase fields, shared list, tokens, the two out-channels) is one step of the routing specification |
| `Proxies.WriteProxy.SendRegular` | src/sdk_proxy/send_proxy.rs:81-91 | Blaze batches go out in order with only the checksums recomputed, empty ones not at all |
| `Proxies.WriteProxy.SendSdk` | src/sdk_proxy/send_proxy.rs:92-115 | an SDK packet draws one id, is recorded under it, and goes out with both numbers replaced and the checksum right |
| `Proxies.PrepareSendPackets` | src/control/hardware.rs:145-173 | each packet of a batch gets its own drawn id in both numbers and a right checksum |
| `ReplyRouting.RoutingOverRuns` | src/sdk_proxy/read_proxy.rs:32-93 | in every run from a start with a legacy reply pending, under the five assumptions of `Enabled`: the SDK receives exactly the replies to its own requests, each once, in order, numbers restored; Blaze exactly its own, unchanged; the watch list is exactly the unanswered SDK requests under distinct ids |
| `ReplyRouting.NothingLeftBehind` | src/sdk_proxy/read_proxy.rs:62-92 | in such a run, when every request has been answered and read, the list, the outstanding ids and the tokens are all used up |
| `ReplyRouting.ReadDelivers` | src/sdk_proxy/read_proxy.rs:32-93 | in any state such a run reaches, the read proxy routes the next reply as if each client had an id space of its own, start-up and interface queries included |
| `ReplyRouting.ReadDeliversExactly` | src/sdk_proxy/read_proxy.rs:32-93 | with a reply that may equal the legacy one, the read is right if and only if start-up does not take it for that one, or it is the SDK's and needs no renumbering |
| `ReplyRouting.StepKeeps` | src/sdk_proxy/send_proxy.rs:79-117 | every step of either proxy, of a client or of a hub keeps the routing invariant |
| `RequestOrder.SdkRequestsInOrder` | src/sdk_proxy/send_proxy.rs:92-115 | in any run the requests of the SDK reach the wire in the order it wrote them, each under the id drawn for it, its checksum right and otherwise unchanged, and the others are still queued |
| `RequestOrder.BlazeRequestsInOrder` | src/sdk_proxy/send_proxy.rs:81-91 | in any run the batches of Blaze reach the wire whole and in the order they were handed over, with only the checksums recomputed, and the others are still queued |
| `RoutingExact.RightReadDelivers` | src/sdk_proxy/read_proxy.rs:32-93 | in any state whatever, reading the next reply gives each client what it should see of it if and only if a token takes only replies of Blaze's, start-up only the legacy one or one of the SDK's under its own number, and otherwise the first entry with the reply's number gives back the request's, or there is none and the reply is Blaze's |
| `RoutingExact.RoutedExactly` | src/sdk_proxy/read_proxy.rs:32-93 | from any routed state, whatever the hubs answer and however ids are drawn: at every point of a run each client has received exactly what it should of the replies read, if and only if every read of the run is right |
| `RoutingExact.RunsAreRight` | src/sdk_proxy/send_proxy.rs:79-117 | under the assumptions, from a start with a legacy reply pending, every read of every run is right |
| `RoutingExact.FirstReplyUnrestored` | src/sdk_proxy/read_proxy.rs:39-48 | a run from a start with no reply pending: the SDK's request is answered at once, the answer reaches the SDK without its number restored, and the entry stays on the list with nothing left on the wire |
| `RoutingExact.RoutedExactlyWhenPending` | src/sdk_proxy/read_proxy.rs:32-93 | replies are routed right in every run from a start, all assumptions met, if and only if the start has a legacy reply pending |
| `PromptReplies.RoutingWhenPrompt` | src/sdk_proxy/read_proxy.rs:32-93 | in every run in which each reply is read before the 255th draw after its request's, with nothing assumed about the ids, no step draws an outstanding id; from a start with a legacy reply pending, replies are then routed as if each client had its own ids |
| `PromptReplies.PromptExactly` | src/sdk_proxy/send_proxy.rs:13-41 | a step draws an outstanding id if and only if after it more than 255 ids were drawn since some outstanding request, its own included |
| `PromptReplies.StaleEntryReached` | src/sdk_proxy/read_proxy.rs:62-92 | a run: the SDK's request goes unanswered, 255 more ids are drawn, and the one reply, to Blaze, is handed to the SDK under its old number |
| `PromptReplies.StaleEntryMisroutes` | src/sdk_proxy/read_proxy.rs:34-92 | after start-up a packet reaches Blaze unchanged if and only if no entry of the list has its number or it is an interface response a token waits for |
| `SdkStream.StreamOverRuns` | src/sdk_proxy/proxy.rs:75-130 | in every run, dropped prefix, returned bytes and queued bytes are together the encodings of the packets taken, in order of arrival; the drop happens once and the first read settles its size |
| `SdkStream.ReadKeeps` | src/sdk_proxy/proxy.rs:75-130 | every read of len > 0 returns 1 to len bytes, all from one packet and fewer than len only up to that packet's end, and drops bytes only when it is the first |
| `SdkStream.FirstReadShows` | src/sdk_proxy/proxy.rs:98-130 | of the first packet, a first read of one byte returns the byte 68, one of two the length field, dropping 68 75, and one of any other length what follows the first four bytes, dropping these |
| `SdkStream.ByteProxy.Read` | src/sdk_proxy/proxy.rs:75-130 | refill, first-read drop and drain loop return what the stream specification outputs and leave its next state |
| `SdkStream.ByteProxy.Deliver` | src/sdk_proxy/proxy.rs:20-28 | a packet sent to the SDK's channel arrives in the stream as its encoding |
| `SdkWrites.SdkWriter.Write` | src/sdk_proxy/proxy.rs:57-74 | the interceptor loop is the chain specification; the packet it leaves, if any, first waits for the line of an RS485 hub and then is sent, in this order; a swallowed one does neither |
| `SdkWrites.ChainComposes` | src/sdk_proxy/proxy.rs:61-66 | interceptors installed in two goes act as the second chain on what the first lets through, answers in order |
| `SdkWrites.ChainByTurns` | src/sdk_proxy/proxy.rs:61-66 | the chain is its interceptors in turn: the packet is what the last made of it, and the SDK gets the answers of exactly those called, in order, the one that swallows the packet included |
| `SdkWrites.LostWhereSwallowed` | src/sdk_proxy/proxy.rs:61-66 | a packet is lost if and only if some interceptor swallows what those before it made of it |
| `EndToEnd.SdkReadsItsAnswers` | src/sdk_proxy/proxy.rs:75-130 | for any frames on the hubs' wire, some damaged, and any run of the proxy from any start on the packets read from them (up to one that kills the reader) in which every read is right: what the SDK's stream drops, returns and holds is the undamaged frames that answer its own requests, in order, numbers and checksum patched |
| `EndToEnd.FirstPacketGetsThrough` | src/sdk_proxy/read_proxy.rs:32-48 | such sessions exist: the packet the SDK was waiting for, if it does not kill the reader, is read off the wire, routed and delivered |
| `EndToEnd.ViewIsAnswers` | src/sdk_proxy/read_proxy.rs:82-91 | encoding what the SDK is to see of the replies gives the hubs' own frames, patched for its own requests |
| `RepeatingScheduler.WhenWouldRun` | src/threads/repeating_scheduler.rs:151-165 | the catch-up loop terminates with the group's next slot |
| `RepeatingScheduler.NextSlotIsLeast` | src/threads/repeating_scheduler.rs:159-164 | the next slot is on phase and no earlier slot of the phase is at or after now |
| `RepeatingScheduler.NextSlotLater` | src/threads/repeating_scheduler.rs:159-164 | looking again later, from the old base or from the slot found before, gives the same slot |
| `RepeatingScheduler.FindBest` | src/threads/repeating_scheduler.rs:224-234 | least index of the least slot below the sentinel, or index 0 at the sentinel |
| `RepeatingScheduler.CollectNear` | src/threads/repeating_scheduler.rs:245-253 | exactly the other groups due within 250 us, once each, in index order |
| `RepeatingScheduler.SortByTime` | src/threads/repeating_scheduler.rs:255-257 | the same entries by time, ties in index order |
| `RepeatingScheduler.Cut` | src/threads/repeating_scheduler.rs:259-269 | everything up to the first gap above 50 us, or only the best entry when there is no such gap |
| `RepeatingScheduler.GetNextTimer` | src/threads/repeating_scheduler.rs:223-270 | returns such a plan and changes only the best group's last slot |
| `RepeatingScheduler.PlanCorrect` | src/threads/repeating_scheduler.rs:223-270 | with a slot before the sentinel: the plan starts with the least-index earliest group, gives every entry its group's true next slot, repeats none, and is in order of time and then index with gaps of at most 50 us, all within 250 us |
| `RepeatingScheduler.PlanExists` | src/threads/repeating_scheduler.rs:223-270 | whatever the groups and the clock, there is a plan |
| `RepeatingScheduler.NeighbourPlanned` | src/threads/repeating_scheduler.rs:241-269 | a group other than the best one is in the plan, at its slot, if and only if some group due within the 250 us has nothing due in the 50 us before it, and the group is due before every such group |
| `RepeatingScheduler.PairSplitUp` | src/threads/repeating_scheduler.rs:241-269 | two groups 10 us apart with nothing after them: the plan holds the first alone |
| `SchedulerRuns.SlotsOverRuns` | src/threads/repeating_scheduler.rs:167-219 | in every run each slot sent is start + offset + k * rate and not sent early, and a group's slots increase by positive multiples of its rate: no drift, no repeat |
| `SchedulerRuns.PlannedThenSent` | src/threads/repeating_scheduler.rs:206-213 | in every run the plans, one after the other, are what was sent followed by what of the last plan is still to be sent: each planned entry is sent exactly once, in order, before the next planning |
| `SchedulerRuns.GoesOn` | src/threads/repeating_scheduler.rs:177-219 | in any state a run reaches, the next planned entry can be sent at exactly the readings from its time on, and with none left the thread can plan again |
| `SchedulerRuns.PassedOverWhenLate` | src/threads/repeating_scheduler.rs:151-219 | in every run each slot sent is the first of its group's phase at or after the clock reading of some planning, so every slot it passes over had passed before that planning |
| `SchedulerRuns.LostOnlyByLateness` | src/threads/repeating_scheduler.rs:213-236 | a group not heading the plan keeps its next slot at any later planning unless it has passed; then it moves to the least later slot of the phase |
| `SchedulerRuns.BestMovesOn` | src/threads/repeating_scheduler.rs:236-236 | the group heading the plan moves on by at least one rate, on phase |
| `SchedulerRuns.ReplanKeeps` | src/threads/repeating_scheduler.rs:223-270 | with offsets and rates under an hour, replanning keeps the run invariant and always finds a slot before the sentinel |
| `SchedulerRuns.SentinelExact` | src/threads/repeating_scheduler.rs:226-236 | the head of a plan is a true slot if and only if some group is due before the sentinel or the first group exactly on it |
| `SchedulerRuns.TwoHourOffsetPlannedEarly` | src/threads/repeating_scheduler.rs:226-236 | a lone group with a two-hour offset is planned an hour early |
| `TimerHandshake.GroupOrders` | src/threads/repeating_scheduler.rs:49-70 | rejects exactly more than 10 orders, then exactly a rate under 500 us; otherwise the groups partition the orders by offset and rate, each in original order |
| `TimerHandshake.AddOrder` | src/threads/repeating_scheduler.rs:63-69 | one more order joins the group with its key or opens a new one, and the groups still partition the orders |
| `TimerHandshake.OneTimerThread` | src/threads/repeating_scheduler.rs:41-86 | in every run of the calls and the threads at most one timer thread runs, a new one is started only after all earlier ones confirmed or died, and a waiting call can return or the running thread has a kill to answer |
| `TimerHandshake.MessagesKept` | src/threads/repeating_scheduler.rs:41-86 | a message enters a channel only by a send that someone is left to receive and leaves it only by a receive |
| `TimerHandshake.Scheduler.SetOrders` | src/threads/repeating_scheduler.rs:49-86 | orders that are too many or too fast are refused with nothing changed; none stop the timer; otherwise two channels, kill_and_wait and a new thread on the far ends, running the orders grouped, are the steps of the handshake in that order |
| `TimerHandshake.Scheduler.KillAndWait` | src/threads/repeating_scheduler.rs:41-48 | sending, waiting and receiving, and both ends of a new channel kept, are the handshake's steps, whatever the threads do meanwhile |
| `TimerHandshake.Scheduler.constructor` | src/threads/repeating_scheduler.rs:31-37 | a new scheduler keeps both ends of one channel |
| `TimerHandshake.ReturnsAtOnce` | src/threads/repeating_scheduler.rs:31-48 | in any reachable state kill_and_wait returns without any thread acting if and only if none is running |
| `TimerHandshake.ReturnsOnceConfirmed` | src/threads/repeating_scheduler.rs:192-218 | with a thread running it returns once that thread found the kill and confirmed it |
| `Rs485Lockout.Lockout.Await` | src/control/hardware.rs:121-144 | one pass of a sender ends on the token, or without one 25 ms after it began; then the last reset becomes now and, unless writing the log entry panics, the sender goes on if and only if the reset before was at least 26 ms old and else waits again from now; token and reset time change as the step system says |
| `Rs485Lockout.Lockout.NotifyReceive` | src/control/hardware.rs:110-120 | a received packet leaves exactly one token |
| `Rs485Lockout.LockoutOverRuns` | src/control/hardware.rs:110-144 | in every run 1 <= token + unanswered <= 1 + forced continuations, those lie more than 25 ms apart, and without any at most one request is on the line |
| `Rs485Lockout.WaitsKept` | src/control/hardware.rs:121-142 | no sender is lost or waits twice: a step ends only the wait of its own sender, and begins one only for a newcomer or after a give-up less than 26 ms after the last |
| `Rs485Lockout.ForcedExactly` | src/control/hardware.rs:127-142 | in every run exactly the give-ups at least 26 ms after the give-up before them, whoever's that was, are forced through, except those that die logging |
| `Rs485Lockout.CrowdedNeverForced` | src/control/hardware.rs:127-142 | a run forces nothing through if and only if each of its give-ups comes less than 26 ms after the one before or dies logging |
| `Rs485Lockout.LoneSender` | src/control/hardware.rs:121-142 | a lone sender that gave up before is forced through at its next give-up that can be logged if and only if it wakes at least 1 ms after its 25 ms |
| `Rs485Lockout.ThroughWhenLate` | src/control/hardware.rs:121-142 | in every run of a lone sender's wakings it gets through at the first one at least 1 ms late and not before |
| `Rs485Lockout.NeverThroughReached` | src/control/hardware.rs:121-142 | from a new hub, after one unanswered request, the next sender gives up any number of times without getting through, if each waking is less than 1 ms late |
| `WorkerPool.Scheduler.SchedulePacket` | src/threads/scheduler.rs:15-25 | the locked body is the three steps count, staff and enqueue in a row, and spawns exactly when threads are fewer than outstanding packets |
| `WorkerPool.Scheduler.RunOnce` | src/threads/scheduler.rs:47-64 | a worker's round takes the oldest queued packet and is the three steps receive, fire and finish in a row |
| `WorkerPool.PoolSuffices` | src/threads/scheduler.rs:15-64 | in every interleaving outstanding = being scheduled + queued + held, threads = the most packets outstanding at any point so far (except between a caller's count and its staffing), idle workers are at least the queued packets, and a queued packet can be received |
| `WorkerPool.FirstComeFirstServed` | src/threads/scheduler.rs:15-64 | in every interleaving the packets received by workers, those queued and the one being scheduled are, in this order, the packets scheduled |
| `WorkerPool.PacketsConserved` | src/threads/scheduler.rs:15-64 | each time a packet was scheduled it is in exactly one place or was sent once, and never before its time |
| `WorkerPool.SentAsFired` | src/threads/scheduler.rs:47-64 | the packets sent and the times of sending are those of the run's firing steps, in order |
| `MotorCache.MotorHub.SendMotorCommandI16` | src/control/hardware.rs:219-233 | a request is dropped exactly when caching is on, the old power differs by at most the threshold, and it is not a stop of a turning motor; else it is sent and cached; no other motor is touched |
| `MotorCache.MotorHub.SendMotorCommandsI16` | src/control/hardware.rs:244-263 | a batch is the single requests in motor order; on an RS485 hub only their cache remains and the call fails exactly when it had something to send |
| `MotorCache.BatchCommands` | src/control/hardware.rs:244-259 | a batch adds at most one command per motor, in motor order, each the requested power and none that the old cache would drop |
| `MotorCache.RepeatIsFree` | src/control/hardware.rs:219-233 | a repeated request sends nothing if and only if caching is on |
| `MotorCache.SentWhenItMatters` | src/control/hardware.rs:221-227 | with caching, a request is dropped if and only if the last power sent differs from it by at most the threshold, either way, and the request is not a stop of a turning motor |
| `MotorCache.FaithfulOverRuns` | src/control/hardware.rs:219-263 | on a USB hub, after any calls under any settings, each cached power is the last power sent, and the last call's powers are met within the threshold, zero exactly |
| `MotorCache.BatchOverRs` | src/control/hardware.rs:174-178 | on an RS485 hub a batch keeps the cache faithful if and only if it asks for nothing that differs from the cache and would be sent |
| `MotorCache.RefusedStopSticks` | src/control/hardware.rs:174-178 | a stop refused in a batch is never sent by any number of later single stops |
| `I2CDevice.InFlight.IsPif` | src/serialization/i2c_comms/i2c_device.rs:62-69 | answers whether the id is tracked and takes off its first occurrence only |
| `I2CDevice.InFlight.TryInterpretResponse` | src/serialization/i2c_comms/i2c_device.rs:70-110 | list, queries and result are those of the specification, the panic on a Nack whose reason is undefined after the query was sent included, and the scheduler is warned exactly of a tracked Nack |
| `I2CDevice.InFlight.MaybeConsumePacket` | src/serialization/i2c_comms/i2c_device.rs:122-134 | handlers see exactly tracked read data, the packet goes on exactly when it was not used up, and the call panics exactly on a tracked Nack with an undefined reason |
| `I2CDevice.AnswersExactly` | src/serialization/i2c_comms/i2c_device.rs:70-110 | for every packet exactly when it is delivered as data, answered with a new query, a panic, or passed on |
| `I2CDevice.ListAfter` | src/serialization/i2c_comms/i2c_device.rs:56-110 | a packet takes its number off the list once if tracked, and an Ack or Nack puts the new query's on once |
| `I2CDevice.InFlightConserved` | src/serialization/i2c_comms/i2c_device.rs:56-110 | in every run tracked = added - delivered - strays, and answered = queried + delivered + strays: each Ack or Nack is paid back by one query |
| `I2CDevice.IdsConserved` | src/serialization/i2c_comms/i2c_device.rs:56-110 | id by id, every time an id was tracked it is still tracked or was answered |
| `I2CDevice.PassingIsTransparent` | src/serialization/i2c_comms/i2c_device.rs:70-104 | a packet that passes is unchanged, and leaves the list alone if and only if its number is not tracked |
| `I2CDevice.DistinctStep` | src/serialization/i2c_comms/i2c_device.rs:56-110 | the list stays free of repeats if and only if the id an event brings in is not then tracked |
| `I2CDevice.WriteKeepsData` | src/serialization/i2c_comms/i2c_device.rs:26-43 | two register writes look the same on the bus if and only if they are the same write, or one-byte writes to the same register |
| `I2CDevice.WriteBytes` | src/serialization/i2c_comms/i2c_device.rs:26-43 | the bytes of a register write: bus, address, and the register alone for one byte of data, else a count, the register and the data; more than 254 bytes panic |
| `MovingAverage.MovingAverage.Update` | src/lib.rs:586-592 | the circular buffer holds the last n inputs in rotated order and the running total is their sum |
| `MovingAverage.AverageWithin` | src/lib.rs:583-585 | the average never leaves the range of the last n inputs |
| `MovingAverage.Truncates` | src/lib.rs:583-585 | the average is exact up to its fraction, which is cut off towards zero |
| `MovingAverage.WindowAt` | src/lib.rs:586-592 | the window is the last n inputs in order, with zeros for those before the first |
| `MovingAverage.SubtractionSafe` | src/lib.rs:586-588 | for unsigned inputs the subtraction in update never goes below zero |

## Left out

- The JNI entry points and callbacks, class loading, serial port setup, thread priorities, core pinning, logging and actual sleeping: foreign calls with no logic of their own.
- Development-profile overflow panics: `u16` additions of module bases wrap, as in the release profile.
- Floating point: PIDF coefficients are reals; the 16.16 conversion of a received word is exact in `f64` as well, but rounding of coefficients a user chose is not modelled. The float scaling in `send_motor_command` and `send_servo_command` is not part of this model.
- `read_i32s`, `read_i16s` and the growing vectors of the payload encoders: their loops are unrolled into expressions.
- `SdkWrites.SdkWriter.Write`: interceptors are arbitrary functions of the packet; state they keep between packets is not modelled.
- The servo module's parent lookup, and the choice of hub for an SDK packet: a packet arrives at some hub's proxy.
- `ReplyRouting.RoutingOverRuns`: assumes that the clock ticks from draw to draw, that hubs echo the request's number, that an interface response never races an interface query, that during start-up no reply to a new request equals the packet the SDK was already waiting for, and that no id is drawn again while its request is outstanding; the start has a legacy reply pending. `RoutingExact.RoutedExactlyWhenPending` shows the last to be exact, `ReplyRouting.ReadDeliversExactly` gives the exact condition in place of the fourth, `PromptReplies.RoutingWhenPrompt` replaces the fifth by prompt reading, and `RoutingExact.RoutedExactly` assumes none of them.
- `ReplyRouting.NothingLeftBehind`, `ReplyRouting.ReadDelivers`, `ReplyRouting.StepKeeps`: under the same assumptions.
- `EndToEnd.SdkReadsItsAnswers`: every read of the run is right; `RoutingExact.RunsAreRight` says when that is so.
- Hubs only answer requests; packets they send unasked, and more than one reply to a request, are not in the step system.
- `FrameReader.StreamRoundTrip`: the module table, and with it whether a hub is initialised, does not change while a stream is read; the serial reader starts after the servo hubs were counted (`get_servo_module_parent` panics before), and hub 1 is not initialised without hub 0 (`get_for_id_careful` panics then).
- Trace-level log lines are not formatted: the program sets its log level to debug.
- The state a `T::from` conversion of I2C read data builds, and panics in it.
- The query tokens are shared by all proxies of the process; the step system has one proxy.
- `Proxies.PrepareSendPackets`: batches of at most 255 packets; the cast of the length to `u8` makes a longer one index out of bounds.
- `UsbHandler.WritePackets`: batches that fit the 2048-byte buffer; a longer one panics.
- `SchedulerRuns.SlotsOverRuns`: offsets and rates under one hour; `SentinelExact` is about all of them.
- `Order::send` and its pause channel: whether the action of a dispatched slot runs is left open.
- `Rs485Lockout.LockoutOverRuns`: taking the token and giving up are atomic steps, the clock readings of one give-up are a single one, there is one reply per request, and whether a give-up's log entry can be formatted is an argument of the step.
- `TimerHandshake.Scheduler.KillAndWait`: what the timer threads do while a call waits is an argument; whether they ever look at their kill channel is theirs. The mutex around the scheduler is not modelled.
- `WorkerPool.PoolSuffices`: workers do not panic; `usize` counters do not overflow.
- `I2CDevice.InFlightConserved`: sending a query and tracking its id is one step; the few bytes of the reply types other than read data are not interpreted.
- `MotorCache.FaithfulOverRuns`: takes each call as atomic. The powers are atomics of a shared hub, so two concurrent calls for one motor can store in one order and send in the other; the cache then is not the last power sent.
- `MotorCache.MotorHub.SendMotorCommandsI16`: requests name motors 0 to 3; an index beyond makes the code panic.
- `MovingAverage.MovingAverage.Update`: integers that do not overflow.
- The telemetry cache, gamepad fields, throughput counter, timing analyzer, send-saturation statistics, Octoquad and Pinpoint registers, the robot's handler maps: fixed-offset reads and thin wrappers that would add only easy members.
