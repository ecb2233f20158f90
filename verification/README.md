# Reliable transfer over UDP, and a record format

`Projet1` sends a file over UDP: a sender with a window of unacknowledged
packets, a receiver with a reorder ring, 8-bit sequence numbers, and packets
protected by two CRC-32 checksums. `record.c` writes and reads records on a
stream. This project models both and proves what they guarantee.

- `Bytes`, `Crc`, `PacketSpec`: words in memory, CRC-32 as in section 8 of
  RFC 1952, and the packet format as functions on byte sequences.
- `Division`: CRC-32 once more, as the remainder of a division of polynomials.
  `Layout`: packets and records once more, byte by byte in plain arithmetic, and the
  status that decoding gives to every buffer. `Exchange`: what the two loops send and
  what they make of what arrives, on bytes and with the numbers of
  `packet_interface.h`.
- `CrcKernel`, `CrcBoundary`, `Damage`: which bursts of at most four bytes, anywhere
  in a datagram, the two checksums notice. `Interface`: decoding and encoding
  against what `packet_interface.h` promises.
- `PacketClass`: the packet structure with its setters, `pkt_encode` and
  `pkt_decode` working on buffers.
- `Ring`, `SenderSpec`, `ReceiverSpec`, `ReceiverOrder`, `Datagrams`: what each
  step does to the variables of the sender and of the receiver, and the unbounded
  receiver that the ring and the wrapped numbers implement.
- `SenderClass`, `ReceiverClass`: the two loops with their arrays and shared
  payload pointers; each method is proved against the functions above.
- `Protocol`: sender, receiver and two lossy channels as one system of small steps,
  with its invariant. `Safety` and `LossFree` hold for every order of the steps.
- `Turns`: the runs of the two loops, each turn of which is up to three steps.
  `Leading` builds such runs; `FileSize`, `Completeness`, `UnsetPointer`, `Progress`
  and `Liveness` give exact limits: what holds in all runs of the loops, for which
  files.
- `Network`, `AckDisorder`, `Unordered`, `Overtaking`, `Stranded`, `Timely`: the
  loops over a network that also repeats whatever was sent before, at any time, so
  that datagrams arrive in any order and any number of times; which limits stay,
  which change, what an overtaken acknowledgement does to the timer, and how late a
  datagram may be.
- `Wire`, `WireTurns`, `Transfer`, `ByteLimit`, `WireNetwork`: steps, turns and the
  repeating network with encoded bytes, losses and damage. The turns are proved to be
  those of the two loops, and the results are restated from file bytes to file bytes.
  `WrongPayload`: what the one burst does that no checksum notices. `SentBytes`: which
  bytes are sent for a block, first and again, for the end, and as acknowledgement, in
  every run.
- `RecordSpec`, `RecordClass`: the record format.

## What the code does and its texts do not say

`client.c`, `server.c`, `server.h`, `packet_implem.c` and `packet_interface.h` are
the files of `Projet1`. T is the number of blocks of 512 bytes of a file, and w the
window that the receiver announces; the code's is 3. The limits hold for files that
are always ready to be read, as regular files are.

- The sender reads on while `seq_exp - small_seq < window` (client.c:125). Both
  numbers wrap at 256, so the test is not the one its comment describes. It is
  modelled as written. The window is respected in every run of the loops exactly if
  T <= 256 (`FlowControlLimit`), and the bytes written are a prefix of the file in
  every run exactly if T <= 512 - w (`FileLimit`, `FileBytesLimit`). For longer files
  there are runs of the loops that go wrong (`FlowBreaks`, `PrefixBreaks`,
  `WrongBytes`); for files of any length everything holds in the runs in which
  blocks are sent only when there is room (`FlowAlways`, `PrefixInRoom`).
- The sender leaves its loop in the turn that reads the end of the file, without
  waiting for acknowledgements (client.c:119-120), and the receiver takes the
  zero-length packet at its word (server.c:132-136). Under loss a stopped receiver
  need not have the whole file; it has it in every run exactly if T <= 1, or w = 1
  and T <= 255 (`CompletenessLimit`).
- For the same reason a transfer can be lost beyond recovery while both sides are
  still in their loops: as soon as the last blocks are sent the test may let the
  sender read the end, and then only one packet is sent again. Every run can still be
  completed exactly if T <= 2, or w = 1 and T <= 256, or w = 2 and T <= 255
  (`LivenessLimit`); so with the code's window not for files of three blocks or more.
  While the test stops the sender, resending always moves the window on
  (`RecoverMovesBase`).
- In the turn that reads the end the timer may read a slot of the ring that was
  never filled, that is a pointer that was not set (client.c:109, :345). A run of the
  loops in which that happens exists exactly if T = 0, or T = 1 and w >= 2
  (`UnsetLimit`). What the original does then is undefined; the limits above speak of
  the runs in which it does not happen (`Defined`).
- The second test of `add_buffer` compares with 256 where 255 is meant
  (server.c:200-201), so the number 0 is refused when the window ends exactly at
  it. This costs a retransmission and makes the order of arrival matter at this
  one point (`WrapPointOrder`), but breaks nothing.
- `adapt_buffer` (client.c:24) counts upwards to whatever number was
  acknowledged. An acknowledgement that was overtaken moves the window a whole
  turn of 256 too far (`AckMovesBaseIff`); call that a slip. The prefix does not
  suffer: with acknowledgements in any order and any number of times the limit stays
  T <= 512 - w (`AckOrderLimit`, `AckOrderBytesLimit`). The timer does: after any
  run its slot is that of the block last acknowledged exactly if w divides 256 times
  the number of slips, so with the code's window exactly if the slips are a multiple
  of 3 (`TimerSlotIff`, `TimerResendsAckedIff`). With that window, and any file of six
  blocks or more, one overtaken acknowledgement and one lost block stop the transfer
  for ever (`OvertakenForever`).
- UDP may also bring data packets late. If anything sent may arrive at any time and
  any number of times, the bytes written are a prefix in every run exactly if
  T <= 255, for every window (`UnorderedLimit`, `UnorderedBytesLimit`): from 256 blocks
  on, a late block 0 is written as block 256 (`LateRepeat`). For files of any length
  everything holds as long as blocks are sent when there is room, a block arrives
  before the receiver is 256 - w blocks past it, and no overtaken acknowledgement
  arrives (`SafeInTime`, `PrefixInTime`). The other results are about channels that
  lose and damage but keep their order.
- The checksums are sent in network order behind what they cover, and therefore
  miss one burst of four bytes that reaches across the boundary: the last two covered
  bytes changed by 0x61 and 0xD8, and the first two bytes of the checksum by 0xF4 and
  0xEE. Every other burst of at most four bytes anywhere in a datagram is noticed
  (`SealedBurst`, `DamageIsNoticed`). In the header the pattern changes the timestamp
  only (`TimestampMisread`), which no decision depends on, so that `Wire` allows it;
  in the payload it changes two bytes of the file, and `Wire` leaves it out: whenever
  the block that the receiver waits for arrives, its datagram can be changed so that
  another block is written and acknowledged (`PatternIsWritten`, `PatternReachesFile`).
  "Noticed damage" below is every burst but that one.
- `pkt_encode` overwrites the timestamp that `send_ack` takes from the data
  packet (packet_implem.c:147, server.c:238), although server.h:28 says it is
  sent back: the answer carries it exactly if it is the time of encoding
  (`TimestampEchoedIff`).
- `packet_interface.h` says that `pkt_decode` takes TR as 0 in the header's checksum
  and checks the type and the number of bytes received. It does none of these
  (packet_implem.c:56-138): `DecodeAgainstInterface` says exactly which packets are
  accepted or refused against the interface; `AcceptedAgainstInterface` and
  `RefusedAgainstInterface` give inputs.
- It also says that `pkt_encode` reports a buffer that is too small. The test is
  commented out (packet_implem.c:152-153), so the status is the documented one
  exactly if the room suffices (`EncodeInto`).
- `pkt_set_payload` releases the old payload when TR is set or the length is 0
  (packet_implem.c:304-306). A received packet with TR set that declares a length
  therefore releases the payload of the packet before it, even if a slot of the
  receiver's ring points to it; no other datagram does. A slot does exactly from a
  data packet that is kept for later, one in the window whose number is not the next,
  until another packet brings a payload (`Receiver.Turn`, `PointedIffKept`): block
  number 1 and then a packet with TR set and length 5 are an input (`ReleaseInUse`).
  The sender here never sets TR.
- `memset(buffer_len, -1, 31)` (server.c:68) fills 31 bytes, that is slots 0 to 6
  and a part of slot 7. The constructor of the receiver does the same and
  therefore asks for a window of at most 7; the code's is 3. The system of sender
  and receiver is studied for every window from 1 to 31.

## Model

| member | source | states |
|---|---|---|
| Transfer.PrefixInRoom | Projet1/server.c:86-174 | For a file of any length, any window and any losses and noticed damage, over channels that keep their order, the bytes written are a prefix of the file's bytes, if new blocks are sent only when there is room in the window |
| Transfer.PrefixOfSmallFile | Projet1/client.c:117-293 | The same in every run of the sender's own test, for files of at most 512 - w blocks of 512 bytes |
| Transfer.WholeFile | Projet1/test.c:194-226 | If no data packet is lost or damaged, whatever happens to the acknowledgements, the receiver that has met the zero-length packet has written exactly the file, for any length and the sender's own test |
| Transfer.ConcatenatedBlocks | Projet1/client.c:150 | The blocks that successive reads return make up the file again |
| ByteLimit.FileBytesLimit | Projet1/client.c:124-128 | On bytes, with loss and noticed damage: all files of n bytes are received as prefixes in all runs of the loops if and only if n <= 512 * (512 - w) |
| WireNetwork.AckOrderBytesLimit | Projet1/client.c:20-34 | The same limit when acknowledgements are also repeated and overtake one another: all files of n bytes are received as prefixes in all runs of the loops if and only if n <= 512 * (512 - w) |
| WireNetwork.UnorderedBytesLimit | Projet1/server.c:195-214 | When anything sent in either direction may arrive at any time and any number of times: if and only if n <= 512 * 255 |
| WireNetwork.PrefixInTime | Projet1/server.c:86-174 | For a file of any length the bytes written are a prefix over that network too, if blocks are sent when there is room and what arrives is in time |
| WireNetwork.NetRunRefines | Projet1/server.c:101-173 | Every run on bytes over that network, with loss and noticed damage, ends as the run on packets in which noticed damage is loss, and reads an unset pointer in the one if and only if it does in the other |
| WireNetwork.EventsOnWire | Projet1/client.c:182-195 | Every run on packets over that network is also one on their encodings |
| WireNetwork.NothingRepeated | Projet1/client.c:117-367 | Every run of turns on bytes is one over that network |
| AckDisorder.AckOrderLimit | Projet1/client.c:20-34 | On packets, with acknowledgements lost, repeated and out of order: all files of t blocks are received as prefixes in all runs of the loops if and only if t <= 512 - w |
| Unordered.UnorderedLimit | Projet1/server.c:195-214 | On packets, with datagrams of both directions in any order and any number of times: if and only if t <= 255 |
| Unordered.LateRepeat | Projet1/server.c:195-206 | For every longer file a run in which block 0 arrives again and is written as block 256 |
| Timely.SafeInTime | Projet1/client.c:117-367 | For a file of any length, with datagrams repeated and out of order but in time: prefix, window and the block that the timer resends |
| Timely.OrderedInTime | Projet1/client.c:117-367 | The runs in which nothing is repeated and there is room at each send are such runs |
| Overtaking.TimerSlotIff | Projet1/client.c:20-34 | After every run, whatever was repeated, the sender's number is that of the block last acknowledged, and its slot is that block's if and only if w divides 256 times the slips |
| Overtaking.TimerResendsAckedIff | Projet1/client.c:338-345 | If that block is outstanding, the timer finds exactly it under the same condition |
| Overtaking.SlipArithmetic | Projet1/client.c:24-26 | Moving on circularly to an older block is one slip more, and to a later one none |
| Stranded.OvertakenForever | Projet1/client.c:338-345 | With window 3 and six blocks or more, a run with one overtaken acknowledgement and one lost block after which the timer resends block 4 in place of block 3, and no further turns of the loops end either loop or write a fourth block |
| Network.NetRingsAlways | Projet1/client.c:172-211 | The sender's ring keeps its invariant in every run, whatever the network repeats |
| Network.NothingRepeated | Projet1/client.c:117-367 | Every run of the loops is a run over the repeating network |
| WrongPayload.PatternIsWritten | Projet1/packet_implem.c:118-131 | In any run, if the block that the receiver waits for arrives next and has two bytes or more, four bytes of its datagram can be changed so that another block of the same length is written in its place and acknowledged |
| WrongPayload.AllowedIff | Projet1/packet_implem.c:95-134 | The damage that the channels do is every burst that changes the bytes, unless it is taken for a packet that differs in more than its timestamp |
| WrongPayload.PatternReachesFile | Projet1/packet_implem.c:118-131 | So every file of two bytes or more can be received as something that is no prefix of it |
| ByteLimit.RunOnWire | Projet1/client.c:182-195 | Every run on packets is also a run on their encodings |
| ByteLimit.TurnsOnWire | Projet1/client.c:182-195 | Every run of turns on packets is also one on their encodings, and reads an unset pointer in the one if and only if it does in the other |
| WireTurns.SenderTurnIsLoopTurn | Projet1/client.c:117-367 | A turn of the sender in the system changes the variables, ends the loop and sends the bytes exactly as the sender's loop does |
| WireTurns.ReceiverTurnIsLoopTurn | Projet1/server.c:101-173 | A turn of the receiver in the system is one of the receiver's loop |
| WireTurns.NeverPastTheEnd | Projet1/client.c:150-211 | No run of the loops sends more blocks than the file has |
| WireTurns.TurnsAreSteps | Projet1/client.c:117-367 | Every run of turns on bytes is a run of steps, so that the results about all orders of steps hold for it |
| WireTurns.TurnRunRefines | Projet1/client.c:217-223 | Every run of turns on bytes, with loss and noticed damage, ends as the run of turns on packets in which noticed damage is loss |
| WireTurns.DefinedRefines | Projet1/client.c:338-345 | The loops read an unset pointer in the run on bytes if and only if they do in the run on packets |
| Turns.TurnsAreSteps | Projet1/client.c:117-367 | Every run of turns on packets is a run of steps |
| Turns.SenderTurnIs | Projet1/client.c:117-367 | What a turn of the sender comes to, case by case: file, socket and timer in the order of the code, and the end of the loop |
| UnsetPointer.UnsetLimit | Projet1/client.c:338-345 | No run of the loops reads a slot that was never filled if and only if T >= 2, or T = 1 and w = 1 |
| UnsetPointer.OldestMissing | Projet1/client.c:345 | After every run, with or without room, the timer's slot was never filled if and only if `small_ind >= seq_ind` |
| UnsetPointer.OldestMissingInRoom | Projet1/client.c:345 | In runs that keep to the window that is so if and only if everything sent is acknowledged and the window was never filled |
| SenderSpec.OldestMissingIff | Projet1/client.c:345 | The same from the ring's invariant alone |
| FileSize.FileLimit | Projet1/client.c:124-128 | All files of t blocks are received as prefixes in all runs of the loops if and only if t <= 512 - w |
| FileSize.FlowControlLimit | Projet1/client.c:124-128 | The window is respected in all runs of the loops if and only if the file has at most 256 blocks |
| FileSize.TestAlways | Projet1/client.c:125 | What the sender's own test keeps in every run of a file of at most 512 - w blocks: the full invariant, and the window up to block 256 |
| FileSize.SmallFileInRoom | Projet1/client.c:125 | On files of at most 256 blocks the sender's test sends only when there is room |
| FileSize.FlowBreaks | Projet1/client.c:125 | A run of the loops that overruns the window, for every longer file and every window |
| FileSize.PrefixBreaks | Projet1/server.c:197-212 | A run of the loops in which block 512 - w is written in the place of block 256 - w |
| Completeness.CompletenessLimit | Projet1/client.c:119-156 | Every stopped receiver has the whole file in all runs of the loops if and only if there is at most one block, or the window is 1 and there are at most 255 |
| Completeness.EndTooEarly | Projet1/client.c:338-362 | If the sender may read the end while a block is missing, the packet that it sends in that turn can be lost and the receiver stopped without the block |
| Completeness.EndAlways | Projet1/client.c:369-396 | For these files the end is sent only after the last block was written |
| Safety.InvAlways | Projet1/client.c:117-293 | The invariant of sender ring, receiver ring, both channels and all wrapped counters after every run with fewer than 256 unacknowledged blocks at each send |
| Safety.PrefixAlways | Projet1/server.c:145-158 | In all these runs the blocks written are the first blocks of the file, in order, without gap or repeat |
| Safety.FlowAlways | Projet1/client.c:124-128 | base <= written <= next <= base + window in every run that sends only when there is room |
| Safety.SendKeepsFlowIff | Projet1/client.c:177-179 | A send keeps flow control if and only if there is room, if and only if it overwrites no unacknowledged packet |
| Safety.NumberDecides | Projet1/server.c:195-214 | Every packet in flight is within a window of the receiver's next block on either side, and its 8-bit number determines its absolute one |
| Safety.AcksInOrder | Projet1/server.c:159 | Acknowledgements in flight never fall back, lie between base and the number written, and their 8-bit numbers determine them |
| Safety.TimerResendsBase | Projet1/client.c:338-345 | The timer resends exactly the oldest unacknowledged block |
| SenderSpec.RingInvSend | Projet1/client.c:172-211 | Sending keeps the last `window` blocks in their slots and every other slot empty, whether or not there is room |
| SenderSpec.RingInvAcknowledge | Projet1/client.c:251-260 | The ring survives the growth of the window from 1 to any w and the slide |
| SenderSpec.OldestIs | Projet1/client.c:345 | Slot `small_ind` holds one of the last `window` blocks, and block `base` unless it was overrun |
| SenderSpec.TestsAgree | Projet1/client.c:124-125 | The plain difference and the circular distance agree as long as the numbers have not wrapped between them |
| SenderSpec.OverrunIff | Projet1/client.c:125 | With a full window the test lets the sender read on if and only if `small_seq + window >= 256` |
| Protocol.SlideMoves | Projet1/client.c:20-34 | For an acknowledgement k in [base, base + 256) the slide sets base to k, and moves both wrapped positions by k - base, also when the window grows |
| Protocol.AckMovesBaseIff | Projet1/client.c:24-26 | The slide reaches the acknowledged block if and only if the acknowledgement is not older than base |
| Protocol.ReceiveAdds | Projet1/server.c:142-158 | What is written or held after a packet was written or held before, or is that packet's block |
| Protocol.NextIsWritten | Projet1/server.c:145-158 | The block the receiver waits for is always written at once |
| Progress.RecoverMovesBase | Projet1/client.c:338-362 | Resending the oldest block, delivering it and its acknowledgement raises base, whether or not the receiver had the block |
| Progress.RecoverTurns | Projet1/client.c:338-362 | While the test stops the sender, these steps are turns of the loops |
| Progress.CanFinish | Projet1/client.c:117-367 | For the files of `LivenessLimit`, every run that is still in both loops, whatever it lost, can be continued by turns until the whole file is written |
| Liveness.LivenessLimit | Projet1/client.c:119-128 | Every run that is still in both loops can be completed by further turns if and only if T <= 2, or w = 1 and T <= 256, or w = 2 and T <= 255 |
| Liveness.NoFinish | Projet1/client.c:153-155 | Once two blocks are missing and the test lets the sender read the end, no continuation completes the file |
| Liveness.ReceiveConserves | Projet1/server.c:142-158 | A packet adds at most one block to those written or held |
| Leading.Lead | Projet1/client.c:117-367 | For every block of every file a run of the loops in which everything before it is written and acknowledged and it is under way |
| LossFree.CompleteAtEnd | Projet1/server.c:131-163 | If no data packet is lost the stopped receiver has written all blocks, for the sender's own test and any file |
| LossFree.LosslessAlways | Projet1/client.c:150-213 | If no data packet is lost the receiver holds back nothing, and what is under way completes what was sent |
| ReceiverSpec.AcceptedIffInWindow | Projet1/server.c:197-206 | On numbers at most 256 - w behind and less than 256 ahead the test accepts exactly the window without the wrap point |
| ReceiverSpec.AddBufferRefines | Projet1/server.c:195-214 | `add_buffer` stores exactly the in-window blocks, each under its absolute number |
| ReceiverSpec.DrainExact | Projet1/server.c:145-162 | The drain writes the filled slots up to the first empty one, at most one turn of the ring, and the number then expected is the count written modulo 256 |
| ReceiverSpec.IdealDrainExact | Projet1/server.c:145-158 | The unbounded receiver's drain: exactly the unbroken run of blocks is written, the rest is kept |
| ReceiverSpec.ReceiveRefines | Projet1/server.c:139-163 | Receiving on ring and 8-bit numbers is receiving on a map of absolute numbers, except at the wrap point, where it does nothing |
| ReceiverSpec.AbstractInjective | Projet1/server.c:63-68 | The unbounded receiver's state determines ring, index and expected number |
| ReceiverOrder.ReceiveCommutes | Projet1/server.c:142-158 | Two in-window packets away from the wrap point give the same receiver in either order |
| ReceiverOrder.ReceiveIdempotent | Projet1/server.c:142-158 | A packet received a second time changes nothing |
| ReceiverOrder.WrapPointOrder | Projet1/server.c:200-201 | At the wrap point the order matters if and only if the other packet is the expected one |
| Crc.BurstChangesCrc | Projet1/packet_implem.c:98-100 | Replacing at most four consecutive bytes keeps the checksum if and only if it changes no byte |
| Division.Crc32IsRemainder | Projet1/packet_implem.c:98-100 | A word is the checksum of s if and only if the message times x^32, with its first 32 coefficients turned over, leaves exactly that word turned over on division by the generator polynomial of CRC-32 |
| Division.LeavesIff | Projet1/packet_implem.c:98-100 | Long division finds the one remainder that some quotient times the generator leaves |
| Crc.Crc32OfNothing | Projet1/packet_implem.c:172-175 | The checksum of an empty payload is 0 |
| PacketSpec.HeaderFields | Projet1/packet_implem.c:12-19 | Eight bytes are the header of a packet if and only if every field read from them is the packet's |
| PacketSpec.DecodeIffEncoding | Projet1/packet_implem.c:56-138 | A buffer is accepted as packet p if and only if it begins with the encoding of p |
| Layout.EncodeIffLayout | Projet1/packet_implem.c:140-183 | What is sent for p is exactly: 64 * type + 32 * TR + window, the number, the length high byte first, the clock low byte first, checksum, payload, checksum, both high byte first |
| Layout.DecodeIffLayout | Projet1/packet_implem.c:56-138 | A buffer is accepted as p if and only if four bytes have arrived and p stands in that layout in front |
| Layout.DecodeStatus | Projet1/packet_implem.c:56-138 | For every buffer the status: nothing received, less than four bytes, a declared length above 512, PKT_OK exactly if a packet stands in front, and E_CRC in every other case |
| Layout.TakesPayloadIff | Projet1/packet_implem.c:106-117 | Decoding takes a payload if and only if a length from 1 to 512 is declared and the checksum of the header is right |
| Layout.LargestPacket | Projet1/client.c:106-107 | The 528 bytes of the buffers hold every packet, and are used up exactly by one with TR 0 and 512 bytes |
| Layout.NoticedStatus | Projet1/test.c:123-195 | A burst that is noticed gives E_CRC, unless it makes the length larger than 512; in the fifth byte or behind it, always E_CRC |
| PacketSpec.RoundTrip | Projet1/test.c:103-126 | Decoding an encoded packet gives PKT_OK and all fields back, for TR 1 and empty packets too, whatever stands behind it in the buffer |
| CrcBoundary.SealedBurst | Projet1/packet_implem.c:158-162 | Bytes with their checksum behind them, after any burst of at most four bytes, have the right checksum if and only if nothing was changed, or the one pattern across the boundary |
| CrcBoundary.StraddleIff | Projet1/packet_implem.c:158-162 | Of the changes of the last k covered bytes and the first 4 - k of the checksum only that pattern is missed, for k = 1, 2, 3 |
| Damage.DamageIsNoticed | Projet1/packet_implem.c:95-134 | After any burst of at most four bytes anywhere, a packet is accepted if and only if it is unchanged or changed by the pattern at the end of header or payload; and what it is then taken for |
| Damage.SomeOverlooked | Projet1/packet_implem.c:158-162 | Every packet has such a change in the header, and in the payload if that has two bytes |
| Damage.TimestampMisread | Projet1/packet_implem.c:89-104 | An input: a packet with timestamp 0 that is accepted with timestamp 0xD8610000 after four bytes were changed |
| Interface.DecodeAgainstInterface | Projet1/packet_interface.h:46-65 | A packet is accepted against the interface if and only if TR is set, the type is none of the three, or the length does not agree with the bytes received; refused against it only with TR set |
| Interface.AcceptedAgainstInterface | Projet1/packet_implem.c:56-138 | Inputs: packets without a type or with TR set, and any packet of which four bytes have arrived |
| Interface.RefusedAgainstInterface | Projet1/packet_implem.c:85-104 | Inputs: every packet of the three types with TR set, sent as the interface describes, is refused |
| Exchange.AnswerBytes | Projet1/server.c:117-164 | The answer to the bytes in the buffer: to a data packet with payload 12 bytes that begin with 128 + w and the number of blocks written modulo 256, to one with TR set 192 + w and its number plus 1, else none |
| Exchange.ReceivedBytes | Projet1/server.c:117-164 | Only accepted bytes that begin with 64 to 95 change the receiver: they end it if the length is 0 and are stored under their second byte otherwise |
| Exchange.TakenBytes | Projet1/client.c:217-260 | Accepted bytes change the sender's window if theirs is larger, and its number and position if and only if they begin with 128 to 191 |
| Exchange.DataBytes | Projet1/client.c:165-184 | A data packet begins with 64 + window, its number and its length |
| SentBytes.BlockAlwaysSentAs | Projet1/client.c:165-212 | In every run over the repeating network every datagram ever sent for block a has the same type, window (1 for the first block, w for the others), number, length and payload |
| SentBytes.MadeAlways | Projet1/client.c:165-212 | The same for what is under way after every run of steps on bytes |
| SentBytes.SentAgainTheSame | Projet1/client.c:338-362 | What the timer sends is what was sent first, but for the clock and the checksum of the header |
| SentBytes.EndAlwaysSentAs | Projet1/client.c:369-374 | Every packet that ends the transfer has length 0 and the number of blocks of the file modulo 256 |
| SentBytes.AckAlwaysSentAs | Projet1/server.c:159 | Every acknowledgement ever sent has type 2, window w and the number of blocks then written modulo 256 |
| SentBytes.TurnStamps | Projet1/packet_implem.c:145-147 | Whatever a turn sends, also again, carries the clock of that turn |
| WireTurns.EndTurnIsSendEnd | Projet1/client.c:369-390 | After the loop the system sends what the sender's code encodes there |
| Datagrams.TimestampEchoedIff | Projet1/server.h:28 | The decoded answer carries the timestamp of the data packet if and only if that is the time of encoding |
| Wire.DecodeConsistent | Projet1/packet_implem.c:95-134 | What arrives is decoded as what was sent, or refused if its damage is one that is noticed |
| Wire.RunRefines | Projet1/server.c:117-171 | Every run on bytes, with loss and noticed damage, ends as the run on packets in which the damaged datagrams are lost |
| PacketClass.Packet.EncodeInto | Projet1/packet_implem.c:140-183 | The buffer holds the encoding, byte by byte as in `EncodeIffLayout`, and is unchanged behind it, the length is its length, both checksum getters show the checksums, and the status is the documented one if and only if the room suffices |
| PacketClass.Packet.DecodeFrom | Projet1/packet_implem.c:56-138 | In any buffer as long as it reads, the status is the one of `DecodeStatus`, and if it is PKT_OK all getters show the decoded packet, with a payload of its own; the old payload is released exactly by a packet with TR set and a length |
| PacketClass.Packet.SetPayload | Projet1/packet_implem.c:298-312 | The payload is a fresh copy; too long a payload changes neither payload nor length; the old payload is released exactly if the packet then has none to show |
| PacketClass.Packet.SetLength | Projet1/packet_implem.c:272-278 | Lengths above 512 are refused, others lie in memory high byte first |
| PacketClass.Packet.SetType | Projet1/packet_implem.c:238-245 | Exactly the three packet types are taken |
| PacketClass.Packet.SetWindow | Projet1/packet_implem.c:258-264 | Windows above 31 are refused |
| PacketClass.Packet.CopyTo | Projet1/packet_implem.c:27-30 | All fields are copied and the payload is shared |
| ReceiverClass.Receiver.constructor | Projet1/server.c:63-68 | The receiver starts with an empty ring, given what `memset` really fills |
| ReceiverClass.Receiver.AddBuffer | Projet1/server.c:195-214 | The two arrays change as the specification says; the bytes in all other slots stay what they were |
| ReceiverClass.Receiver.Drain | Projet1/server.c:145-158 | The loop ends, with the number of filled slots as measure, in the drained state |
| ReceiverClass.Receiver.SendAck | Projet1/server.c:218-269 | 12 bytes that begin with 64 * kind + window and the number plus 1 modulo 256, with the time of encoding whatever timestamp was asked for |
| ReceiverClass.Receiver.Turn | Projet1/server.c:101-173 | One turn of the loop on any datagram: new state, and the bytes of the answer with the number of blocks written, for every error branch; whether a slot points to the last payload afterwards; and the payloads in the slots stay allocated exactly unless a packet with TR set and a length arrives while a slot does |
| ReceiverClass.PointedIffKept | Projet1/server.c:205-212 | A new payload is pointed to after a turn if and only if its packet is in the window and not the next one |
| ReceiverClass.ReleaseInUse | Projet1/packet_implem.c:304-306 | An input: after block number 1 and a packet with TR set and length 5 a slot of a new receiver points to a payload that was released |
| SenderClass.Sender.MayRead | Projet1/client.c:125-126 | The guard in terms of the sender's state |
| SenderClass.Sender.SendBlock | Projet1/client.c:165-212 | The copy lands in its slot, all other kept packets keep their bytes, and the bytes sent begin with 64 + window and its number and carry the block |
| SenderClass.Sender.AdaptBuffer | Projet1/client.c:20-34 | The loop ends, with the circular distance as measure, in the slid state |
| SenderClass.Sender.TakeDatagram | Projet1/client.c:217-293 | Refused bytes change nothing; others may grow the window, and acknowledgements slide it |
| SenderClass.Sender.Retransmit | Projet1/client.c:338-361 | The bytes sent begin with 64 + the window and the number of the oldest kept packet, carry its payload and the new time; no kept payload changes |
| SenderClass.Sender.SendEnd | Projet1/client.c:369-374 | The zero-length packet with the next number |
| SenderClass.Sender.Turn | Projet1/client.c:117-367 | One turn of the loop: file, datagram and timer together give this state and these bytes, or the timer reads an unset pointer |
| RecordSpec.ParseIffImage | Inginious/Encoder et décoder des structures/record.c:81-156 | A read returns record r if and only if the image of r stands in front, and then uses up exactly it |
| Layout.ImageIffLayout | Inginious/Encoder et décoder des structures/record.c:81-112 | What is written is exactly: type + 32768 with a footer low byte first, the length high byte first, payload, footer low byte first |
| Layout.ParseIffLayout | Inginious/Encoder et décoder des structures/record.c:113-156 | A read returns r and k if and only if r stands in that layout in front and k is its size |
| RecordSpec.ReadBack | Inginious/Encoder et décoder des structures/record.c:81-156 | Any list of records written and read back comes back the same, with the same byte counts and nothing left over |
| RecordSpec.ImagesInjective | Inginious/Encoder et décoder des structures/record.c:81-112 | Different lists of the same length are written as different bytes |
| RecordClass.Record.Write | Inginious/Encoder et décoder des structures/record.c:81-112 | The image, byte by byte as in `ImageIffLayout`, goes to the end of the stream and its length is returned |
| RecordClass.Record.Read | Inginious/Encoder et décoder des structures/record.c:113-156 | The record in front is read and the position moves by the count; a cut-off payload or footer gives -1; with a cut-off header the result as it follows from what the unset variables hold |
| RecordClass.Record.SetPayload | Inginious/Encoder et décoder des structures/record.c:34-46 | The first n modulo 65536 bytes become the payload; no buffer or no bytes removes it |
| RecordClass.Record.SetType | Inginious/Encoder et décoder des structures/record.c:26-28 | 15 bits of the type are kept |
| RecordClass.Record.SetUuid | Inginious/Encoder et décoder des structures/record.c:69-73 | The footer is present with this value |
| RecordClass.Record.DeleteFooter | Inginious/Encoder et décoder des structures/record.c:61-67 | The footer is gone |
| RecordClass.Record.GetUuid | Inginious/Encoder et décoder des structures/record.c:75-79 | The footer's value, or 0 |
| RecordClass.Record.Free | Inginious/Encoder et décoder des structures/record.c:13-19 | The payload is gone |

## Left out

- Sockets, address resolution, `select`, `printf` and arguments: whether a datagram
  has arrived is free in every turn, and the order of all events is free in the runs
  of steps.
- Reordering and duplication by the network outside `Network` and `WireNetwork`: the
  two channels of `Protocol`, `Turns` and `Wire` keep their order, and duplicates come
  from retransmission only.
- PrefixInRoom: channels that keep their order, and all bursts of damage but the one
  that no checksum notices. `PrefixInTime` and `PatternIsWritten` speak of the rest.
- `adapt_rtt` and the timers: floating point; `tv` and `nbre_tv` reach
  `adapt_buffer` by value and influence nothing else.
- Refusals (NACK) at the sender, client.c:294-332: the sender never sets TR, so
  the receiver never sends one, and the index computed there is not a slot.
- The handshake after the zero-length packet, client.c:382-408 and
  server.c:176-186: any packet that decodes ends it.
- Reading from standard input, where the timer is off (client.c:338).
- Releasing memory other than in `pkt_set_payload`, failed allocation, failed reads
  and writes, datagrams of length 0 at the sender, and `seq_ind` beyond the range of
  `int`.
- Damage beyond bursts of at most four bytes, and the one burst that changes a
  payload unnoticed (`SomeOverlooked`): the channels of `Wire` do not do it. What it
  does is said by `PatternIsWritten`.
- Bit-field layout: taken as GCC on a little-endian machine lays it out.
- The older packet code in `Inginious/Format_des_segments_du_projet_de_groupe`
  and the exercises `calc.c`, `chat.c`, `read_write_loop.c` and `client-server`:
  no hard property.
- `record_get_payload`: copies bytes that the view already shows.
- Turn: the sender's turn does nothing more when the timer reads an unset pointer,
  since what the original does then is undefined; it says when that is.
- DecodeFrom: promises nothing about the fields after a failure, since the
  original leaves them half filled in. It asks for a buffer as long as the declared
  length makes it read, since beyond that the original reads foreign memory.
- Files that are not always ready, such as pipes: the loops' methods cover them, the
  limits for all runs do not.
