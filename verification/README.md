# TASTE Runtime Common: a verified model of the communication stack

TASTE Runtime Common moves messages between the partitions of an embedded system. A broker turns a request
into a packet in the format configured for its bus, a byte-stuffing framer (the escaper) turns the packet into
a frame on a byte stream, and the same steps run backwards at the receiver. This project models the three
layers and proves what each promises, and what the whole link promises.

- **Framer.** `Framing.dfy` defines frames and the decoder as a machine on bytes; `Escaper.dfy` is the code with
  its two buffers, the resumable encoder and the decoder, proved against those definitions. The theorems are
  independence of chunking on both sides, round trip, self-synchronisation after noise, the exact fate of
  oversized frames, and that every delivery is a well-formed frame of the stream.
- **Error-detecting codes.** `Crc16.dfy` proves the byte-wise table form equal to the bit-serial register with
  polynomial 0x1021, linear in the message, and sensitive to every burst of up to sixteen bits. `CrcDistance.dfy`
  proves that the register has period 32767 and with it which spread-out errors the check sees.
  `IsoChecksum.dfy` proves the chunked Fletcher sums with deferred reduction equal to the plain sums modulo 255,
  the checksum equivalent to a zero residue, and which changes of two adjacent bytes it misses.
- **Packet formats.** `PacketFormat.dfy` and `Packetizer.dfy` (default format), `CcsdsFormat.dfy` and
  `CcsdsPacketizer.dfy` (strict CCSDS), `ThinPacketizer.dfy`. The format files define packets and the
  receiver's decision as functions of byte strings; the methods write and read them in place in a buffer.
  `PacketErrors.dfy` carries the error detection over to the receiver's decision.
- **Broker.** `BrokerModel.dfy` is the broker as a machine on initialisations, requests and receptions;
  `Broker.dfy` is the code with its per-bus counters and one shared packet buffer, proved to take exactly the machine's steps.
  `BrokerLaws.dfy` says in terms of tables, bytes and numbers what the steps do.
- **Link.** `EndToEnd.dfy` composes broker, encoder, a line that re-splits the bytes, decoder and broker, from a
  fresh decoder and from any reachable one after noise.

Conventions. A `byte` is an 8-bit vector; packet fields and the CRC register are bit-vectors; sizes and the
Fletcher words are natural numbers, with shifts and masks of sizes written as division and remainder by powers
of two. Lookups with bit-vector keys go through `Lookup` and `Occurrences`. The callbacks and the driver
functions are logs: `DecodePacket` returns the packets it passed to the receive callback, and a broker keeps
what it sent, delivered and reported. Each broker call is one atomic step, because the code runs it under the
broker lock. `Decoder.prefix` is the filled part of the decode buffer. Two methods of `Escaper` factor the
code without changing it: `StoreByte` is the block that appears in both decoding branches, and `EncodeByte`
and `EncodeData` are the body and the loop of the encoder. The CRC table keeps the 32 rows of eight entries in
which the source lays it out. Where a format does not write the sender out, the verdict carries the zero the
broker initialises it with; where a rejection stores no error code, it carries the zero as well.

Where the code and its documentation disagree, the model follows the code:

- `Escaper.h:127-128` says that encoding is complete once the index reaches the length. STOP, or the byte after an
  escape, may still be pending (`Escaper.c:152-161`); only a call that returns 0 ends a packet.
- `Escaper.h:82-89` calls `Escaper_start_decoder` an initialisation; it leaves the buffer index alone
  (`Framing.StalePrefix`).
- The asserts of the strict CCSDS packetizer admit size 65535 and those of the thin packetizer sizes up to
  2^32 - 2; `CcsdsFormat.PacketRoundTrip` and `ThinPacketizer.PacketRoundTrip` give the exact ranges that survive.
- The broker has an error for packets that are too small, but only the default packetizer stores its code; from the
  other two formats the broker reports an unknown error.

## Model

| member | source | states |
|---|---|---|
| `Framing.StuffLength` | src/Escaper/Escaper.c:128-155 | A stuffed packet is longer than its data by exactly the number of bytes 0x00, 0xFE and 0xFF in it. |
| `Framing.PlainFrame` | src/Escaper/Escaper.c:117-164 | Data without 0x00, 0xFE and 0xFF is framed as 0x00, the data as it is, and 0xFF. |
| `Framing.FrameBytes` | src/Escaper/Escaper.c:117-164 | Every byte of every frame: 0x00 first, 0xFF last, and byte i of the data at 1 + i plus the number of earlier bytes 0x00, 0xFE and 0xFF, with 0xFE in front exactly if it is one of these itself. |
| `Framing.FeedAppend` | src/Escaper/Escaper.c:52-107 | Decoding a ++ b equals decoding a and then b, in final state, stored bytes and deliveries. |
| `Framing.SplitDoesNotMatter` | src/Escaper/Escaper.c:52-107 | Any cutting of a stream into calls, empty ones included, gives the same state and deliveries as one call. |
| `Framing.FrameFromAnyState` | src/Escaper/Escaper.c:59-106 | From every state whose index is within the buffer, reachable or not, a complete frame leaves the decoder idle with index 0 and delivers exactly one determined list of packets. |
| `Framing.YieldSize` | src/Escaper/Escaper.c:77-96 | What a frame body delivers is nothing, the whole body behind the stored prefix, or one packet shorter than the body. |
| `Framing.OversizedFrame` | src/Escaper/Escaper.c:77-96 | A frame that fits is delivered whole; an oversized one behaves like the frame of what follows the first START value beyond the overflowing byte, and delivers nothing if there is none. |
| `Framing.FeedStaysReachable` | src/Escaper/Escaper.c:52-107 | Over every run the index stays within the buffer, a waiting decoder has index 0, and no delivered packet exceeds the buffer. |
| `Framing.FramesInOrder` | src/Escaper/Escaper.c:52-107 | Consecutive frames of fitting packets come out as exactly those packets in order. |
| `Framing.FramerRoundTrip` | src/Escaper/Escaper.c:52-164 | Frames of any number of fitting packets, cut into any pieces, come out as the same packets in the same order, with the decoder idle. |
| `Framing.SelfSynchronisation` | src/Escaper/Escaper.c:59-106 | After any noise from any reachable state, the first frame delivers at most one packet, its own exactly when the noise did not end inside an escape; all later frames deliver their own packets in order. |
| `Framing.StalePrefix` | src/Escaper/Escaper.c:46-50 | A decoder restarted with a non-zero index delivers the next fitting packet behind the stale bytes. |
| `Framing.UnstuffStuff` | src/Escaper/Escaper.c:128-155 | An independent reader of frame bodies recovers the data from its stuffed form. |
| `Framing.OpenPacket` | src/Escaper/Escaper.c:59-106 | Whenever a packet is open, the stream holds an honoured START after which the body so far unstuffs to exactly the stored bytes and nothing has been delivered since. |
| `Framing.DeliveryIsAFrame` | src/Escaper/Escaper.c:66-70 | Over every run from initialisation the i-th delivered packet is the unstuffed body between an honoured START and a STOP of the stream; before both exactly the first i packets are out, and the STOP adds only this one. |
| `Framing.WellFormedIsDelivered` | src/Escaper/Escaper.c:59-106 | Conversely every well-formed body that fits is delivered, also with escapes the encoder would not use. |
| `Escapers.Escaper.constructor` | src/Escaper/Escaper.c:28-44 | Initialisation leaves the decoder idle with index 0 and the encoder not started, on the caller's buffers. |
| `Escapers.Escaper.StartDecoder` | src/Escaper/Escaper.c:46-50 | The parser waits again but keeps the stored bytes; the decoder invariant holds afterwards exactly when the index was 0. |
| `Escapers.Escaper.StoreByte` | src/Escaper/Escaper.c:77-86 | A byte is appended to the stored packet, or the packet is dropped and the index reset when the buffer is full. |
| `Escapers.Escaper.DecodePacket` | src/Escaper/Escaper.c:52-107 | The buffer-level decoder ends in the state and makes the deliveries of the decoder machine, for every input and capacity, within its buffers. |
| `Escapers.Escaper.StartEncoder` | src/Escaper/Escaper.c:109-115 | After starting, the output still to come for any data is its complete frame. |
| `Escapers.Escaper.EncodeByte` | src/Escaper/Escaper.c:129-150 | One pass of the loop appends the escape or the byte and moves the escape flag and index accordingly. |
| `Escapers.Escaper.EncodePacket` | src/Escaper/Escaper.c:117-164 | A call emits the next bytes of the remaining output and stops short of a full buffer only when nothing remains, across pending escapes and a pending STOP. |
| `Escapers.PendingNext` | src/Escaper/Escaper.c:128-150 | The remaining output of every encoder state inside the data is the byte the loop emits followed by the remaining output of the state it moves to. |
| `Escapers.EncodeAll` | src/Escaper/Escaper.h:117-132 | The prescribed sending loop terminates, and its buffers are the chunks of the frame of the data. |
| `Escapers.ChunksCover` | src/Escaper/Escaper.c:152-163 | Chunks concatenate to the frame, none is empty and all but the last are full. |
| `Escapers.EncodingCalls` | src/Escaper/Escaper.c:117-164 | A packet takes exactly (data + 2 + number of bytes 0x00, 0xFE and 0xFF) / size non-empty calls, rounded up. |
| `Crc16.TableIsClocked` | src/Packetizer/Crc16.c:29-62 | Each of the 256 table entries is the register after eight clocks from its index. |
| `Crc16.StepIsEightBits` | src/Packetizer/Crc16.c:25-66 | One table step equals feeding the eight bits of the byte into the bit-serial register, for every register and byte. |
| `Crc16.CalculateCrc16` | src/Packetizer/Crc16.c:68-78 | The table loop returns the bit-serial check value of the block; from two bytes on this is the zero-initialised register over the block with its first two bytes inverted, and 0xFFFF for an empty block. |
| `Crc16.CheckValueFromZero` | src/Packetizer/Crc16.c:71 | The start value acts on every message exactly like the inversion of its first two bytes. |
| `Crc16.LastBitLeavesPolynomial` | src/Packetizer/Crc16.c:25-66 | A single set bit at the end of a message leaves 0x1021 in a register started at zero. |
| `Crc16.CrcIsLinear` | src/Packetizer/Crc16.c:65-78 | Adding two messages of one length and two registers adds the check values, so the check value is affine in the message. |
| `Crc16.ZeroNeedsLowBitsClear` | src/Packetizer/Crc16.c:65 | A register that k < 16 further input bits can bring to zero has its low 16 - k bits clear. |
| `Crc16.BurstIsSeen` | src/Packetizer/Crc16.c:65-78 | Every non-empty burst of at most sixteen consecutive bits, anywhere in a bit string, leaves the register non-zero. |
| `Crc16.BurstInPrefix` | src/Packetizer/Packetizer.c:127-134 | A burst that reaches the checked bytes changes their check value and spares everything two bytes beyond them. |
| `CrcDistance.ParityCountsBits` | src/Packetizer/Crc16.c:65-78 | The number of set bits in the register has the parity of its start value plus the set bits of the input. |
| `CrcDistance.PeriodIs32767` | src/Packetizer/Crc16.c:29-66 | Clocked without input, the register comes back to its start value after the multiples of 32767 clocks and after no other number. |
| `CrcDistance.TwoBits` | src/Packetizer/Crc16.c:65-78 | Two set bits cancel exactly when their distance is a multiple of 32767. |
| `CrcDistance.FewBitsAreSeen` | src/Packetizer/Crc16.c:65-78 | One, two or three set bits among at most 32767, wherever they are, leave the register non-zero. |
| `IsoChecksum.RunningSumsFit` | src/Packetizer/IsoChecksum.c:40-48 | At every point of a chunk the running sums stay within 5375 and 59536; a reduction returns them below 275 and 486, and another leaves a non-zero byte. |
| `IsoChecksum.ReduceKeepsResidue` | src/Packetizer/IsoChecksum.c:26 | The reduction keeps a sum modulo 255. |
| `IsoChecksum.SumsOfLast` | src/Packetizer/IsoChecksum.c:41-42 | Running addition of each byte and of the first sum produces the plain sum and the sum weighted by distance from the end. |
| `IsoChecksum.Fletcher16` | src/Packetizer/IsoChecksum.c:29-49 | The chunked loops return both plain sums modulo 255, as representatives from 1 to 255. |
| `IsoChecksum.FletcherWord` | src/Packetizer/IsoChecksum.c:48 | The low byte of the word is the plain sum and the high byte the weighted one modulo 255, each from 1 to 255. |
| `IsoChecksum.Calculate` | src/Packetizer/IsoChecksum.c:51-63 | The checksum word holds the two check bytes of the plain sums, each from 1 to 255. |
| `IsoChecksum.ChecksumIsZeroResidue` | src/Packetizer/IsoChecksum.c:51-63 | Two trailing bytes are the checksum exactly when both are non-zero and both sums of the whole vanish modulo 255. |
| `IsoChecksum.ZeroResidueIsAllOnes` | src/Packetizer/IsoChecksum.c:48 | The Fletcher word of a block is 0xFFFF exactly when both sums vanish modulo 255. |
| `IsoChecksum.AdjacentCorruption` | src/Packetizer/IsoChecksum.c:29-63 | Changing two adjacent bytes keeps the residue zero exactly when each is unchanged or swapped between 0x00 and 0xFF. |
| `SpacePacket.Packetizer.CountPacket` | src/Packetizer/Packetizer.c:72-76 | The counter moves to the next count, zero after 2^14 - 1. |
| `SpacePacket.CountAfterValue` | src/Packetizer/Packetizer.c:72-76 | After k packets from zero the counter is k modulo 2^14. |
| `PacketFormat.LengthRoundTrip` | src/Packetizer/Packetizer.c:193-238 | Every size up to 2^32 - 1 is read back as written, zero through the all-ones sentinel. |
| `PacketFormat.LengthFieldIsCanonical` | src/Packetizer/Packetizer.c:193-238 | Every length field is the one its size is written with, so different fields mean different sizes. |
| `PacketFormat.HeaderFields` | src/Packetizer/Packetizer.c:164-207 | Type bit, destination and size are read back from the header they were written to; the bit is 0x08 for a telecommand and 0 for telemetry. |
| `PacketFormat.PacketRoundTrip` | src/Packetizer/Packetizer.c:43-162 | Depacketizing a built packet succeeds with the same type, source, destination, size and payload, for sizes from 0 to 2^32 - 2. |
| `PacketFormat.PacketCount` | src/Packetizer/Packetizer.c:179-191 | The sequence count in a built packet is the counter it was built with. |
| `PacketFormat.PacketOnTheWire` | src/Packetizer/Packetizer.c:62-68 | Every header bit of every built packet as a number: version 0, type bit, flags, destination, count and big-endian length field, all ones for size zero, with the data behind it. |
| `PacketFormat.TrailerOnTheWire` | src/Packetizer/Packetizer.c:209-225 | The last four bytes of every built packet: the sender and the zero-initialised register over header and data with the first two bytes inverted, most significant bytes first. |
| `PacketFormat.SizeOnTheWire` | src/Packetizer/Packetizer.c:102-120 | For any buffer: too small (4) exactly below 12 bytes, and wrong size (3) exactly when the length field, read as a number, says another length. |
| `PacketFormat.CheckOnTheWire` | src/Packetizer/Packetizer.c:127-141 | A buffer of the right length is rejected for its check value (1) exactly when its last two bytes are not the register over header and data. |
| `PacketFormat.TypeOnTheWire` | src/Packetizer/Packetizer.c:143-161 | A buffer that passes these tests is rejected for its type (2) exactly when bit 0x08 of its first byte is not the expected one, and accepted otherwise. |
| `PacketFormat.FieldsOnTheWire` | src/Packetizer/Packetizer.c:122-161 | Sender, destination, offset and size of any accepted buffer as bits and numbers, whatever its unchecked bits. |
| `PacketFormat.OtherTypeIsRejected` | src/Packetizer/Packetizer.c:143-151 | Every packet built as one type is rejected with 2 by a receiver that expects the other. |
| `PacketFormat.CanonicalReencoding` | src/Packetizer/Packetizer.c:81-239 | An accepted buffer is the encoding of its own fields and count exactly when its version, secondary header and sequence flag bits have their sent values. |
| `PacketFormat.CorruptedLength` | src/Packetizer/Packetizer.c:111-120 | Any change to the length bytes of an accepted packet is rejected for its size. |
| `PacketFormat.BurstDetection` | src/Packetizer/Packetizer.c:111-141 | A burst of at most sixteen bits in any accepted packet is accepted exactly when it lies inside the two sender bytes. |
| `PacketFormat.BuiltPacketBurst` | src/Packetizer/Packetizer.c:43-162 | The same for every packet the packetizer builds. |
| `PacketErrors.CheckValueIsZeroResidue` | src/Packetizer/Packetizer.c:209-218 | Two trailing bytes are the check value of what is in front of them exactly when the register over all of it ends at zero. |
| `PacketErrors.ErrorGoesUnnoticed` | src/Packetizer/Packetizer.c:111-150 | An accepted packet with an error pattern of any shape is accepted exactly when the error spares the length bytes, keeps the type and drives the register to zero over header, data and check value. |
| `PacketErrors.OddErrorIsNoticed` | src/Packetizer/Packetizer.c:111-141 | Every odd number of flipped bits in header, data and check value of an accepted packet is rejected. |
| `PacketErrors.FewErrorsAreNoticed` | src/Packetizer/Packetizer.c:111-141 | In accepted packets of up to 4097 bytes one, two or three flipped bits in header, data and check value are rejected, wherever they are. |
| `DefaultPacketizer.WritePacketId` | src/Packetizer/Packetizer.c:164-177 | Sets the type, flag and destination bits in two bytes of any content, and changes nothing else. |
| `DefaultPacketizer.WritePacketSequenceControl` | src/Packetizer/Packetizer.c:179-191 | Sets the sequence flags and the count in two bytes of any content, and changes nothing else. |
| `DefaultPacketizer.WritePacketDataLength` | src/Packetizer/Packetizer.c:193-207 | Writes the four length bytes and nothing else. |
| `DefaultPacketizer.WriteSenderPid` | src/Packetizer/Packetizer.c:220-225 | Writes the sender behind the data and nothing else. |
| `DefaultPacketizer.WriteCrc` | src/Packetizer/Packetizer.c:209-218 | Writes the check value of header and data behind the sender and nothing else. |
| `DefaultPacketizer.Packetize` | src/Packetizer/Packetizer.c:42-79 | The buffer then starts with exactly the packet of its arguments, whatever header and trailer held before; the rest is unchanged and the counter moves on. |
| `DefaultPacketizer.Depacketize` | src/Packetizer/Packetizer.c:81-162 | The decision, with error codes and outputs, is that of the format, in bounds for every buffer and size. |
| `CcsdsFormat.StandardHeader` | src/Packetizer/CCSDSPacketizer.c:160-192 | The header is the primary header of CCSDS 133.0-B-2, section 4.1.3, as three 16-bit numbers: type bit 0x1000 for a telecommand, 0x0800 and destination; 0xC000 and count; size of the data field minus one. |
| `CcsdsFormat.LengthReadBack` | src/Packetizer/CCSDSPacketizer.c:187-208 | A size is read back modulo 2^16, in the range from 1. |
| `CcsdsFormat.PacketRoundTrip` | src/Packetizer/CCSDSPacketizer.c:62-157 | Of the admitted sizes 1 to 65535, depacketizing succeeds with type, destination, size and payload exactly for 1 to 65534; 65535 is rejected for its size. |
| `CcsdsFormat.PacketCount` | src/Packetizer/CCSDSPacketizer.c:174-185 | The sequence count in a built packet is the counter it was built with. |
| `CcsdsFormat.ChecksumTest` | src/Packetizer/CCSDSPacketizer.c:125-139 | The checksum test passes exactly when both check bytes are non-zero and the whole packet has residue zero. |
| `CcsdsFormat.PacketOnTheWire` | src/Packetizer/CCSDSPacketizer.c:71-77 | Every built packet is that header, the data and two non-zero bytes that make both sums of the whole vanish modulo 255. |
| `CcsdsFormat.SizeOnTheWire` | src/Packetizer/CCSDSPacketizer.c:111-123 | For any buffer: too small, without a code, exactly below 9 bytes, and wrong size (3) exactly when the length field, read as a number, says another length. |
| `CcsdsFormat.CheckOnTheWire` | src/Packetizer/CCSDSPacketizer.c:125-139 | A buffer of the right length is rejected for its checksum (1) exactly when a check byte is zero or a sum of the whole does not vanish modulo 255. |
| `CcsdsFormat.TypeOnTheWire` | src/Packetizer/CCSDSPacketizer.c:141-157 | A buffer that passes these tests is rejected for its type (2) exactly when bit 0x10 of its first byte is not the expected one, and accepted otherwise. |
| `CcsdsFormat.FieldsOnTheWire` | src/Packetizer/CCSDSPacketizer.c:151-157 | Destination, offset and size of any accepted buffer as bits and numbers, whatever its unchecked bits. |
| `CcsdsFormat.OtherTypeIsRejected` | src/Packetizer/CCSDSPacketizer.c:141-149 | Every packet of up to 65534 bytes built as one type is rejected with 2 by a receiver that expects the other. |
| `CcsdsFormat.AdjacentCorruption` | src/Packetizer/CCSDSPacketizer.c:111-149 | A change of at most two adjacent bytes anywhere in an accepted packet is accepted exactly when it only swaps 0x00 and 0xFF and leaves the first byte, the length and the checksum alone. |
| `CcsdsPacketizer.WritePacketId` | src/Packetizer/CCSDSPacketizer.c:160-172 | Sets the type, flag and destination bits in two bytes of any content, and changes nothing else. |
| `CcsdsPacketizer.WritePacketSequenceControl` | src/Packetizer/CCSDSPacketizer.c:174-185 | Sets the sequence flags and the count in two bytes of any content, and changes nothing else. |
| `CcsdsPacketizer.WritePacketDataLength` | src/Packetizer/CCSDSPacketizer.c:187-192 | Writes the two length bytes, which drop what exceeds 16 bits and wrap for size 0, and nothing else. |
| `CcsdsPacketizer.WriteChecksum` | src/Packetizer/CCSDSPacketizer.c:194-202 | Writes the checksum of header and data behind the data and nothing else. |
| `CcsdsPacketizer.Packetize` | src/Packetizer/CCSDSPacketizer.c:43-87 | The buffer then starts with exactly the packet of its arguments; the rest is unchanged and the counter moves on. |
| `CcsdsPacketizer.Depacketize` | src/Packetizer/CCSDSPacketizer.c:89-158 | The decision, with error codes and outputs, is that of the format, in bounds for every buffer and size. |
| `ThinPacketizer.JoinedValue` | src/Packetizer/ThinPacketizer.c:144-148 | The length read back is high * 256 + low + 1, less 256 when the low byte carries into an odd high byte. |
| `ThinPacketizer.LengthReadBack` | src/Packetizer/ThinPacketizer.c:137-148 | A size is read back modulo 2^16, less 256 when it is then a multiple of 512. |
| `ThinPacketizer.PacketRoundTrip` | src/Packetizer/ThinPacketizer.c:60-119 | Of the admitted sizes, depacketizing succeeds, with destination, size and payload, exactly for 1 to 65535 without the multiples of 512; all others are rejected for their size. |
| `ThinPacketizer.PacketOnTheWire` | src/Packetizer/ThinPacketizer.c:66-73 | Every built packet as numbers: destination, size minus one modulo 2^16, data. |
| `ThinPacketizer.DecisionOnTheWire` | src/Packetizer/ThinPacketizer.c:99-118 | For any buffer: rejected without a code below 4 bytes, with 3 when the length read from it, lost carry included, is another, and otherwise accepted with the destination it names. |
| `ThinPacketizer.WritePacketId` | src/Packetizer/ThinPacketizer.c:121-129 | Sets the destination bits in two bytes of any content, and changes nothing else. |
| `ThinPacketizer.WritePacketDataLength` | src/Packetizer/ThinPacketizer.c:137-142 | Writes the two length bytes, which drop what exceeds 16 bits and wrap for size 0, and nothing else. |
| `ThinPacketizer.Packetize` | src/Packetizer/ThinPacketizer.c:43-74 | The buffer then starts with exactly the packet of its arguments and is otherwise unchanged. |
| `ThinPacketizer.Depacketize` | src/Packetizer/ThinPacketizer.c:76-119 | The decision is that of the format, in bounds for every buffer and size. |
| `BrokerModel.AcceptedDataIsInside` | src/Broker/Broker.c:233-239 | Whatever packet a depacketizer accepts, the data handed on lies inside the received buffer. |
| `BrokerModel.BusesAreIndependent` | src/Broker/Broker.c:102-192 | Over every run a bus sends exactly the packets of its own requests, in order, numbered from its own counter and from zero again after each initialisation that lists it, whatever other buses and receptions do. |
| `BrokerModel.SequenceNumbers` | src/Broker/Broker.c:102-192 | Over every run, the k-th packet on a default, CCSDS or strict CCSDS bus after an initialisation with an entry for it and no 0 up to that entry, until another such initialisation, is the k-th request for it since then and carries sequence count k modulo 2^14; what the bus sent earlier is untouched. |
| `BrokerLaws.AdmittedRequests` | src/Broker/Broker.c:151-175 | Which requests the model admits, in numbers: a routed interface and a size the partition buffer and the asserts of the packetizer allow. |
| `BrokerLaws.RequestIsSent` | src/Broker/Broker.c:151-189 | A request adds exactly one packet, on the bus its interface is routed to, in the format of that bus, and moves only that counter, from 16383 to 0; nothing else changes. |
| `BrokerLaws.RequestsAreRouted` | src/Broker/Broker.c:151-189 | Over every run the buses of the packets sent are exactly the buses the requests are routed to, in order. |
| `BrokerLaws.InitialisationResets` | src/Broker/Broker.c:108-127 | A counter is 0 after an initialisation exactly for the default, CCSDS and strict CCSDS buses with an entry in the list before which and at which there is no 0; every other counter and everything else is unchanged. |
| `BrokerLaws.LatestCallback` | src/Broker/Broker.c:244-248 | Whatever happens in between, the callback registered last is in force. |
| `BrokerLaws.NobodyListens` | src/Broker/Broker.c:224-231 | Without a registered callback nothing is reported. |
| `BrokerLaws.TooSmallIsReported` | src/Broker/Broker.c:55-75 | On a default bus a buffer below 12 bytes is reported to the callback as PacketTooSmall, with the buffer, and nothing else happens. |
| `BrokerLaws.WrongSizeIsReported` | src/Broker/Broker.c:55-75 | On a default bus a buffer of another length than its length field says is reported as IncorrectPacketSize. |
| `BrokerLaws.WrongCheckValueIsReported` | src/Broker/Broker.c:55-75 | On a default bus a buffer of the right length whose last two bytes are not its check value is reported as IncorrectCrc16. |
| `BrokerLaws.WrongTypeIsReported` | src/Broker/Broker.c:55-75 | On a default bus a buffer with right length and check value but the other type bit is reported as IncorrectPacketType. |
| `BrokerLaws.SoundPacketIsDelivered` | src/Broker/Broker.c:233-239 | On a default bus every other buffer is delivered: its data, to the destination and from the sender its bits name, and nothing else happens. |
| `BrokerLaws.TooSmallStrictIsUnknown` | src/Broker/Broker.c:55-75 | On a strict CCSDS bus a buffer below 9 bytes is reported as UnknownError, because no code is stored. |
| `BrokerLaws.WrongStrictSizeIsReported` | src/Broker/Broker.c:55-75 | On a strict CCSDS bus a buffer of another length than its length field says is reported as IncorrectPacketSize. |
| `BrokerLaws.WrongChecksumIsReported` | src/Broker/Broker.c:55-75 | On a strict CCSDS bus a buffer of the right length with a zero check byte or a sum that does not vanish modulo 255 is reported as IncorrectCrc16. |
| `BrokerLaws.WrongStrictTypeIsReported` | src/Broker/Broker.c:55-75 | On a strict CCSDS bus a buffer with right length and checksum but the other type bit is reported as IncorrectPacketType. |
| `BrokerLaws.SoundStrictPacketIsDelivered` | src/Broker/Broker.c:233-239 | On a strict CCSDS bus every other buffer is delivered to the destination its bits name, with sender 0. |
| `BrokerLaws.TooSmallThinIsUnknown` | src/Broker/Broker.c:55-75 | On a thin bus a buffer below 4 bytes is reported as UnknownError, because no code is stored. |
| `BrokerLaws.WrongThinSizeIsReported` | src/Broker/Broker.c:55-75 | On a thin bus a buffer of another length than is read from its header is reported as IncorrectPacketSize. |
| `BrokerLaws.SoundThinPacketIsDelivered` | src/Broker/Broker.c:233-239 | On a thin bus every other buffer is delivered to the destination it names, with sender 0. |
| `Brokers.Broker.constructor` | src/Broker/Broker.c:42-46 | Static storage starts with all counters zero, no callback and nothing sent, delivered or reported. |
| `Brokers.Broker.Initialize` | src/Broker/Broker.c:102-128 | Initialisation takes the broker machine's step: exactly the listed buses before the first invalid entry, if their packetizer counts, have their counter reset. |
| `Brokers.Broker.DeliverRequest` | src/Broker/Broker.c:130-192 | A request takes the broker machine's step: one packet on the right bus, built from the bus counter, the request and nothing left in the shared buffer. |
| `Brokers.Broker.PacketizeOn` | src/Broker/Broker.c:165-175 | Dispatch builds the packet of the bus's format in the shared buffer and moves that bus's counter only. |
| `Brokers.Broker.ReceivePacket` | src/Broker/Broker.c:194-242 | A reception takes the broker machine's step: a delivery to the packet's destination, or an error report to the callback registered last, if there is one. |
| `Brokers.Broker.RegisterErrorCallback` | src/Broker/Broker.c:244-248 | The callback replaces the one before and is the one later errors go to; nothing else changes. |
| `EndToEnd.LineCarriesFrames` | src/Escaper/Escaper.c:117-164 | The buffers of successive packets, encoded with any buffer sizes of at least two, concatenate to the frames of the packets. |
| `EndToEnd.BuiltIsAccepted` | src/Broker/Broker.c:165-239 | A packet built for an admitted request is accepted, with what it was built from, exactly when its format carries the size. |
| `EndToEnd.FitsLinkInNumbers` | src/Broker/Broker.c:130-242 | Which requests a link carries, in numbers: 12, 8 or 4 bytes of overhead within the decoder capacity, sizes up to 65534 in the strict format, and up to 65535 without the multiples of 512 in the thin one. |
| `EndToEnd.Delivery` | src/Broker/Broker.c:130-242 | For every run of a sending broker, every encoding buffer size and every re-splitting of the line, the receiving broker delivers exactly the bus's requests, in order, with destination, sender (in the default format) and data, and reports no error. |
| `EndToEnd.DeliveryAfterNoise` | src/Escaper/Escaper.c:52-107 | The same from any reachable decoder state with any noise in front: beyond what the noise delivers and at most one packet more, all requests but the first are delivered exactly and in order, and the first too unless the noise ended inside an escape. |
| `EndToEnd.CorruptedPacketIsNotDelivered` | src/Broker/Broker.c:214-231 | On a default bus a packet hit by a burst of at most sixteen bits that touches anything but the sender bytes is never delivered. |
| `EndToEnd.FewErrorsAreNotDelivered` | src/Broker/Broker.c:214-231 | On a default bus a packet of up to 4097 bytes with one, two or three flipped bits outside the sender bytes is never delivered. |

## Left out

- Device-provided and passthrough packetizers: the first forwards to code that is not part of the repository, the second leaves data as it is or aborts.
- Driver, send, deliver and callback functions: logs of what they are given; a callback that calls back into the escaper or broker is not modelled.
- Locks and threads: each broker call is one atomic step, as the lock makes it.
- Null pointers, aliasing beyond the stated distinctness of buffers, and wrap-around of `size_t` on targets where it is narrower than 64 bits.
- Brokers.Broker.ReceivePacket: delivers to any destination a packet names, because the table of deliver functions, which the code indexes with it unchecked, is generated and not part of this model.
- Build variants: the model is the build that passes the sender on, and the expected and sent packet types are part of a broker's configuration.
- Routing and driver helper functions and the generated tables: one-branch scans and lookups.
- `Packetizer_init` and its siblings as separate functions: their effect on the counter is part of `Initialize`; the header size they return is unused by the broker.
