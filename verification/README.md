# LLDT data path: model and proofs

LLDT carries market-data frames from a shared-memory ring on one host to a shared-memory ring
on another. A producer numbers frames and publishes them; the Sender reads them, batches whole
frames into Data packets and hands them to the NIC; the Receiver classifies what arrives by
sequence number and republishes the frames; a consumer reads them and reports loss and latency.

This project models that path as a chain of small state machines, each as close to the code as
Dafny allows, and proves what each promises and what the chain promises as a whole.

| file | models |
|---|---|
| `ShmRing.dfy` | the ring as a class over arrays, refining an append-only log |
| `RingProtocol.dfy` | the same ring with every shared access a step, and any interleaving of one producer and any readers |
| `Producer.dfy` | the producer of the compact profile |
| `SenderShmReader.dfy` | validation, continuity and lapping accounts of the Sender's reader |
| `RawDataPacketBuilder.dfy` | the canonical image, assembled in place |
| `Checksum.dfy`, `DataPacketMaterializer.dfy` | Ethernet, IPv4 and UDP headers and the incremental checksum |
| `SenderMain.dfy`, `SenderLoop.dfy` | the Sender's loop: its specification and results over all runs; the loop itself, over one reused buffer |
| `SenderLaws.dfy` | what a round of the Sender does with the frames it reads, and its counters over whole runs |
| `SourceGaps.dfy` | what packet boundaries say about source gaps |
| `IngressPacketParser.dfy`, `ReceiverShmWriter.dfy`, `ReceiverMain.dfy` | parsing, republishing and sequencing |
| `ReceiverLaws.dfy` | which arrivals are accepted, and every counter in terms of them |
| `Metrics.dfy`, `Consumer.dfy` | the consumer's loop and report |
| `ConcurrentSource.dfy` | the reads of the Sender and of the consumer in any interleaving with the producer |
| `EndToEnd.dfy` | from the source log to the consumer's report, over a network that drops, duplicates and reorders |
| `Bits.dfy`, `Bytes.dfy`, `Messages.dfy`, `Counting.dfy`, `Subsequences.dfy` | masks, integer encodings, self-delimiting frames, cardinalities, in-order subsequences |

Each component comes twice where the source changes state: a class whose methods do what the
code does, and a function of values that those methods are proved to compute. Results over whole
runs are lemmas about the functions, stated as far as possible without them: in the bytes of frames
and packets, the answers of the ring, and plain counts.

## Assumptions

- Memory is sequentially consistent, and the host is little-endian.
- 64-bit counters and sequence numbers do not wrap. The running totals of trades, the 16-bit record count, the header fields and the capacity subtraction are modelled with their widths.
- Stop flag, buffer allocation and size, NIC acceptance, arriving packets, clock and idle limit are inputs, quantified over. So are the answers of a ring that is written while it is read: a frame, nothing, or a lap with anything left in the buffer. "Exact reads" means that a frame returned is the log's frame at the position read; `RingProtocol.ExactnessGuard` says when the ring guarantees that, and `ConcurrentSource.ScheduleIsExact` carries it over to whole runs.
- Published lengths respect the slot capacity, as they do for the producer and the Receiver of this repository.
- The Receiver does not check records against the packet. Its accounts hold for any packets (`Receiver.ReceiverAccounts`); what is published is modelled as long as the walk over the records stays inside the receive buffer and every frame fits a slot (`Receiver.Safe`), behind which the program's behaviour is undefined. For packets of the modelled Sender this is proved.

## Where code and documents differ

- A successful ring read is not always the published frame: `publish` overwrites the slot before it changes the sequence. The model follows the code; `RingProtocol.ExactnessGuard` gives the exact condition, `RingProtocol.OkReadsAreMixes` everything that can be returned instead, and `RingProtocol.TornRead` a run. Even that the result comes from two publications holds only under a condition (`RingProtocol.TwoPublications`, `RingProtocol.ThirdPublication`).
- A lapped reader is not always sent forward: `RingProtocol.LapWithoutProgress`.
- WIRE_PROTOCOL.md (line 136) and SOLUTION.md (line 68) say that a batch does not cross a source gap. The reader compares an id with the largest seen, not with the record before it, so the frame after a stale one can be unflagged although it does not follow. `SourceGaps.OrderInsidePacket` has the exact condition, `SourceGaps.GapInsidePacket` a run. With the producer's numbering and exact reads it cannot happen (`SourceGaps.PacketIsLogPiece`).

## Model

| member | source | states |
|---|---|---|
| `Bits.PowerOfTwoTest` | harness/src/producer.cpp:32 | the test `x != 0 && (x & (x - 1)) == 0` accepts exactly the powers of two |
| `Bits.MaskIsModulo` | harness/include/shm_ring.h:65-72 | `idx & mask` with mask one less than a power of two is idx modulo the slot count |
| `ShmRing.Ring.constructor` | harness/include/shm_ring.h:52-66 | a freshly initialised ring is an empty log |
| `ShmRing.Ring.Publish` | harness/include/shm_ring.h:70-79 | publishing appends exactly the given bytes to the log and keeps every slot consistent with the window of the last n entries |
| `ShmRing.Ring.LiveEdge` | harness/include/shm_ring.h:82-84 | the live edge is the length of the log |
| `ShmRing.Ring.Read` | harness/include/shm_ring.h:90-113 | between publishes a read is empty, exact or lapped as the log window says, for every position; the output buffer changes only in the bytes of the frame |
| `ShmRing.Ring.SlotAnswers` | harness/include/shm_ring.h:92-101 | the sequence found in the slot of position i decides by comparison with i + 1 whether i is ahead of the edge, in the window, or overwritten |
| `ShmRing.ResumeSucceeds` | harness/include/shm_ring.h:96-110 | a lapped reader goes strictly forward, skips only positions that are lapped too, and the read at the position it was given succeeds |
| `RingProtocol.StepKeeps` | harness/include/shm_ring.h:70-113 | one step of the producer or of any reader, whichever it is, keeps the invariant that ties slots, sequences, edge and pending reads together |
| `RingProtocol.OkReadIsExact` | harness/include/shm_ring.h:70-113 | in every interleaving a kOk read whose recheck saw an edge below index + n, or no publish under way, returned the frame published at its index |
| `RingProtocol.OkReadMixes` | harness/include/shm_ring.h:70-112 | in every interleaving a kOk read has the length of publication i or i + n, and every byte is one of publication i + n or what publication i left at that position: its own byte or, behind its end, what was there before |
| `RingProtocol.LeftIsLatest` | harness/include/shm_ring.h:70-79 | what is left at a position is the byte of the last publication in that slot that reached so far, or the initial memory if none did |
| `RingProtocol.OkReadsAreMixes` | harness/include/shm_ring.h:70-112 | while publication i + n is on its way, the results a successful read of i can have are exactly those mixes: each of them is returned in some interleaving, and nothing else is |
| `RingProtocol.TwoPublications` | harness/include/shm_ring.h:70-112 | for each edge, length returned and length of publication i: every such read is made of publications i and i + n alone if and only if the edge is below i + n or the length returned does not exceed that of publication i |
| `RingProtocol.ThirdPublication` | harness/include/shm_ring.h:70-112 | a run in which a kOk read has the length of publication i + n, a byte of publication i and a byte of publication i - n, for every ring size and index past the first round |
| `RingProtocol.CopyStaysInSlot` | harness/include/shm_ring.h:103-104 | in every interleaving a reader copies within the frame capacity of the slot |
| `RingProtocol.LappedReadIsSound` | harness/include/shm_ring.h:96-110 | in every interleaving a lapped reader is not sent back; for every index skipped the slot carries the sequence of a later publication, the publication one round later is complete, and asking for the index again would be lapped; it stays where it is exactly if the edge was loaded between the two last stores of publication i + n |
| `RingProtocol.EmptyReadIsSound` | harness/include/shm_ring.h:96 | in every interleaving an empty read means that the publication asked for was not complete |
| `RingProtocol.QuiescentWindow` | harness/include/shm_ring.h:70-79 | whenever the producer is idle, the memory reached by any interleaving is the log window of the sequential ring |
| `RingProtocol.ExactnessGuard` | harness/include/shm_ring.h:106-112 | for each edge a successful read of i can see: it guarantees the published frame if and only if the edge is below i + n |
| `RingProtocol.TornRead` | harness/include/shm_ring.h:70-112 | a run in which kOk returns a frame that was never published at that index, for every ring size and index |
| `RingProtocol.LapWithoutProgress` | harness/include/shm_ring.h:77-78 | a run in which kLapped sends the reader back to the very position it asked for |
| `Messages.WalkRecovers` | src/receiver_shm_writer.cpp:22-35 | walking as many records as were concatenated gives back exactly those frames, whatever follows them |
| `Messages.UniqueDecoding` | src/receiver_shm_writer.cpp:22-35 | two lists of valid frames with the same concatenation are the same list |
| `Messages.WalkMeaning` | src/receiver_shm_writer.cpp:22-35 | a walk finds the frames fs if and only if fs, one behind the other, are the beginning of the data and each has the length its own header states |
| `Messages.RawRecord` | harness/include/message_raw.hpp:33-36 | where data begins with a raw header written field by field, one record is cut at the length in bytes 20 to 23, if that is at most 576 and within the data, and the walk leaves buffer or slot otherwise; nothing else is checked |
| `Messages.CompactRecord` | harness/include/message_compact.hpp:156-170 | the same for a compact header: 64, 48 or 96 bytes for types 1, 2 and 3, and an empty record for any other |
| `SenderReader.SenderShmReader.constructor` | src/sender_shm_reader.cpp:10-15 | the reader starts at the live edge with nothing seen and all counters zero |
| `SenderReader.SenderShmReader.Settle` | src/sender_shm_reader.cpp:22-94 | validation, continuity and lapping accounts for each outcome of the ring, with the view into the reused buffer showing exactly the accepted frame |
| `SenderReader.SenderShmReader.TryRead` | src/sender_shm_reader.cpp:17-94 | on a ring between publishes the reader takes what the log window has at its position |
| `SenderReader.SenderShmReader.Poll` | src/sender_shm_reader.cpp:17-94 | the same for any outcome of a ring that is being written, whatever a failed read left in the buffer |
| `SenderReader.PollAccounts` | src/sender_shm_reader.cpp:25-91 | over every run: polls are reads, empty polls or laps, and every frame read is handed on or counted invalid |
| `SenderReader.OutcomesCounted` | src/sender_shm_reader.cpp:25-91 | over every run: frames read, empty polls, lapped events and bytes read are the answers of the ring, counted one by one |
| `SenderReader.RawFrames` | src/sender_shm_reader.cpp:30-53 | a raw frame written field by field is handed on, with these bytes and its id, if and only if the length field is its length and at most 576; otherwise it is counted invalid |
| `SenderReader.CompactFrames` | src/sender_shm_reader.cpp:30-53 | a compact frame written field by field is handed on if and only if it is of type 1 and 64 bytes long, 2 and 48, or 3 and 96; otherwise it is counted invalid |
| `SenderReader.ShortFrames` | src/sender_shm_reader.cpp:30-34 | fewer than 24 bytes are counted invalid |
| `SenderReader.PositionAccounts` | src/sender_shm_reader.cpp:14-91 | over every run: read index = starting edge + frames read + frames skipped by lapping |
| `SenderReader.RunningMaxIsMaximum` | src/sender_shm_reader.cpp:55-77 | the running maximum is the maximum of the ids handed on |
| `SenderReader.ContinuityAccounts` | src/sender_shm_reader.cpp:55-77 | over every run: prev_valid is the running maximum of valid ids and equals first id + advances + frames missing; a frame is flagged exactly when its id does not follow that maximum |
| `SenderReader.OfferedFromLog` | src/sender_shm_reader.cpp:25-53 | with exact reads, frames handed on are log entries at strictly increasing positions |
| `SenderReader.MissingIsUnread` | src/sender_shm_reader.cpp:61-71 | with exact reads of a numbered log, frames missing is the number of positions between the first and the last frame handed on at which nothing was read |
| `SenderReader.MissingIsLapped` | src/sender_shm_reader.cpp:61-91 | and that is what lapping skipped since the first frame |
| `Bytes.WriteBE` | include/lldt/raw_data_packet_builder.hpp:45-55 | the byte loop stores the big-endian encoding and touches nothing else |
| `Bytes.BERoundTrip` | include/lldt/raw_data_packet_builder.hpp:45-55 | big-endian decoding inverts the encoding for every value that fits |
| `Bytes.ToLEAt` | harness/src/producer.cpp:80-90 | byte k of a stored little-endian field is v / 256^k modulo 256 |
| `Bytes.ToBEAt` | include/lldt/raw_data_packet_builder.hpp:45-55 | byte k of a big-endian field of n bytes is v / 256^(n-1-k) modulo 256 |
| `PacketBuilder.UncheckedCapacity` | src/raw_data_packet_builder.cpp:11-24 | the unchecked unsigned subtraction of the constructor gives the room that is left if and only if the first frame fits |
| `PacketBuilder.AtMostSixty` | src/raw_data_packet_builder.cpp:26-39 | a packet holds at most 60 valid frames, so the 16-bit record count cannot wrap |
| `PacketBuilder.RawDataPacketBuilder.constructor` | src/raw_data_packet_builder.cpp:11-24 | written bytes and remaining capacity add up, and the packet holds a copy of the first frame |
| `PacketBuilder.RawDataPacketBuilder.TryAppend` | src/raw_data_packet_builder.cpp:26-39 | a frame is appended exactly when it fits; a refused one changes nothing |
| `PacketBuilder.RawDataPacketBuilder.WriteLLDTHeader` | src/raw_data_packet_builder.cpp:41-63 | the 22 header bytes, with the bytes around them untouched |
| `PacketBuilder.RawDataPacketBuilder.Finalize` | src/raw_data_packet_builder.cpp:65-76 | header and payload in place are the canonical image of the frames appended |
| `PacketBuilder.BuildCanonical` | src/raw_data_packet_builder.cpp:78-100 | one frame: refused exactly when it does not fit, otherwise the canonical image |
| `Materializer.PrepareDestination` | src/dpdk/data_packet_materializer.cpp:54-89 | the template headers are the bytes the fields ask for, with the checksum base computed over them |
| `Materializer.LengthFields` | src/dpdk/data_packet_materializer.cpp:24-39 | IPv4 total length, UDP length and packet length agree, without 16-bit truncation, for every canonical size up to 1472; no UDP checksum |
| `Materializer.ChecksumCorrect` | src/dpdk/data_packet_materializer.cpp:35-37 | the checksum patched into the precomputed base with one addition and one fold is the one recomputed over the header, and the header verifies to 0xFFFF |
| `Materializer.ChecksumIsStandard` | src/dpdk/data_packet_materializer.cpp:35-37 | although words are summed in host order, it is the checksum of section 3.1 of RFC 791 and section 2(B) of RFC 1071 on network-order words |
| `Checksum.ByteOrder` | src/dpdk/data_packet_materializer.cpp:86 | the sum of byte-swapped words is the byte-swapped sum modulo 65535 |
| `Checksum.PatchedIsRecomputed` | src/dpdk/data_packet_materializer.cpp:35-36 | replacing a zero word by adding to the folded base gives the folded sum of the changed header |
| `Materializer.Mbuf.TryReserve` | src/dpdk/data_packet_materializer.cpp:7-16 | room for the largest packet, or nothing reserved |
| `Materializer.Mbuf.Finalize` | src/dpdk/data_packet_materializer.cpp:18-52 | the buffer is cut to size and the three headers stand in front of the canonical image, which stays as it is |
| `Materializer.EnvelopeBytes` | src/dpdk/data_packet_materializer.cpp:18-89 | the 42 bytes in front of a canonical image, each from the arguments of prepare_destination and the size |
| `Materializer.Materialize` | src/dpdk/data_packet_materializer.cpp:18-89 | from the addresses to the finished buffer: next hop, local MAC, 08 00, 45 00, total length, 00 00 40 00 40 11, checksum, local and receiver address, the port twice, UDP length, 00 00; the ten words of the IPv4 header add up to a multiple of 65535, the checksum is never FF FF, and the image behind is untouched |
| `IngressParser.RoundTrip` | src/dpdk/ingress_packet_parser.cpp:12-44 | for every destination, sequence number and list of valid frames that fits, whatever lies behind the packet in its buffer: parsing the wire packet gives back the sequence number, the count and exactly the frames, and the walk ends where the packet ends |
| `IngressParser.HeaderFields` | src/dpdk/ingress_packet_parser.cpp:19-43 | the parser finds prefix, sequence number and count where the builder put them |
| `IngressParser.ParsesExactly` | src/dpdk/ingress_packet_parser.cpp:12-44 | a packet of 64 bytes or more, built field by field, parses if and only if the seven bytes at 42 are 4C 4C 44 54 01 00 16, and then with the number and count at 49 and 57 |
| `IngressParser.ShortIsNone` | src/dpdk/ingress_packet_parser.cpp:14-17 | a packet of fewer than 64 bytes does not parse |
| `IngressParser.WireLayout` | src/raw_data_packet_builder.cpp:41-76 | a wire packet is the 42 bytes of the envelope, 4C 4C 44 54 01 00 16, number, count, five zero bytes and the frames |
| `ReceiverWriter.Write` | src/receiver_shm_writer.cpp:22-35 | the output log grows by exactly the records that the walk finds, in order; the walk may run past the packet, but not out of the buffer or the slot |
| `Receiver.Loop.HandleView` | src/receiver_main.cpp:140-164 | a parsed packet sets the starting point, is stale, or is published with its gap counted, also where its records run past it into the buffer; only a walk that leaves the buffer or the slot is excluded, and only for a packet that is not stale |
| `Receiver.Loop.HandlePacket` | src/receiver_main.cpp:129-164 | one received buffer, of which the packet is the first data_len bytes: not a Data packet, stale, or accepted |
| `Receiver.Loop.Run` | src/receiver_main.cpp:116-168 | the burst loop makes of its bursts what the specification makes of them |
| `Receiver.ProcessIsTake` | src/receiver_main.cpp:116-168 | what the loop makes of its buffers is a run over packets and the frames written for them |
| `Receiver.ReceiverAccounts` | src/receiver_main.cpp:127-165 | over any packets, whatever frames the writer makes of them: accepted numbers strictly increase, next - first = accepted + missing, missing is exactly the number of sequence values in that range never accepted, every packet is counted once, frames published equals the length of the output log |
| `Receiver.BurstsDoNotMatter` | src/receiver_main.cpp:116-168 | how packets are grouped into bursts changes nothing but the burst counters |
| `ReceiverLaws.ReceiverRecords` | src/receiver_main.cpp:116-168 | over any bursts: accepted are exactly the parsed packets whose number exceeds all that came before, in order; the log is what was written for them; every counter in terms of the arrivals: bursts and empty ones, packets and bytes received, invalid and stale packets, jumps between accepted numbers, records announced and payload bytes of the accepted |
| `Sender.SenderConservation` | src/sender_main.cpp:135-235 | at every loop head of every run: frames read = invalid + offered; offered = packetized + allocation failures + carried (+ the one lost where reserving failed); next_data_seq = built = consumed = enqueued + unsent |
| `Sender.PacketsSound` | src/sender_main.cpp:179-217 | every packet holds 1 to 60 whole valid frames that fit, offered in a row, with a gap flag only on the first |
| `Sender.CleanStream` | src/sender_main.cpp:147-217 | without buffer failures packets and carry are the source stream itself |
| `Sender.BatchingPreservesStream` | src/sender_main.cpp:186-217 | on the same answers of the ring, batching on or off sends the same frames in the same order |
| `Sender.DeferredFrameGoesFirst` | src/sender_main.cpp:147-152 | a frame deferred for no fit or a gap is the first record of the very next packet, if the buffer for that packet can be had |
| `Sender.Shutdown` | src/sender_main.cpp:137-145 | once stop is seen at a loop head nothing more is read, at most one more packet is built, the carry is empty and the loop ends |
| `SenderLaws.RunHeads` | src/sender_main.cpp:135-235 | every run begins empty and every turn keeps the law of a round: it ends where the flag is up and nothing is carried; otherwise it takes the carried frame or one answer of the ring, loses the frame and goes on where no buffer is to be had, ends where the buffer is too small, and builds one packet of the frames read, less the one it may carry, otherwise |
| `SenderLaws.Unbatched` | src/sender_main.cpp:186 | with batching off, over every run: each packet is one frame, nothing is ever carried, and no round takes more than one answer of the ring |
| `SenderLaws.PacketsEnd` | src/sender_main.cpp:186-217 | every packet of every run was built in one round, from the frame carried and those read in it; with batching on the flag was looked at before every further poll, and the packet ends only at the flag, at an answer that hands on no frame, or before a frame that is flagged or longer than 1450 less the bytes in the packet |
| `SenderLaws.SenderCounters` | src/sender_main.cpp:135-235 | over every run: allocation failures are the requests refused, packets the buffers of at least 1514 bytes, payload bytes those in the packets; the run fails exactly for a smaller buffer, stops exactly when a look found the flag up, and ends only for one of the two |
| `SenderLaws.SentAsTaken` | src/sender_main.cpp:228-234 | enqueued are exactly the packets that the NIC took, and offered the frames handed on |
| `SenderLoop.Loop.Turn` | src/sender_main.cpp:188-216 | one turn of the batching loop does what the specification says, uses up room, and keeps the packet in place a copy of the frames |
| `SenderLoop.Loop.FillBatch` | src/sender_main.cpp:186-217 | the batching loop terminates and gathers the frames of the specification |
| `SenderLoop.Loop.Seal` | src/sender_main.cpp:219-220 | the finished buffer is byte for byte the wire packet of the frames as validated |
| `SenderLoop.Loop.Submit` | src/sender_main.cpp:222-234 | counters, sequence number and wire after a submission, taken by the NIC or not |
| `SenderLoop.Loop.Reserve` | src/sender_main.cpp:163-177 | a buffer, a counted allocation failure, or the end of the run |
| `SenderLoop.Loop.RunRound` | src/sender_main.cpp:135-235 | one turn of the outer loop over the one reused buffer, with the carried view still showing the frame validated when it was read |
| `SenderLoop.Loop.Run` | src/sender_main.cpp:131-235 | for every run: the state is that of the specification, and the wire holds exactly the bytes of the enqueued packets, so no view is used after its buffer was overwritten |
| `SourceGaps.OrderInsidePacket` | src/sender_main.cpp:204-209 | inside a packet records after the first are consecutive; the second follows the first if and only if the first is not stale |
| `SourceGaps.PacketsKeepOrder` | src/sender_main.cpp:204-215 | the same for every packet of every run |
| `SourceGaps.GapInsidePacket` | WIRE_PROTOCOL.md:136 | ids 5, 3, 6: two rounds of the loop put 3 and 6 in one packet, so the documented claim fails for a stale first record |
| `SourceGaps.PacketIsLogPiece` | harness/src/producer.cpp:317-327 | with exact reads of a numbered log every packet is a contiguous piece of the source log |
| `SourceGaps.RingIsExact` | src/sender_shm_reader.cpp:17-94 | a ring that is only published to between reads is such an exact source |
| `Metrics.Accumulator.Record` | harness/include/metrics.h:47-77 | received = stored + overflow; first and last are least and greatest id; stored samples are the first ones recorded |
| `Metrics.Accumulator.MakeReport` | harness/include/metrics.h:89-139 | received, expected, dropped, drop rate and overflow of all ids, and extremes, mean and quantiles of the stored latencies, rates and ranks over real numbers |
| `Metrics.MeanBetween` | harness/include/metrics.h:114-128 | the mean lies between the extremes |
| `Metrics.DroppedIsExact` | harness/include/metrics.h:99-103 | dropped never exceeds the number of ids missing between least and greatest, and equals it if and only if no id came twice or nothing is missing; distinct ids never outnumber expected |
| `Metrics.ReportCountsDrops` | harness/include/metrics.h:99-103 | for distinct ids in any order: expected = received + dropped, and dropped is the number of missing ids |
| `Metrics.PercentileIsQuantile` | harness/include/metrics.h:163-185 | the nearest-rank percentile is the least sample that at least the part p of the samples do not exceed |
| `Metrics.QuantilesAreUnique` | harness/include/metrics.h:163-185 | there is only one such sample |
| `Metrics.ReportQuantiles` | harness/include/metrics.h:133-137 | in whole numbers: each quantile of a report is the least sample such that 1, 50, 99 in 100, 999 in 1000 or 9999 in 10000 samples do not exceed it |
| `Metrics.RateTimesExpected` | harness/include/metrics.h:105-109 | drop rate times expected is dropped |
| `Metrics.MeanTimesCount` | harness/include/metrics.h:126-128 | mean times the number of samples is their sum |
| `Metrics.SumOfParts` | harness/include/metrics.h:114-124 | the sum of samples is additive, and of one sample the sample |
| `Consumer.Loop.RunTurn` | harness/src/consumer.cpp:190-233 | one turn of the read loop, framing read from the reused frame array |
| `Consumer.Loop.Run` | harness/src/consumer.cpp:190-233 | the loop up to --count or the idle limit |
| `Consumer.Loop.Finish` | harness/src/consumer.cpp:240-241 | the report is one on the ids and latencies recorded |
| `Consumer.ConsumerSeesInOrder` | harness/src/consumer.cpp:190-233 | over exact reads of a log with increasing ids the recorded ids strictly increase, and --count is not exceeded |
| `Consumer.ConsumerRecords` | harness/src/consumer.cpp:190-233 | over every run on exact reads: the k-th id and latency are those of the k-th frame returned, the latency being receipt time less the stamp in bytes 8 to 15, or 0 where that is not positive; positions start at the live edge and go on by one, or where a lap said |
| `Consumer.ConsumerStops` | harness/src/consumer.cpp:190-238 | over every run: polling stops when --count frames are received or the ring stayed empty past the limit, and not before; laps are counted |
| `Consumer.ReportIsExact` | harness/src/consumer.cpp:168-171 | then dropped is exactly the number of ids missing between first and last, and with --count given no sample overflows |
| `Producer.Loop.BuildTrade` | harness/src/producer.cpp:92-119 | the trade frame with the running totals, bytes in place |
| `Producer.Loop.BuildBbo` | harness/src/producer.cpp:121-139 | the quote frame, bytes in place |
| `Producer.Loop.BuildBook` | harness/src/producer.cpp:141-168 | the book frame, bytes in place |
| `Producer.Loop.Run` | harness/src/producer.cpp:317-327 | the publish loop leaves in the ring exactly the messages of the specification, as many as the turns taken and no more than --count |
| `Producer.ProducedIsNumbered` | harness/src/producer.cpp:317-327 | entry i of the producer's log is a valid compact frame with sequence id i + 1 |
| `Producer.ProducedMessages` | harness/src/producer.cpp:80-168 | over every run: message s is a 64-byte trade, a 48-byte quote or a 96-byte book for s mod 3 = 0, 1, 2, or always of the kind asked for; with id s, its stamp, the distance to the exchange time modulo 2^32, flags, and every price, size, count and offset as a number of s |
| `Producer.TotalsAreRunning` | harness/src/producer.cpp:101-107 | every trade carries, modulo 2^64, the sums of quantity, notional and count over all trades up to it |
| `Producer.TotalsSurviveLoss` | harness/src/producer.cpp:92-119 | for any two trades of the log the differences of the totals are the sums over all trades generated in between, exactly so up to 2 852 783 933 of them |
| `Producer.TotalsDoNotWrap` | harness/src/producer.cpp:101-107 | up to that number of trades in all no total has wrapped |
| `Producer.ExchangeTimeRoundTrip` | harness/include/message_compact.hpp:172-181 | the exchange time comes back from a header if and only if its distance to the send time fits 32 signed bits |
| `Subsequences.SubSeqMeaning` | src/receiver_main.cpp:140-160 | being an in-order subsequence means having strictly increasing positions in the other list |
| `EndToEnd.ReceiverDelivers` | src/receiver_main.cpp:127-165 | for any arrivals drawn from the wire, in any order and number, among other traffic and with anything behind them in their buffers: the walk stays inside every packet, and each packet is published at most once, in sequence order, with the frames it was built with |
| `EndToEnd.ReceiverPublishesInOrder` | src/sender_main.cpp:135-235 | whatever the ring answered and whatever buffers, NIC and network did: the receiver's log is an in-order subsequence of the frames the sender validated |
| `EndToEnd.OutputIsSubsequenceOfSource` | src/receiver_shm_writer.cpp:22-35 | with exact reads of a numbered source log, the receiver's log is an in-order, duplicate-free subsequence of it |
| `EndToEnd.MissingIsUnsent` | src/receiver_main.cpp:152-156 | over a network that keeps order and loses nothing, missing is the number of packets the sender could not send between the first and the last delivered |
| `EndToEnd.OutputIdsIncrease` | src/receiver_main.cpp:127-165 | ids on the output ring strictly increase and are ids of the source log |
| `EndToEnd.ConsumerCountsLoss` | harness/include/metrics.h:99-103 | a consumer of the output ring counts as dropped exactly the source frames between its first and its last that it did not get |
| `EndToEnd.CompactPath` | harness/src/producer.cpp:317-327 | producer, Sender, any network, Receiver, over a ring with exact reads: what comes out is an in-order subsequence of what the producer generated, with increasing ids |
| `ConcurrentSource.ReadsAreSound` | harness/include/shm_ring.h:90-113 | every read that one reader completes in a schedule keeps what the protocol guarantees of it for the rest of the schedule |
| `ConcurrentSource.ScheduleIsExact` | src/sender_shm_reader.cpp:17-94 | for every schedule in which a reader polls as the Sender does and no successful read was raced (its edge was below index + n, or no publish was under way), the publications are an exact source to the Sender: reads exact, laps forward |
| `ConcurrentSource.ScheduleIsExactToConsumer` | harness/src/consumer.cpp:190-233 | the same of a reader that polls as the consumer does |
| `ConcurrentSource.CompactPathOverRing` | harness/src/producer.cpp:317-327 | producer, ring with any such interleaving, Sender, any network, Receiver: what comes out is an in-order subsequence of what the producer generated, with increasing ids |
| `EndToEnd.OutputTotals` | harness/src/producer.cpp:92-119 | any two trades that come out of the transport give the totals over all trades generated in between, delivered or not |

## Left out

- DPDK port setup, mempools, EAL and NIC statistics: foreign calls; allocation, transmission and reception are inputs.
- `rte_raw_cksum` is library code: modelled as the sum of host-order words folded twice.
- `std::sort` is library code: modelled as an insertion sort on values.
- POSIX shared-memory mapping, signals, printing, CSV output and real-time pacing.
- Attach and initialisation races between processes, and reordering of shared accesses beyond the interleavings of the program order.
- Command-line and configuration parsing.
- The producer of the raw profile, whose prices are floating point; the raw frames themselves (sizes, ids, validation, transport) are covered.
- Metrics.PercentileIsQuantile: the rank is computed over real numbers, without the rounding of doubles.
- Metrics.Accumulator.MakeReport: drop rate and mean are real numbers, without the rounding of doubles.
- The two stamps of the clock in one producer turn are inputs of that turn; header fields are stored together after the body, and book rows one after the other, where the source interleaves them in a private buffer.
- Packet buffers are contiguous arrays; mbuf chains and reference counts are not part of the model.
- ShmRing.Ring.Read: nothing runs between the copy and the second look at the sequence, so the second lapped branch is only in RingProtocol.
- ReceiverWriter.Write: a walk that leaves the receive buffer, or a frame larger than a slot, is undefined behaviour of the program and excluded.
- Receiver.Loop.Run: the bursts are given as a list, the last one being what was polled before the stop signal.
- SenderLoop.Loop.Run: a run is any number of turns of the loop, since the signal may never come.
