# Verification of the packet engine

A Dafny model of the C++ packet engine: two threads that capture Ethernet frames into a bounded ring, dissect
them, keep flow records and publish one JSON message per frame to RabbitMQ. The claims below are for all inputs,
all interleavings or all runs, except for the witnesses `BoundIsTight`, `ShortTotalLengthLeaks`,
`StopExitBreaksMatching` and `StopCanBeMissed`, which show that something bad does exist, and `AllGetThrough`,
which shows that the good runs do.

`dafny verify dfyconfig.toml` checks the project.

| file | models |
|---|---|
| `Bytes.dfy` | fixed-width integers, byte orders, permutations of sequences |
| `Checksum.dfy` | `internetChecksum`, `verifyIpChecksum` |
| `Ring.dfy` | `RingBuffer` as a value and as the class that updates its flat array |
| `RingProtocol.dfy` | the ring's mutex, condition variables and stop flag under any number of threads |
| `PacketBuffer.dfy` | the timestamp framing of ring slots |
| `Parsers.dfy` | Ethernet, IPv4, TCP, UDP, ICMP and ARP parsers over views into the frame buffer |
| `Dissector.dfy` | `filter_stage` and `dissector_stage`; containment and stale bytes |
| `Text.dfy`, `Stats.dfy` | decimal, address and MAC printing; `stats_stage` and the flow key |
| `RoundTrip.dfy` | reference encoders and exact acceptance |
| `FlowTracker.dfy` | `FlowTable` against recomputation from the whole history |
| `Histories.dfy` | the flow records in terms of what was sent |
| `Json.dfy` | `buildJson` and a strict reader |
| `Publisher.dfy` | `connect`, `disconnect` and `publish` against an arbitrary broker |
| `Pipeline.dfy`, `Progress.dfy` | both threads composed into one system; complete runs exist |
| `Engine.dfy` | one loop iteration on the real objects |

## How the model reads the code

- **Locked sections.** The ring protocol has separate steps for taking the mutex, testing the wait predicate,
  blocking, waking, re-acquiring and the critical section (which ends with `notify_one` and the unlock).
  Spurious wake-ups may happen at any time. The signal handler raises the flag and notifies without the mutex.
- **The frame buffer.** The pipeline thread parses every frame in one static 2040-byte buffer. The parsers work
  on that whole buffer, so that what a length error makes them read is part of the model.
- **Unsigned arithmetic.** Lengths, counters and the checksum accumulator wrap as in C++.
- **The environment.** The answers of the AMQP library to one `publish` call are an `Oracle`; a lemma for all
  oracles covers every behaviour. A confirm answers some outstanding publish of its connection, at most one per
  publish, in any order. Timestamps are arbitrary, local addresses an arbitrary fixed set.

## Where the code falls short of what one would expect

- An IP header whose total length is smaller than the header passes the parser (`ip_parser.cpp:43-58`). Then the
  payload length wraps around (`IpContainment` has the exact condition) and the transport parser may read bytes
  that earlier frames left in the buffer. `StaleBytesExactly` says for exactly which frames the dissected frame
  depends on such bytes, `EnrichedStaleBytesExactly` says it for what is tracked and published, and
  `ShortTotalLengthLeaks` gives one.
- `publish` accepts any `Basic.Ack`. A call that leaves through the stop exit leaves its confirm outstanding, and
  the next call would take it for its own (`StopExitBreaksMatching`). After any run the next call is certain to be
  told about its own frame if and only if every stop exit was followed by an outcome that drops the connection
  (`ConfirmsOwnVisibly`); in the engine no call follows a stop exit (`ConfirmsMatchEver`).
- A thread caught between its predicate test and its block misses the stop notification (`StopMissedExactly`), and
  runs from a new ring lead there for readers and writers alike (`StopCanBeMissed`).
- The checksum accumulator is exact up to 131074 bytes and not beyond (`MeetsRfc1071Exactly`, `BoundIsTight`).
- The flow key leaves out the protocol, so TCP and UDP on one 4-tuple share a record, and so do ICMP and other
  protocols; `SameFlow` says so. Protocol 0 prints as "ARP" whether or not the frame is an ARP frame.

## Model

| member | source | states |
|---|---|---|
| `Checksum.InternetChecksum` | cpp-packet-engine/src/utils/checksum.cpp:5-25 | for every buffer the two loops return the complement of the end-around-carry normal form of the word sum taken modulo 2^32 |
| `Checksum.FoldAtMostTwice` | cpp-packet-engine/src/utils/checksum.cpp:20-22 | two rounds of the carry loop are enough for every 32-bit sum, and one is not always |
| `Checksum.MeetsRfc1071` | cpp-packet-engine/src/utils/checksum.cpp:5-25 | up to 131074 bytes the accumulator does not wrap and the result is the complement of the word-by-word one's complement sum of section 1 of RFC 1071 |
| `Checksum.MeetsRfc1071Exactly` | cpp-packet-engine/src/utils/checksum.cpp:5-25 | at any length, agreement with RFC 1071 if and only if the lost carries are a multiple of 65535 and the wrapped sum is no false zero |
| `Checksum.BoundIsTight` | cpp-packet-engine/src/utils/checksum.cpp:6-14 | a buffer of 131075 bytes with a wrong result exists |
| `Checksum.PermutationInvariant` | cpp-packet-engine/src/utils/checksum.cpp:8-14 | any permutation of aligned words gives the same result, at any length |
| `Checksum.SplitCombines` | cpp-packet-engine/src/utils/checksum.cpp:8-24 | split at an even offset, the parts combine by one's complement addition |
| `Checksum.ByteOrderIndependent` | cpp-packet-engine/src/utils/checksum.cpp:8-24 | swapping the bytes of every word swaps the bytes of the result |
| `Checksum.VerifiesIff` | cpp-packet-engine/src/utils/checksum.cpp:27-29 | verification succeeds exactly for nonzero multiples of 65535 |
| `Checksum.InsertionVerifies` | cpp-packet-engine/src/utils/checksum.cpp:5-29 | storing the checksum over its zeroed field makes the buffer verify |
| `Checksum.SingleWordDetection` | cpp-packet-engine/src/utils/checksum.cpp:5-29 | from a verifying buffer a change of one word goes unnoticed exactly when it exchanges 0x0000 and 0xFFFF and the sum stays nonzero |
| `Ring.RingBuffer.constructor` | cpp-packet-engine/src/utils/ring_buffer.cpp:8-22 | a new ring is empty with head, tail and count zero |
| `Ring.RingBuffer.Create` | cpp-packet-engine/src/utils/ring_buffer.cpp:23-28 | capacities outside 1..65536 are rejected, all others give an empty ring |
| `Ring.RingBuffer.Write` | cpp-packet-engine/src/utils/ring_buffer.cpp:31-57 | when it refuses, waits, gives up at stop or stores; storing appends exactly the bytes to the queue held in the flat array, anything else changes nothing |
| `Ring.RingBuffer.Read` | cpp-packet-engine/src/utils/ring_buffer.cpp:60-82 | when it waits, gives up or delivers; delivering removes the front of the queue and copies exactly its bytes |
| `Ring.PutAppends` | cpp-packet-engine/src/utils/ring_buffer.cpp:47-52 | writing into the head slot appends to the queue, across wrap-around |
| `Ring.TakeRemoves` | cpp-packet-engine/src/utils/ring_buffer.cpp:72-77 | advancing the tail removes the front of the queue |
| `Ring.PutFrame` | cpp-packet-engine/src/utils/ring_buffer.cpp:47-49 | a write changes no slot but the head slot |
| `RingProtocol.InvStep` | cpp-packet-engine/src/utils/ring_buffer.cpp:31-82 | every step of every thread keeps mutual exclusion, FIFO, what each phase knows, and the wake-up bound |
| `RingProtocol.NoLostWakeupEver` | cpp-packet-engine/src/utils/ring_buffer.cpp:39-41 | in every reachable state with any number of threads: while a thread of a role sleeps there is at most as much work for the role (items, free slots) as threads of it awake inside the call; with the mutex free these are the signalled ones; readers and writers never all sleep |
| `RingProtocol.FifoEver` | cpp-packet-engine/src/utils/ring_buffer.cpp:31-82 | in every reachable state accepted writes are the completed reads followed by the live slots, and head is (tail + count) modulo capacity |
| `RingProtocol.CriticalSectionSafe` | cpp-packet-engine/src/utils/ring_buffer.cpp:43-52 | in every reachable state a write let through has a free slot and touches no live one, a read let through has a live one |
| `RingProtocol.StopMissedExactly` | cpp-packet-engine/src/main.cpp:24-28 | after a stop notification a thread of the role can still fall asleep if and only if one was between its test and its block at that moment |
| `RingProtocol.StopCanBeMissed` | cpp-packet-engine/src/main.cpp:24-28 | from every new ring and for either role a run leads to a raised flag whose notification some thread sleeps through |
| `PacketBuffer.PacketBuffer.Write` | cpp-packet-engine/src/capture/packet_buffer.cpp:30-43 | refuses exactly sizes outside 1..2040; stores timestamp and frame as one slot |
| `PacketBuffer.PacketBuffer.Read` | cpp-packet-engine/src/capture/packet_buffer.cpp:46-78 | on slots so written the corruption branch is dead, with 2040 bytes of room so is the size branch, and the stamped frame at the front comes back |
| `PacketBuffer.DecodeEncode` | cpp-packet-engine/src/capture/packet_buffer.cpp:39-76 | slot framing loses nothing |
| `Parsers.ParseEthernetFrame` | cpp-packet-engine/src/parsers/ethernet_parser.cpp:21-51 | the loops fill in exactly the addresses, type and payload view of the frame |
| `Parsers.ParseArpPacket` | cpp-packet-engine/src/parsers/arp_parser.cpp:17-59 | accepts exactly Ethernet/IPv4 packets of at least 28 bytes and returns their fields |
| `Dissector.FilterStage` | cpp-packet-engine/src/pipeline/filter_stage.cpp:7-51 | consumes one slot, overwrites the start of the frame buffer with its frame, and passes on exactly IPv4 and ARP frames with a payload |
| `Dissector.IpContainment` | cpp-packet-engine/src/parsers/ip_parser.cpp:25-58 | the IP payload view lies in the frame, and lengths add up, if and only if the total length in the frame's bytes covers the header |
| `Dissector.TransportContainment` | cpp-packet-engine/src/pipeline/dissector_stage.cpp:37-110 | under that condition transport header and payload lie in the IP payload and add up, and the addresses peeked at are the parsed ones |
| `Dissector.Agreement` | cpp-packet-engine/src/pipeline/dissector_stage.cpp:18-111 | a self-contained frame gives the same result in any buffer, and an accepted one also with bytes appended |
| `Dissector.StaleBytesExactly` | cpp-packet-engine/src/parsers/ip_parser.cpp:43-58 | the dissected frame is independent of earlier frames if and only if the frame is self-contained |
| `Stats.EnrichedStaleBytesExactly` | cpp-packet-engine/src/pipeline/stats_stage.cpp:30-129 | the enriched frame is independent of earlier frames if and only if the bytes it keeps, and those that decide about acceptance, are in the frame |
| `Dissector.ShortTotalLengthLeaks` | cpp-packet-engine/src/parsers/ip_parser.cpp:43-58 | a 34-byte frame whose result depends on earlier frames |
| `Dissector.PacketSizeBound` | cpp-packet-engine/src/parsers/ip_parser.cpp:43-45 | no accepted packet is larger than 2026 bytes |
| `RoundTrip.IpRoundTrip` | cpp-packet-engine/src/pipeline/stats_stage.cpp:30-129 | from any encoded TCP, UDP, ICMP or other IP frame, with any options, padding and stale bytes, every retained field comes back and the checksum verdict is that of the header sent |
| `RoundTrip.SealedVerifies` | cpp-packet-engine/src/parsers/ip_parser.cpp:34-54 | a header whose sender filled in the checksum verifies, for every header length the parser admits |
| `RoundTrip.ArpParsed` | cpp-packet-engine/src/parsers/arp_parser.cpp:25-58 | every field of an encoded ARP packet is recovered |
| `RoundTrip.ArpRoundTrip` | cpp-packet-engine/src/pipeline/stats_stage.cpp:95-107 | from any encoded ARP frame every retained field comes back |
| `RoundTrip.TcpParsed` | cpp-packet-engine/src/parsers/tcp_parser.cpp:19-56 | ports, sequence number, offset, masked flags, window and payload view of an encoded segment |
| `RoundTrip.UdpParsed` | cpp-packet-engine/src/parsers/udp_parser.cpp:12-43 | ports, length, DNS flag and payload view of an encoded datagram, also inside a longer IP payload |
| `RoundTrip.IcmpParsed` | cpp-packet-engine/src/parsers/icmp_parser.cpp:5-28 | type, code, size, oversize flag and payload view of an encoded message |
| `RoundTrip.AcceptsExactly` | cpp-packet-engine/src/pipeline/dissector_stage.cpp:18-111 | the chain accepts a frame whose total length does not fall short of its header if and only if it is the image of a reference encoder, possibly padded |
| `Text.MacToString` | cpp-packet-engine/src/publishers/rabbitmq_publisher.cpp:33-41 | the stream loop prints the six bytes as text that decodes to them again |
| `Text.DottedDecimal` | cpp-packet-engine/src/pipeline/stats_stage.cpp:9-14 | the text is four decimal numbers below 256 with dots between them, most significant byte first |
| `Text.UnIpTextIpText` | cpp-packet-engine/src/pipeline/stats_stage.cpp:9-14 | dotted-decimal text determines the address |
| `Stats.FlowKeyInjective` | cpp-packet-engine/src/pipeline/stats_stage.cpp:16-27 | two frames have equal keys if and only if they have the same ARP sender or the same directed 4-tuple |
| `Stats.KeyText` | cpp-packet-engine/src/pipeline/stats_stage.cpp:16-27 | the exact text of both kinds of key, with their separators |
| `Stats.KeyShape` | cpp-packet-engine/src/pipeline/stats_stage.cpp:16-27 | keys are never empty, and an ARP key never looks like another |
| `Stats.PaddingInvariant` | cpp-packet-engine/src/parsers/ip_parser.cpp:43-58 | padding an accepted frame whose bytes settle the enriched frame leaves the latter unchanged; every frame whose total length covers its header is such |
| `FlowTracker.FlowTable.Update` | cpp-packet-engine/src/pipeline/flow_tracker.cpp:7-48 | the table changes only at the frame's key, by one update of its record; the flag says whether the sequence number was known |
| `FlowTracker.FlowTable.Get` | cpp-packet-engine/src/pipeline/flow_tracker.cpp:50-55 | the stored record, or a blank one |
| `FlowTracker.FlowTable.Track` | cpp-packet-engine/src/pipeline/flow_tracker.cpp:57-62 | update, then the updated record |
| `FlowTracker.CountBytes` | cpp-packet-engine/src/pipeline/flow_tracker.cpp:12-23 | when key and first timestamp are set, and which byte counters move |
| `FlowTracker.CountTcp` | cpp-packet-engine/src/pipeline/flow_tracker.cpp:25-46 | which flag counters move, and that a known nonzero sequence number counts as a retransmission; `CountsWhatWasSent` ties the tests to the bits on the wire |
| `FlowTracker.MatchesRecomputation` | cpp-packet-engine/src/pipeline/flow_tracker.cpp:7-48 | after any history each record equals the one recomputed from the frames of its key alone |
| `FlowTracker.Isolation` | cpp-packet-engine/src/pipeline/flow_tracker.cpp:7-55 | frames of other keys make no difference to a record |
| `FlowTracker.RecordIdentity` | cpp-packet-engine/src/pipeline/flow_tracker.cpp:12-16 | stored records carry their key and last timestamp, and the first one exactly when the key is nonempty or the two coincide |
| `FlowTracker.RetransmitExactly` | cpp-packet-engine/src/pipeline/flow_tracker.cpp:36-44 | the flag is raised if and only if an earlier TCP frame of the flow had the same nonzero sequence number |
| `FlowTracker.OrderIndependent` | cpp-packet-engine/src/pipeline/flow_tracker.cpp:18-46 | all byte, flag and retransmission totals are the same for every order of the history |
| `FlowTracker.NoCounterWraps` | cpp-packet-engine/src/pipeline/flow_tracker.cpp:18-40 | below 2^32 frames of at most 2026 bytes every counter is exact, and retransmissions plus distinct numbers are the sequenced frames |
| `FlowTracker.OneSided` | cpp-packet-engine/src/pipeline/dissector_stage.cpp:7-15 | with a fixed local address set all bytes of a flow went one way: inbound exactly if the destination in the key is local, outbound exactly if only the source is, and neither for ARP keys |
| `Histories.RecordExists` | cpp-packet-engine/src/pipeline/flow_tracker.cpp:7-10 | after any history of encoded frames a 4-tuple has a record exactly when something was sent between its ends |
| `Histories.CountsWhatWasSent` | cpp-packet-engine/src/pipeline/flow_tracker.cpp:18-34 | after any history of encoded frames, with any options, padding and stale bytes, the record of a 4-tuple holds the bytes sent between its ends, those to and from local addresses, and the numbers of segments sent with SYN only, SYN and ACK, and RST |
| `Histories.CountsRetransmissions` | cpp-packet-engine/src/pipeline/flow_tracker.cpp:36-44 | its set holds exactly the nonzero sequence numbers sent between the ends, and its count the segments that repeated one |
| `Json.ValidJson` | cpp-packet-engine/src/publishers/rabbitmq_publisher.cpp:61-107 | the unescaped output is RFC 8259 text that reads back member by member |
| `Json.NamesDistinct` | cpp-packet-engine/src/publishers/rabbitmq_publisher.cpp:61-107 | no name occurs twice among the thirty members |
| `Json.Lossless` | cpp-packet-engine/src/publishers/rabbitmq_publisher.cpp:26-107 | a reader that looks the members up by name finds values of the right type and recovers all thirty for every protocol that `publish` sends; no two messages with different values share such a text, and every other text is shared by two |
| `Publisher.RabbitMqPublisher.constructor` | cpp-packet-engine/src/publishers/rabbitmq_publisher.cpp:225-229 | construction is one connect |
| `Publisher.RabbitMqPublisher.ConnectBroker` | cpp-packet-engine/src/publishers/rabbitmq_publisher.cpp:109-213 | the attempt loop behaves as the transition `Connect`, which `ConnectExactly` characterises |
| `Publisher.ConnectExactly` | cpp-packet-engine/src/publishers/rabbitmq_publisher.cpp:109-213 | connect succeeds if and only if some attempt does before any fails for want of a socket; one handle is made per attempt up to the one that ends the loop, three if none does |
| `Publisher.RabbitMqPublisher.DisconnectBroker` | cpp-packet-engine/src/publishers/rabbitmq_publisher.cpp:215-223 | destroys the current connection object, if any, and forgets it |
| `Publisher.RabbitMqPublisher.PublishFrame` | cpp-packet-engine/src/publishers/rabbitmq_publisher.cpp:235-331 | one call behaves as the transition `Publish`, which `OutcomeExactly` characterises |
| `Publisher.OutcomeExactly` | cpp-packet-engine/src/publishers/rabbitmq_publisher.cpp:235-331 | from any state: when a call is skipped, finds no connection or fails to send; otherwise the first poll that is neither a plain timeout nor another frame decides (stop, wait error, ack, nack), and none within 100 means a timeout; the result is true exactly for other protocols and for acks |
| `Publisher.AwaitExactly` | cpp-packet-engine/src/publishers/rabbitmq_publisher.cpp:279-330 | the confirm loop, from any iteration, is decided by that poll |
| `Publisher.RabbitMqPublisher.ConfirmLoop` | cpp-packet-engine/src/publishers/rabbitmq_publisher.cpp:279-330 | the confirm loop ends after at most 100 polls with the outcome of `Await`, which `AwaitExactly` characterises |
| `Publisher.PublishBalanced` | cpp-packet-engine/src/publishers/rabbitmq_publisher.cpp:109-233 | every call keeps the handle balance, passes no null handle, opens at most 3 handles, and skips exactly the frames of other protocols |
| `Publisher.PublishMatches` | cpp-packet-engine/src/publishers/rabbitmq_publisher.cpp:235-331 | with nothing outstanding a call consumes only its own confirm and, except for the stop exit, leaves nothing outstanding |
| `Publisher.ConfirmsOwnExactly` | cpp-packet-engine/src/publishers/rabbitmq_publisher.cpp:309-318 | from any state: the next call is certain to be told about its own frame if and only if nothing is outstanding on the connection it would use |
| `Publisher.ConfirmsOwnVisibly` | cpp-packet-engine/src/publishers/rabbitmq_publisher.cpp:235-331 | after every run: the next call is certain to be told about its own frame if and only if each stop exit among the outcomes was followed by one that drops the connection |
| `Publisher.RunInvariant` | cpp-packet-engine/src/publishers/rabbitmq_publisher.cpp:225-331 | over every run: balance, at most 3n + 3 handles, and something outstanding exactly when a stop exit was not followed by a dropped connection |
| `Publisher.ConfirmsMatch` | cpp-packet-engine/src/publishers/rabbitmq_publisher.cpp:235-331 | over every run, unless a stop exit was left standing, a true result for a frame of a published protocol means that the confirm taken was that of this very frame; in every case it means that the broker answered with an ack |
| `Publisher.StopExitBreaksMatching` | cpp-packet-engine/src/publishers/rabbitmq_publisher.cpp:294-300 | after a stop exit a call can be told about an earlier frame |
| `Publisher.DestructorReleasesAll` | cpp-packet-engine/src/publishers/rabbitmq_publisher.cpp:231-233 | after any run and the destructor every handle ever made was destroyed exactly once |
| `Pipeline.InvStep` | cpp-packet-engine/src/main.cpp:78-125 | every step of the two threads keeps order, conservation, the recomputed results and the confirm matching |
| `Pipeline.EndToEnd` | cpp-packet-engine/src/main.cpp:93-122 | in every reachable state: accepted frames are the received ones in order but for at most the last, reads follow the same order, and the publish calls are those of the frames read so far |
| `Pipeline.RefusalMeansFull` | cpp-packet-engine/src/capture/capture_session.cpp:98-107 | in every run a received frame is given up only after a state with the stop flag up, the ring full and the capture thread inside its write |
| `Pipeline.PublishedInOrder` | cpp-packet-engine/src/main.cpp:93-122 | the publish calls are those of the in-order filter-map of a prefix of the received frames, each frame taken on its own, whenever the frames' own bytes settle the result |
| `Pipeline.ConfirmsMatchEver` | cpp-packet-engine/src/main.cpp:93-122 | in every reachable state there is one outcome per dissected frame, and a true outcome for a frame of a published protocol was an ack, and that of this very frame |
| `Pipeline.OneSidedEver` | cpp-packet-engine/src/pipeline/flow_tracker.cpp:18-23 | in every reachable state the bytes of every flow record went the way the addresses in its key say |
| `Pipeline.CountersExactEver` | cpp-packet-engine/src/capture/capture_session.cpp:17 | in every state reached with fewer than 2^32 frames all counters are exact and bytes at most 2026 per frame |
| `Progress.AllGetThrough` | cpp-packet-engine/src/main.cpp:78-125 | from every new ring any frames can be received and handled completely and in order, whatever the broker answers short of the stop exit |
| `Engine.Iterate` | cpp-packet-engine/src/main.cpp:95-120 | one loop iteration on the ring, frame buffer, flow table and publisher objects is one pass of the transition system, with the same outcome of the publish call |

## Left out

- Liveness: no fairness is assumed, so nothing says that a woken thread eventually runs; the wake-up results are about states.
- Capture loop: epoll, errno branches and the batch limit of 64 are reduced to "receive some frame of 1 to 2040 bytes, write it, or leave the loop at any time", which allows every order the code allows and more.
- Unsynchronised calls of `count`, `isEmpty` and `isFull`, and memory ordering: sections under the mutex are atomic and the stop flag never goes back.
- AMQP library: login, channel numbers, frames other than confirms and the `multiple` bit of confirms are not modelled; a failing `amqp_new_connection` is not either.
- `sock_`: the socket pointer is set and cleared together with `conn_` and carries no state of its own.
- Timestamp bytes: `memcpy` of the 64-bit timestamp is modelled for a little-endian machine.
- `EnrichedFrame::is_retransmit`: the field is never written by the code; the flag travels beside the frame.
- JSON reader: it accepts the part of RFC 8259 without white space, escapes, fractions and nesting, which is what the printer produces.
- Raw socket set-up, local address discovery, logging, hex dump, configuration from the environment and the services in other languages: no state of interest here.
