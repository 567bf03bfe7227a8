# vectorNet: verified data plane

A Dafny model of the data plane of vectorNet, a user-space network stack in C++: the reliable transport
(connections, selective acknowledgements, retransmission, congestion control, timers), IPv4 headers,
fragmentation and reassembly, address resolution, and the bounded structures below them (packet pools and the
single-producer single-consumer ring). `dafny verify dfyconfig.toml` checks the whole project.

## How it is built

- **Code that changes state is imperative.** Packet pool, retransmission queue, range set, estimator, congestion
  and fast-retransmit controllers, the two halves of a connection, the connection, reassembly slots and table, the
  ARP cache and the resolver are classes with the source's fields and arrays. Every method ensures that its state
  afterwards is a function of its state before.
- **Those functions are the specification.** `ConnectionModel` says in values what one endpoint does,
  `ReassemblyModel` what reassembly does with a map from byte offsets to bytes, and so on for each component.
- **The theorems are about the functions, over all runs.** `Protocol`, `Progress` and `Completion` join two endpoints
  by a network; `SenderInvariant` and `SenderRuns` take one endpoint and an arbitrary peer; `ReceiverAgreement` and
  `ReceiverProgress` take one receiver and an arbitrary segmentation; `ReassemblyRuns` takes the table and arbitrary
  fragments; `RoundTrip` takes fragmenter, parser and table; `SpscRing` takes two threads.
- **Safety and exactness come in pairs.** The safety theorems say what never happens; for each main operation another
  theorem says exactly what does, in terms of what arrived and what was sent before: `ReceiverProgress` what is taken
  and delivered, `SenderRuns` what is accepted, acknowledged, marked and sent again, `Congestion` and `Rto` what the
  window and the timeout then are, and the `LaysOut` predicates where every field lies on the wire.

Sequence numbers are 32-bit everywhere in the code and unbounded positions in the proofs; `Sequence` relates the
two. Time stamps, byte strings, callback answers and the outcome of the connection state machine are parameters.

## Files

| files | what they model |
|---|---|
| Numbers, Sequence, Intervals, Layout, BigEndian, Stream, SlotMap | machine integers, serial comparison, sets of positions, where numbers lie and how they are read and written, streams of chunks, arrays of slots as maps |
| PacketPool, RetransmissionQueue, FastRetransmit, Congestion, Rto, ReceiveRanges, Wire | the parts of the transport |
| ConnectionModel, SendHalf, ReceiveHalf, Connection | one endpoint, as functions and as classes |
| SenderInvariant, ReceiverAgreement, Protocol, Freshness | what holds in every run, and how old a packet may be |
| SenderRuns, ReceiverProgress, Progress, Completion | what exactly happens in every run, and what gets through |
| Ipv4, Fragmentation, Holes, ReassemblyModel, ReassemblyRuns, ReassemblySlot, ReassemblyTable, RoundTrip | the network layer |
| SpscRing | the ring between threads |
| ArpCache, ArpWire, ArpModel, ArpResolutions, ArpResolver | address resolution |

## What to know about the statements

- **The network** (`Protocol`) is the set of all packets ever sent. A packet is received any number of times, in any
  order, or never. Each packet carries a note, `meta`, of what it was made from; no step of an endpoint reads it.
- **Freshness.** With 32-bit numbers no protocol is safe against packets of any age, so a packet is received only while
  it is recent (`Protocol.Recent`): its acknowledgement, if it has one, is of the last 2^31 bytes or does nothing, and
  its payload, if it has one, was not delivered before or ends at most 2^31 behind the delivery point modulo 2^32.
  Every acknowledgement less than 2^32 bytes old qualifies (`Protocol.OldAckIsInert`).
  `ReceiverAgreement.OldChunkExactly` says for a payload of any age whether it is refused or taken again, and
  `ReceiverAgreement.OldChunkHarmlessExactly` and `Freshness.AckHarmlessExactly` show that neither condition can be
  weakened: there are states in which just the packets that meet it do no harm. `SenderInvariant.SenderSafety` needs no
  such limit.
- **History.** `sent`, `delivered`, `losses`, `resends`, `log`, `reports`, `frames`, `direct`, `messages`, `started`,
  `accepted` and the frame number `id` record what happened; no decision depends on them. The byte counters of a connection are
  its statistics, unbounded.
- **Connection::Impl** is split into `SendHalf` and `ReceiveHalf`, joined by `Connection`; buffers are handles, and the
  invariant of each half says that it owns exactly the buffers in use of its pool.
- **The connection state machine** is represented by its effect on data: `Gate` says whether the control part of a
  segment was accepted and whether the connection is established afterwards; a control step may establish or close
  the connection at any time and sends a control segment with any flags. `ConnectionModel.ControlBeforeSegment` shows
  that this covers a control segment sent while a received segment is being processed.
- **The ring** makes a write to a slot two steps, between which the slot may hold anything, so that reading a slot
  while it is written would be seen. A capacity is a divisor of 2^64 from 2 on, which are the powers of two.

## Where code and documents differ, and what the code does at its edges

- LLD.md line 135 says that frames waiting for an address leave in insertion order. The code goes through the slots
  in index order and reuses the first free one (src/link/arp.cpp:258-272 and 416-441). `ArpModel.OrderExactly` says
  exactly in which runs the order holds, `ArpModel.OrderCanBreak` is one in which it does not.
- In src/transport/receive_ranges.cpp:30-32 the second outside-window test can never hold, and a range that ends
  2^31 or more ahead of the acknowledgement is reported as a duplicate (`ReceiveRanges.RangeTests`).
- The congestion state follows the threshold except for an MSS of 2^32 - 1 (`Congestion.StateTracksThresholdExactly`).
- A packet whose checksum field is 0xFFFF can be accepted, but is rebuilt with 0 (`Ipv4.BuiltOfParse`).
- The hole-capacity status, both pool-error paths of a connection and the offset check of the fragmenter cannot occur.

## Model

| member | source | states |
|---|---|---|
| Protocol.EndToEndSafety | src/transport/connection.cpp:215-434 | In every state of every run of two endpoints over a network that drops, duplicates, reorders and delays (within the freshness limit above), in both directions: what was handed to the receive callback is a prefix of the payloads accepted by the peer's send, and the sender's oldest unacknowledged byte is never beyond the peer's delivery point |
| Protocol.ScoreboardSafety | src/transport/retransmission_queue.cpp:76-116 | In every state of every run: a segment marked as selectively acknowledged has been delivered by the peer or is held, byte for byte, in one of its slots; the oldest retained segment is never marked, so it is the lowest unmarked one; and the timer retransmits exactly that segment, which has been on the network before, at every tick from the time its timeout is over on, and does nothing at any earlier tick |
| Protocol.AcknowledgementsAgree | src/transport/connection.cpp:99-109 | In both directions: for any two acknowledgements ever issued, the cumulative point of one lies in no selective block of the other |
| Protocol.NextKeepsInv | src/transport/connection.cpp:215-542 | Every send, tick, control segment with any flags and packet arrival at either end keeps the invariant that links both endpoints and everything that was ever put on the network |
| Protocol.HeaderIsCarried | src/transport/connection.cpp:99-109 | The header an endpoint makes, with any known flags, is valid, is what the other side parses in front of any payload, and states the first missing byte and the nearest received runs |
| Protocol.AckKeepsDir | src/transport/connection.cpp:266-326 | Any acknowledgement the peer ever issued, in any order and repeated, keeps the agreement of sender, receiver and network, and causes only retransmissions of what was sent before, if it is of the last 2^31 bytes or does nothing |
| Protocol.ReceiveKeepsPair | src/transport/connection.cpp:477-504 | So does any packet the peer ever sent, whether it carries an acknowledgement, a payload, both or neither |
| Protocol.OldAckIsInert | src/transport/connection.cpp:270-271 | An acknowledgement whose age modulo 2^32 is 2^31 or more, so every one that is 2^31 to 2^32 - 1 bytes behind, is turned down by the guard |
| Protocol.InertKeepsLinks | src/transport/connection.cpp:266-326 | An acknowledgement that neither moves the oldest byte nor marks a segment keeps the agreement, whatever it says and however old it is |
| Freshness.AckHarmlessExactly | src/transport/connection.cpp:266-326 | When the peer has exactly what has been acknowledged: an arbitrary header leaves nothing taken for acknowledged that the peer does not have if and only if it neither moves the oldest byte nor marks a segment |
| Progress.PayloadArrives | src/transport/connection.cpp:381-434 | A packet with a payload reaches an open connection, in any state of any run: the chunk is kept exactly as the set of numbers would keep it, everything before the first missing chunk is delivered, and the last thing transmitted is the acknowledgement of the new state |
| Progress.NothingElseArrives | src/transport/connection.cpp:477-504 | A segment that is malformed, carries no payload or finds the connection not open leaves the receiving half as it was |
| Progress.AckArrives | src/transport/connection.cpp:266-303 | A recent acknowledgement arrives, in any state of any run: the acknowledged bytes are then those it acknowledges, if that is more than before, and the queue starts with the segment behind them |
| Progress.BlocksArrive | src/transport/connection.cpp:304-310 | Of the segments that stay, exactly those are newly marked that lie in one of the runs the peer reported in it |
| Completion.ArrivedIsDelivered | src/transport/connection.cpp:353-434 | In every run: if each of the first n chunks reached the open peer at some time while a slot was free, in any order and mixed with anything else, the first n chunks have been delivered |
| Completion.EverythingIsAcknowledged | src/transport/connection.cpp:266-303 | In every run: once a recent acknowledgement of the first n chunks has arrived, their bytes are acknowledged for good and none of them is queued; if they are all that was sent, nothing is outstanding |
| Completion.EverythingGetsThrough | src/transport/connection.cpp:215-434 | Completion: when every chunk sent has arrived with a slot free, and then an acknowledgement of them all, the delivered bytes are the sent bytes, all are acknowledged and the queue is empty |
| Completion.ArrivalIsAnswered | src/transport/connection.cpp:381-434 | Every packet that brings a chunk is answered: the network then holds an acknowledgement of everything the peer has delivered |
| Completion.ThirdRepeatResendsHead | src/transport/fast_retransmit.cpp:13-52 | In every run: an arriving packet makes an endpoint send a segment again for duplicates if and only if it repeats the acknowledged point for exactly the third time since it moved, everything outstanding at the last such time is acknowledged, and something is outstanding; what leaves, as the fast retransmission, is the bytes of the head of the queue |
| Completion.EndpointIsRun | src/transport/connection.cpp:215-542 | Each endpoint of a run of two is where its own events take it, so that every law of SenderRuns holds of it |
| Completion.MirrorIsTrace | src/transport/connection.cpp:215-542 | A run with the two endpoints exchanged is a run: what is said of one direction holds of the other |
| SenderInvariant.SenderSafety | src/transport/connection.cpp:211-326 | In every run against any peer, with arbitrary bytes arriving: the queued segments tile the stream up to the next byte to send with the oldest unacknowledged byte in the first one; sent bytes are acknowledged bytes plus flight; the flight is at most 65535; between two loss responses, and between two fast retransmissions, every byte outstanding at the first is cumulatively acknowledged; the fast-retransmit point equals the oldest unacknowledged byte; the window stays at least one MSS |
| SenderInvariant.AckLandsInFlight | src/transport/connection.cpp:270-288 | Whatever 32-bit value arrives, an acknowledgement that passes both tests and moves forward lies above the oldest unacknowledged and not above the next byte to send |
| SenderInvariant.SendKeepsSender | src/transport/connection.cpp:215-264 | Sending keeps tiling, the flight bound and the epochs |
| SenderInvariant.AckKeepsSender | src/transport/connection.cpp:266-326 | An arbitrary acknowledgement with arbitrary selective blocks keeps them |
| SenderInvariant.TickKeepsSender | src/transport/connection.cpp:520-542 | A retransmission timeout keeps them |
| SenderInvariant.StepKeepsSender | src/transport/connection.cpp:477-542 | Every step keeps them, for arbitrary segment bytes |
| SenderInvariant.FlightIsOutstanding | src/transport/connection.cpp:211-213 | The 32-bit difference of next and oldest is the number of bytes sent and not acknowledged |
| SenderRuns.SendExactly | src/transport/connection.cpp:215-264 | In every run, against any peer: the status of a send is closed exactly when the state machine last said so, too large exactly for an empty payload or one above the MSS or 2004, sent exactly when queue and pool have room and the flight with the payload is within the congestion window and the window of the last acknowledgement (65535 before the first), and would-block otherwise |
| SenderRuns.LastIsKnown | src/transport/connection.cpp:266-269 | The peer window in use is that of the last acknowledgement that parsed, accepted or not |
| SenderRuns.FlightStaysWithinWindows | src/transport/connection.cpp:225-229 | Only an accepted send puts new bytes in flight, and leaves no more than either window in flight |
| SenderRuns.SentIsQueued | src/transport/connection.cpp:236-263 | An accepted payload joins the end of the queue with its place in the stream, its time and no mark; what is transmitted is its bytes, each header field at its place; a refused one changes nothing |
| SenderRuns.AckExactly | src/transport/connection.cpp:266-326 | For any 32-bit acknowledgement and any blocks: it acknowledges as many bytes as it is ahead modulo 2^32 if that many are outstanding, else none; the segments up to there leave; of the others exactly those that a non-empty block reaches around are newly marked and nothing else changes, but for the first unmarked one if it is sent again; one ahead of what was sent sets the window and does nothing else |
| SenderRuns.TickExactly | src/transport/connection.cpp:520-542 | The first unmarked segment is sent again exactly when its last transmission plus the timeout is over, its count goes up by one and its time is now; otherwise nothing changes |
| SenderRuns.ControllersFollow | src/transport/connection.cpp:270-326 | In every run the congestion window and the timer are those of their own runs over what happened: the bytes newly acknowledged, a sample from the head when it leaves the queue with its retransmissions, a fast-recovery loss for every fast retransmission and a timeout loss with back-off for every expiry, each with the bytes then outstanding |
| SenderRuns.FastIsHistory | src/transport/fast_retransmit.cpp:13-52 | The duplicate counter is the number of repeats of the acknowledged point since it moved, and an epoch is open exactly while bytes outstanding at the last fast retransmission are unacknowledged |
| SenderRuns.FastResendsExactly | src/transport/fast_retransmit.cpp:13-52 | In every run, against any peer: a segment is sent again for duplicates if and only if that is exactly the third repeat, no epoch is open and some segment is unmarked; it is the first unmarked one |
| ReceiverAgreement.ReceiverAgrees | src/transport/connection.cpp:337-434 | For any chunk of any segmentation, new, or old with an end that compares as old, in or out of order, on every path including those that drop it for want of a slot, a buffer or a range: afterwards the cumulative acknowledgement is the delivery point, the held slots are distinct later chunks and are exactly the out-of-order ranges, and what was delivered only grows |
| ReceiverAgreement.ReceiverSafety | src/transport/connection.cpp:353-434 | Over every sequence of arrivals, what was delivered is a growing prefix of the stream and the agreement holds at the end |
| ReceiverAgreement.SlotsAreDisjoint | src/transport/connection.cpp:337-351 | Segments in different slots never overlap |
| ReceiverAgreement.DeliveryReachesAck | src/transport/connection.cpp:353-379 | When no slot starts at the delivery point, the cumulative acknowledgement is the delivery point |
| ReceiverProgress.ResultExactly | src/transport/connection.cpp:381-432 | What becomes of a chunk of any segmentation: refused if it has been delivered or is held; else oversized above 2048 bytes; else taken if and only if a slot is free |
| ReceiverProgress.RoomForNew | src/transport/connection.cpp:401-425 | The range set never refuses a new chunk that a slot is free for: there are never more ranges than held segments |
| ReceiverProgress.StepExactly | src/transport/connection.cpp:381-434 | One arrival: the set of chunks kept, delivered or held, grows exactly as in a receiver that is nothing but that set with one slot for each chunk beyond the first missing one |
| ReceiverProgress.ReceiverIsSet | src/transport/connection.cpp:353-434 | Over every sequence of arrivals the receiver keeps exactly the chunks that set would, and has delivered exactly those before the first it does not have |
| ReceiverProgress.EverythingIsDelivered | src/transport/connection.cpp:353-434 | With a slot free for each new arrival, everything up to the first chunk that never arrived is delivered, and nothing else |
| ReceiverProgress.DeliveredToFirstMissing | src/transport/connection.cpp:353-379 | In every state, what is delivered ends at the first chunk that is neither delivered nor held |
| ReceiverProgress.AdvertisesRoom | src/transport/connection.cpp:91-109 | The window in every header is the receive buffers that hold nothing times the largest payload, at most 65535 |
| ReceiverAgreement.OldChunkExactly | src/transport/connection.cpp:381-434 | A chunk that was delivered before, however long ago: if its end is at most 2^31 behind the delivery point modulo 2^32, it is refused and nothing changes; otherwise, with a free slot, a free buffer and nothing held, it is taken again |
| ReceiverAgreement.OldChunkHarmlessExactly | src/transport/connection.cpp:381-434 | When everything sent has been delivered and there is room, a copy of an old chunk keeps the agreement with the stream if and only if its end is at most 2^31 behind modulo 2^32 |
| ConnectionModel.HeldCountUpdate | src/transport/connection.cpp:426-431 | Filling or clearing a slot changes the number of held segments by exactly what it should |
| ConnectionModel.ControlBeforeSegment | src/transport/connection.cpp:436-504 | A control segment sent between the acknowledgement and the payload part of a segment is, byte for byte, the one that could be sent just before that segment: the control steps of a run cover it |
| Connection.Connection.constructor | src/transport/connection.cpp:42-67 | A connection made of two separate halves starts closed with the halves' states |
| Connection.Connection.Create | src/transport/connection.cpp:42-67 | A new connection is in the initial state of the model |
| Connection.Connection.MakeHeader | src/transport/connection.cpp:99-109 | The header, for any flags, is that of the model: next byte, cumulative acknowledgement, nearest runs, advertised window |
| Connection.Connection.SendControl | src/transport/connection.cpp:129-151 | Emits the control segment of the present state with the given flags, or nothing if the header does not validate |
| Connection.Connection.Send | src/transport/connection.cpp:215-264 | Status, emitted packet and new state are those of the model on every path |
| Connection.Connection.OnPayload | src/transport/connection.cpp:381-434 | New state and replies are those of the model on every path |
| Connection.Connection.OnAck | src/transport/connection.cpp:489-491 | The acknowledgement part of a segment is processed exactly when the flag is set |
| Connection.Connection.OnParsed | src/transport/connection.cpp:489-503 | A parsed segment does what the model does |
| Connection.Connection.OnSegment | src/transport/connection.cpp:477-504 | Arbitrary segment bytes do what the model does, malformed ones nothing |
| Connection.Connection.Tick | src/transport/connection.cpp:520-542 | The retransmission timer does what the model does and leaves the receiving half alone |
| Connection.Connection.TearDown | src/transport/connection.cpp:69-77 | Teardown gives every buffer back: both pools have all their buffers available |
| SendHalf.SendHalf.constructor | src/transport/connection.cpp:42-67 | The sending half starts with an empty queue that owns no buffer |
| SendHalf.SendHalf.Send | src/transport/connection.cpp:215-264 | The status is that of the checks in their order, and the queue, counters and bytes in the buffers become those of the model; a refused send gives its buffer back |
| SendHalf.SendHalf.Queue | src/transport/connection.cpp:230-257 | Takes a buffer and queues the segment, or returns the buffer; the queue owns exactly the buffers in use |
| SendHalf.SendHalf.ReleaseAcked | src/transport/connection.cpp:289-293 | The acknowledged prefix leaves the queue and its buffers return to the pool; the pool never refuses one, so the error branch is dead |
| SendHalf.SendHalf.HeadSample | src/transport/connection.cpp:275-285 | The round-trip sample is taken from the first segment exactly when the acknowledgement covers it |
| SendHalf.SendHalf.Progress | src/transport/connection.cpp:286-303 | Forward progress updates queue, window and timer as in the model |
| SendHalf.SendHalf.UpdateScoreboard | src/transport/connection.cpp:304-325 | Marks, duplicate counting, loss response and fast retransmission are those of the model |
| SendHalf.SendHalf.ProcessAck | src/transport/connection.cpp:266-326 | The whole treatment of an acknowledgement is that of the model, including the rejected ones |
| SendHalf.SendHalf.Tick | src/transport/connection.cpp:520-542 | The timer does what the model does |
| SendHalf.SendHalf.Expire | src/transport/connection.cpp:525-541 | The loss response, the count, the new time and the backed-off timer after a timeout, and the bytes that are sent again |
| SendHalf.SendHalf.TearDown | src/transport/connection.cpp:70-70 | The queue is empty and no send buffer is in use |
| ReceiveHalf.ReceiveHalf.constructor | src/transport/connection.cpp:42-67 | The receiving half starts with free slots that own no buffer |
| ReceiveHalf.ReceiveHalf.OverlapsReceived | src/transport/connection.cpp:337-351 | True exactly when some held segment overlaps in sequence order |
| ReceiveHalf.ReceiveHalf.FreeReceiveSlot | src/transport/connection.cpp:328-335 | The first free slot, or none |
| ReceiveHalf.ReceiveHalf.FindSlot | src/transport/connection.cpp:355-362 | The first held slot that starts at the delivery point, or none |
| ReceiveHalf.ReceiveHalf.DeliverSlot | src/transport/connection.cpp:363-377 | One held segment is handed over and its buffer returned; the pool never refuses it, so the error branch is dead |
| ReceiveHalf.ReceiveHalf.DeliverContiguous | src/transport/connection.cpp:353-379 | Everything that has become contiguous is handed over, as in the model; the loop ends |
| ReceiveHalf.ReceiveHalf.Store | src/transport/connection.cpp:401-431 | The segment is stored exactly when there is a slot, a buffer and room in the ranges; otherwise nothing has changed and the buffer is back |
| ReceiveHalf.ReceiveHalf.ProcessPayload | src/transport/connection.cpp:381-434 | Result and new state are those of the model on every path; the slots own exactly the buffers in use |
| ReceiveHalf.ReceiveHalf.AdvertisedWindow | src/transport/connection.cpp:91-97 | Free buffers times the segment limit, at most 65535 |
| ReceiveHalf.ReceiveHalf.TearDown | src/transport/connection.cpp:71-76 | No receive buffer is in use |
| ReceiveRanges.RangeSetRefinesByteSet | src/transport/receive_ranges.cpp:14-81 | Over every sequence of 32-bit inserts: the set holds exactly the initial bytes and those of the accepted ranges, stays in normal form and within capacity, and the acknowledgement never moves back |
| ReceiveRanges.InsertIsUnion | src/transport/receive_ranges.cpp:14-81 | One insert is exactly set union when accepted and changes nothing when not; the normal form is kept |
| ReceiveRanges.CanonicalIsUnique | src/transport/receive_ranges.cpp:14-81 | The normal form is unique: two range sets with the same bytes are the same |
| ReceiveRanges.AckIsFirstMissing | src/transport/receive_ranges.cpp:93-95 | The cumulative acknowledgement is the first missing byte |
| ReceiveRanges.RunsAreMaximal | src/transport/receive_ranges.cpp:45-80 | The stored ranges are maximal runs of received bytes |
| ReceiveRanges.SacksAreNearest | src/transport/receive_ranges.cpp:83-91 | A received byte that is not reported lies above all four reported runs |
| ReceiveRanges.RangeTests | src/transport/receive_ranges.cpp:17-32 | What the 32-bit comparisons of an insert mean for positions; an end 2^31 or more ahead compares like one behind, and after the clip no start is behind, so the second outside-window test never holds |
| ReceiveRanges.AcceptsExactly | src/transport/receive_ranges.cpp:17-80 | An insert is accepted if and only if it ends above the acknowledgement, less than 2^31, and the normal form of the union has no more ranges than the capacity; the set is then that union |
| ReceiveRanges.RefusesExactly | src/transport/receive_ranges.cpp:17-32 | Which refusal is which: empty, 2^31 or longer, or ending at or behind the acknowledgement modulo 2^32 |
| ReceiveRanges.ReceiveRangeSet.constructor | src/transport/receive_ranges.cpp:8-12 | An empty set at the initial sequence number with the capacity cut off at the array size |
| ReceiveRanges.ReceiveRangeSet.Insert | src/transport/receive_ranges.cpp:14-81 | Status, acknowledgement, newly contiguous bytes and stored ranges are those of the model, for every pair of 32-bit values |
| ReceiveRanges.ReceiveRangeSet.InsertAtAck | src/transport/receive_ranges.cpp:34-43 | A range at the acknowledgement advances it over everything it reaches |
| ReceiveRanges.ReceiveRangeSet.Merge | src/transport/receive_ranges.cpp:45-80 | A range above the acknowledgement is merged with all ranges it overlaps or touches, or refused when it would need a slot that is not there |
| ReceiveRanges.ReceiveRangeSet.FirstReaching | src/transport/receive_ranges.cpp:45-48 | The ranges skipped are those that stay as they are |
| ReceiveRanges.ReceiveRangeSet.Absorb | src/transport/receive_ranges.cpp:49-61 | The ranges passed over are replaced by the one merged range |
| ReceiveRanges.ReceiveRangeSet.Splice | src/transport/receive_ranges.cpp:66-79 | The block takes the place of the merged ranges and the others keep their order |
| ReceiveRanges.ReceiveRangeSet.RemoveFirst | src/transport/receive_ranges.cpp:109-114 | The first range is gone, the others move down |
| ReceiveRanges.ReceiveRangeSet.AdvanceContiguous | src/transport/receive_ranges.cpp:116-124 | The acknowledgement moves over every range it has reached |
| ReceiveRanges.ReceiveRangeSet.GenerateSacks | src/transport/receive_ranges.cpp:83-91 | The first min(size, room, 4) ranges, unchanged |
| Sequence.LessIsOrder | include/vectornet/transport/sequence.hpp:8-18 | The 32-bit comparison agrees with the order of positions less than 2^31 apart |
| Sequence.BothLessOnlyAtHalf | include/vectornet/transport/sequence.hpp:8-24 | Both directions compare as less exactly at distance 2^31; neither does exactly for equal values |
| Sequence.BetweenIsOffset | include/vectornet/transport/sequence.hpp:20-24 | A value above one position and not above another less than 2^31 away lies between them |
| Wire.ParseOfSerialized | src/transport/wire.cpp:52-117 | Parsing a serialized valid header in front of any payload gives the header back, unused blocks zero, with its exact length |
| Wire.SerializedOfParse | src/transport/wire.cpp:52-117 | Serializing any header that was parsed gives back exactly the bytes consumed |
| Wire.SerializedLaysOut | src/transport/wire.cpp:52-78 | Byte by byte: sequence number at 0, acknowledgement at 4, flags at 8, block count at 9, window at 10, blocks of eight bytes from 12 on, high bytes first |
| Wire.ParseLaysOut | src/transport/wire.cpp:80-117 | The parser takes every field from there and reads no further; which bytes it turns down and why |
| Wire.ValidateHeader | src/transport/wire.cpp:35-48 | The validation loop finds the first of: unknown flags, too many blocks, an empty block |
| Wire.SerializeHeader | src/transport/wire.cpp:52-78 | Writes exactly the serialized header in front of the buffer, every field at its place, and nothing else, or nothing at all with the right status |
| Wire.ParseHeader | src/transport/wire.cpp:80-117 | The parse loop computes the model's result, with its error order, every field read from its place |
| RetransmissionQueue.AckedPrefix | src/transport/retransmission_queue.cpp:30-47 | The longest prefix of segments whose ends the acknowledgement covers |
| RetransmissionQueue.LowestUnsacked | src/transport/retransmission_queue.cpp:109-116 | The first segment that is not marked |
| RetransmissionQueue.OwnsSuffix | src/transport/retransmission_queue.cpp:30-56 | Giving back the buffers of a prefix leaves the rest of the queue owning exactly the buffers still in use |
| RetransmissionQueue.OwnedIsInUse | src/transport/retransmission_queue.cpp:38-38 | The buffer that is given back next is always in use |
| RetransmissionQueue.OwnsCount | src/transport/retransmission_queue.cpp:12-28 | There are as many buffers in use as segments queued |
| RetransmissionQueue.QueueIgnoresBytes | src/transport/retransmission_queue.cpp:30-116 | What the queue does depends on no byte in the buffers |
| RetransmissionQueue.RetransmissionQueue.constructor | src/transport/retransmission_queue.cpp:9-10 | An empty queue with the capacity cut off at the array size |
| RetransmissionQueue.RetransmissionQueue.Enqueue | src/transport/retransmission_queue.cpp:12-28 | The status is that of the checks in their order; the segment is appended exactly when accepted |
| RetransmissionQueue.RetransmissionQueue.Acknowledge | src/transport/retransmission_queue.cpp:30-56 | Released segments are a prefix of the covered ones, all of them unless the pool refuses one; the rest keep their order and exactly their buffers stay in use |
| RetransmissionQueue.RetransmissionQueue.Clear | src/transport/retransmission_queue.cpp:58-74 | Every buffer is returned, up to one the pool refuses |
| RetransmissionQueue.RetransmissionQueue.ApplySacks | src/transport/retransmission_queue.cpp:76-96 | A segment is marked exactly when it was or a non-empty block covers it; the counts returned are the newly marked segments and the empty blocks |
| RetransmissionQueue.RetransmissionQueue.FindLowestUnsacked | src/transport/retransmission_queue.cpp:109-116 | The scan finds the first unmarked segment |
| RetransmissionQueue.RetransmissionQueue.MarkResent | src/transport/connection.cpp:531-535 | The count saturates at 65535 and the time is the new one; nothing else changes |
| PacketPool.PopFree | src/alloc/packet_pool.cpp:24-34 | Taking the top of the freelist: it was free, and the rest of the list is exactly the distinct free indices |
| PacketPool.PushFree | src/alloc/packet_pool.cpp:36-47 | Putting an index back keeps the list exactly the distinct free indices |
| PacketPool.PacketPool.constructor | src/alloc/packet_pool.cpp:8-18 | All buffers are free |
| PacketPool.PacketPool.Acquire | src/alloc/packet_pool.cpp:24-34 | A buffer that was not in use, or none exactly when none is available; no other buffer changes |
| PacketPool.PacketPool.Release | src/alloc/packet_pool.cpp:36-47 | Succeeds exactly for buffers in use, and frees exactly that one |
| FastRetransmit.ResendOpensEpoch | src/transport/fast_retransmit.cpp:13-52 | A segment is resent only at a count of three, outside recovery and unmarked, and recovery begins; recovery ends only when the acknowledgement reaches the recovery point |
| FastRetransmit.ResendsExactly | src/transport/fast_retransmit.cpp:13-52 | After any run of acknowledgements, one more resends a segment if and only if it is exactly the third repeat of the highest point since that moved, no epoch is open and some segment is unmarked; it is the first unmarked one, with its count and time, and nothing else in the queue changes |
| FastRetransmit.RunIsHistory | src/transport/fast_retransmit.cpp:13-52 | The controller's fields are the highest point, its repeats, and the end of the queue at the last resend until that is reached |
| FastRetransmit.FastRetransmitController.constructor | src/transport/fast_retransmit.cpp:9-11 | No duplicates, no recovery, at the initial acknowledgement |
| FastRetransmit.FastRetransmitController.OnAck | src/transport/fast_retransmit.cpp:13-52 | Controller, queue and chosen segment are those of the model; the decision says whether recovery has just ended and how many duplicates there are |
| Congestion.AckBatching | src/transport/congestion.cpp:26-43 | In congestion avoidance, acknowledging a and then b is acknowledging a + b at once, saturation included |
| Congestion.Spend | src/transport/congestion.cpp:38-42 | The loop ends with the residual credit below the window, and the window never shrinks |
| Congestion.Acked | src/transport/congestion.cpp:26-43 | The window stays at least one MSS and the credit below the window |
| Congestion.RunTracks | src/transport/congestion.cpp:26-79 | Over every run of acknowledgements, losses and recoveries, the state is congestion avoidance exactly when the window is at least the threshold, for every MSS below 2^32 - 1 |
| Congestion.StateTracksThresholdExactly | src/transport/congestion.cpp:45-69 | That holds over all runs if and only if the MSS is not 2^32 - 1: there, a timeout leaves slow start with a window equal to the saturated threshold |
| Congestion.Allowance | src/transport/congestion.cpp:97-109 | The flight plus the allowance is the smaller of the two windows, or the flight itself if that is more |
| Congestion.StartsWithTen | src/transport/congestion.cpp:10-24 | Every run starts with a window of ten segments, cut off at 2^32 - 1 |
| Congestion.LossResponses | src/transport/congestion.cpp:45-69 | After any run, a loss outside recovery: a timeout leaves a window of one MSS in slow start, a fast recovery leaves the threshold in congestion avoidance; in both the threshold is at least two MSS and half the flight and equal to one of them, cut off at 2^32 - 1; inside recovery nothing changes |
| Congestion.RecoveryEnds | src/transport/congestion.cpp:71-79 | After any run, recovery ends exactly at an acknowledgement that is not behind the recovery point, and only that changes |
| Congestion.SlowStartGrows | src/transport/congestion.cpp:30-36 | After any run, slow start opens the window by exactly the bytes acknowledged and ends when it reaches the threshold |
| Congestion.AvoidanceGrows | src/transport/congestion.cpp:37-42 | After any run, congestion avoidance adds n segments, where n windows, each a segment larger than the one before, are what the acknowledged bytes and the credit pay for, and the rest stays credit |
| Congestion.CostIsSeries | src/transport/congestion.cpp:37-42 | What n segments cost is the arithmetic series n * (2 * window + (n - 1) * MSS) / 2 |
| Congestion.CongestionController.constructor | src/transport/congestion.cpp:10-24 | The initial window is ten segments, saturated, with the state that goes with the threshold |
| Congestion.CongestionController.OnAck | src/transport/congestion.cpp:26-43 | The loop computes the model's window |
| Congestion.CongestionController.OnLoss | src/transport/congestion.cpp:45-69 | Window, threshold and state are those of the model; the response is applied exactly outside recovery |
| Congestion.CongestionController.OnRecoveryAck | src/transport/congestion.cpp:71-79 | Recovery ends exactly when the acknowledgement reaches the recovery point |
| Rto.RunInRange | src/transport/rto.cpp:8-46 | Over every run the timeout stays between 1 s and 60 s, and the estimator is initialized exactly when a sample was accepted |
| Rto.SrttBetweenSamples | src/transport/rto.cpp:18-31 | The smoothed round-trip time stays between the least and the greatest accepted sample, samples capped at 60 s |
| Rto.StaysNearStandard | src/transport/rto.cpp:18-35 | Over every run, whatever the samples: the integer estimates stay within 7 ns and 10 ns of the exact averages of section 2 of RFC 6298 with gains 1/8 and 1/4, and the timeout within 47 ns of the exact one between 1 s and 60 s; it is 1 s before the first sample |
| Rto.BackoffIsExponential | src/transport/rto.cpp:37-46 | After n timeouts since progress the timeout is min(60 s, computed * 2^n) |
| Rto.VariationCanExceedMaximum | src/transport/rto.cpp:64-72 | One 60 s sample makes the subtraction in the source wrap around; the result is still the formula's |
| Rto.RtoEstimator.Observe | src/transport/rto.cpp:8-35 | The 64-bit arithmetic computes the unbounded-integer formula of section 2 of RFC 6298, and rejected samples change nothing |
| Rto.RtoEstimator.UpdateComputed | src/transport/rto.cpp:64-72 | The computed timeout is the clamped sum even when the subtraction wraps |
| Rto.RtoEstimator.OnTimeout | src/transport/rto.cpp:37-42 | The timeout doubles up to 60 s |
| Rto.RtoEstimator.OnForwardProgress | src/transport/rto.cpp:44-46 | The timeout returns to the computed one |
| Ipv4.InternetChecksum | src/net/ipv4.cpp:36-53 | The incrementally folded 32-bit sum is the ones'-complement sum of section 1 of RFC 1071, for byte strings of any length |
| Ipv4.VerifiesExactly | src/net/ipv4.cpp:73-75 | A header verifies exactly when its checksum completes the sum to a multiple of 65535 |
| Ipv4.OddIsPadded | src/net/ipv4.cpp:45-49 | An odd byte string has the checksum it would have with a zero byte behind it |
| Ipv4.BuiltLaysOut | src/net/ipv4.cpp:94-130 | Byte by byte: 0x45, service, total length at 2, identification at 4, flags and offset at 6, lifetime at 8, protocol at 9, source at 12, destination at 16, high bytes first, ten words that add up to a multiple of 65535, then the payload |
| Ipv4.ParseLaysOut | src/net/ipv4.cpp:55-92 | A packet is accepted if and only if it has 20 bytes, starts with 0x45, its total length is from 20 to its size and its words add up; every field is read from its place; which of the others is turned down for what |
| Ipv4.ParseOfBuilt | src/net/ipv4.cpp:55-130 | Parsing a built packet followed by any padding returns the same fields and payload |
| Ipv4.BuiltOfParse | src/net/ipv4.cpp:55-130 | Building from what was parsed gives the packet back if and only if its checksum field was not 0xFFFF |
| Ipv4.ParsePacket | src/net/ipv4.cpp:55-92 | The parser's result and its error order; it accepts exactly the well-formed packets and reads every field from its place, source at byte 12 and destination at byte 16 |
| Ipv4.BuildPacket | src/net/ipv4.cpp:94-130 | Writes exactly the built packet in front of the buffer, every field at its place and a checksum that adds up, and nothing else, or nothing at all with the right status |
| ReassemblyRuns.EveryAnswer | src/net/reassembly.cpp:20-96 | In every run of arrivals and sweeps, any keys, the answer to a fragment in terms of those accepted since its entry was made: malformed exactly when one of them ends behind a final one; otherwise the datagram is delivered exactly when a final one has arrived and every byte up to its end is covered; what is delivered has that length, each byte is that of the earliest fragment covering it, and the bytes of all fragments are its length plus the overlap ignored |
| ReassemblyRuns.EntriesAreMerges | src/net/reassembly.cpp:64-81 | In every run the table has an entry for exactly the keys with accepted fragments, and the entry is their merge in the order of arrival |
| ReassemblyRuns.HistoryIs | src/net/reassembly.cpp:20-114 | What counts as accepted: a fragment is added to its key exactly when it is answered as pending, and the key starts afresh when its entry leaves the table, whether delivered, malformed or swept |
| ReassemblyRuns.SweepsExactly | src/net/reassembly.cpp:98-114 | In every run a sweep takes out exactly the entries made at least the timeout before, and leaves the others as they are |
| ReassemblyModel.FirstArrivalWins | src/net/reassembly.cpp:238-261 | A byte is there exactly when some merged fragment covers it, and it is the byte of the earliest one that does |
| ReassemblyModel.BytesAreConserved | src/net/reassembly.cpp:71-76 | The bytes of the merged fragments are the bytes held plus the overlap bytes ignored |
| Holes.HoleBound | src/net/reassembly.cpp:220-222 | There are never more than 4095 holes, so the 8192 places never run out |
| Holes.CutIsDifference | src/net/reassembly.cpp:189-236 | Subtracting a range from the holes is set difference |
| Holes.CutSorted | src/net/reassembly.cpp:189-236 | The holes stay sorted, disjoint and non-empty |
| Holes.CutAligned | src/net/reassembly.cpp:189-236 | The holes stay aligned to eight bytes but for the end of the last |
| Holes.ShortenedIs | src/net/reassembly.cpp:173-185 | Learning the length forgets exactly the missing bytes beyond it |
| Holes.OverlapIsMissing | src/net/reassembly.cpp:238-261 | The copy count is the number of missing bytes in the range |
| ReassemblySlot.CompleteIsNoHole | src/net/reassembly.cpp:263-265 | All bytes are there exactly when the length is known and no hole is left |
| ReassemblySlot.CutKeepsHoles | src/net/reassembly.cpp:189-236 | After a fragment the holes are again exactly the bytes not received |
| ReassemblySlot.Slot.Start | src/net/reassembly.cpp:150-160 | One hole, nothing received |
| ReassemblySlot.Slot.Release | src/net/reassembly.cpp:267-273 | The slot is free |
| ReassemblySlot.Slot.EstablishTotal | src/net/reassembly.cpp:164-187 | Accepts the length exactly when it contradicts neither a known one nor a received byte; the holes end there |
| ReassemblySlot.Slot.ShortenHoles | src/net/reassembly.cpp:173-185 | The compaction loop cuts every hole off at the length and drops the empty ones |
| ReassemblySlot.Slot.RemoveHole | src/net/reassembly.cpp:203-208 | One hole is gone, the others keep their order |
| ReassemblySlot.Slot.SplitHole | src/net/reassembly.cpp:223-232 | One hole becomes two, the others keep their order |
| ReassemblySlot.Slot.SubtractRange | src/net/reassembly.cpp:189-236 | The range is out of every hole; the loop fails only when a hole must be split in a full array |
| ReassemblySlot.Slot.CopyUnreceived | src/net/reassembly.cpp:238-261 | Bytes are written exactly where there are holes, and counted |
| ReassemblySlot.Slot.Accept | src/net/reassembly.cpp:64-81 | A fragment is merged exactly when it agrees with what is known of the length; the hole-capacity branch is dead |
| ReassemblySlot.Slot.IsDone | src/net/reassembly.cpp:263-265 | Complete exactly when all bytes up to the length are there |
| ReassemblySlot.Slot.Bytes | src/net/reassembly.cpp:86-89 | The bytes delivered are those of the datagram |
| SlotMap.FullIsNoFreeSlot | src/net/reassembly.cpp:134-149 | There are as many entries as slots exactly when no slot is free |
| SlotMap.FirstFree | src/link/arp.cpp:258-262 | The first slot that is not in use, or the number of slots when all are |
| ReassemblyTable.Table.constructor | src/net/reassembly.cpp:9-14 | An empty table |
| ReassemblyTable.Table.Find | src/net/reassembly.cpp:137-149 | The slot of the key if there is one, else the first free one, else none |
| ReassemblyTable.Table.FindOrCreate | src/net/reassembly.cpp:134-162 | A new entry is made exactly when the key has none and there is room |
| ReassemblyTable.Table.Insert | src/net/reassembly.cpp:20-96 | Outcome and table are those of the map model on every path |
| ReassemblyTable.Table.Sweep | src/net/reassembly.cpp:98-114 | Exactly the entries that have waited too long are gone, and they are counted |
| Fragmentation.PacketAt | src/net/fragmentation.cpp:53-82 | Packet k carries the bytes from k * size on, and the packets end where the payload does |
| Fragmentation.FragmentsLayOut | src/net/fragmentation.cpp:48-83 | The packets of every payload that exceeds the MTU, on the wire: each but the last fills the MTU to the last multiple of eight, with its offset in units of eight and the more-fragments bit; the last ends with the payload; their payloads are those of their offsets and the other fields those of the header |
| Fragmentation.PlanExactly | src/net/fragmentation.cpp:24-52 | When nothing is sent and why, and that a payload that fits goes out as one packet without flags |
| Fragmentation.FragmentPayload | src/net/fragmentation.cpp:17-84 | The callback is given exactly the planned packets in order, up to the first it turns down, or none with the right status |
| Fragmentation.EmitFragments | src/net/fragmentation.cpp:53-83 | The same for the loop; the two error branches in it are dead |
| RoundTrip.PacketParses | src/net/fragmentation.cpp:58-71 | Parsing packet k, whatever padding follows, gives back its fragment and key |
| RoundTrip.FragmentIsRead | src/net/reassembly.cpp:31-48 | The key is read from bytes 12, 16, 4 and 9, the offset from the low 13 bits at byte 6 in units of eight, the more-fragments flag from bit 5 of byte 6 |
| RoundTrip.EveryOutcome | src/net/reassembly.cpp:20-96 | In every run in which packets of a fragmented datagram arrive in any order and number, with other packets and harmless sweeps between: each is answered with the original payload if it completes the collection, and is pending otherwise |
| RoundTrip.DeliveredAtLastMissing | src/net/reassembly.cpp:82-95 | The first delivery happens exactly at the packet that supplies the last missing fragment |
| RoundTrip.DeliveredOnce | src/net/reassembly.cpp:86-90 | After it, duplicates are pending until they are a whole datagram again |
| RoundTrip.WholePacket | src/net/fragmentation.cpp:32-47 | A payload that fits one packet is delivered at once and leaves the table as it was |
| RoundTrip.PlanIsOriginal | src/net/fragmentation.cpp:24-52 | Every payload up to 65515 bytes that exceeds the MTU is such a datagram, for every MTU with room for eight bytes |
| SpscRing.Linearity | include/vectornet/alloc/spsc_ring.hpp:23-43 | In every interleaving of the steps of both threads, with stale reads of the other cursor and cursors modulo 2^64: popped values are a prefix of pushed values, the occupancy is between 0 and the capacity, and no slot is written that is unread or being read |
| SpscRing.RefusalIsExact | include/vectornet/alloc/spsc_ring.hpp:26-39 | A push is refused exactly when the ring was full at the cursor value that was read, a pop exactly when it was empty |
| SpscRing.PushKeepsInv | include/vectornet/alloc/spsc_ring.hpp:23-32 | Every step of a push keeps the invariant |
| SpscRing.PopKeepsInv | include/vectornet/alloc/spsc_ring.hpp:34-43 | Every step of a pop keeps the invariant |
| SpscRing.SlotOfCursor | include/vectornet/alloc/spsc_ring.hpp:29-29 | The slot of a wrapped cursor is the slot of the unbounded count |
| ArpCache.LearnedIsFound | src/link/arp.cpp:126-152 | A learned binding is found until it expires and no longer, and other bindings stay |
| ArpCache.Cache.constructor | src/link/arp.cpp:107-108 | An empty cache |
| ArpCache.Cache.Lookup | src/link/arp.cpp:110-124 | The cache is a map with one entry per address: an expired binding is dropped and not returned |
| ArpCache.Cache.Insert | src/link/arp.cpp:126-152 | The binding is set exactly when the address has one or there is room after expiry |
| ArpCache.Cache.Expire | src/link/arp.cpp:164-170 | Exactly the bindings that have not expired stay |
| ArpModel.FramesAreCounted | src/link/arp.cpp:244-284 | Frames answered as queued are frames that were sent or given up plus frames that wait |
| ArpModel.OneOrTheOther | src/link/arp.cpp:244-284 | Every queued frame either waits or has met its end, never both |
| ArpModel.SettleOne | src/link/arp.cpp:419-438 | Sending or failing a frame ends exactly that one |
| ArpModel.QueueOne | src/link/arp.cpp:258-272 | Queueing adds exactly one frame |
| ArpModel.FlushOrder | src/link/arp.cpp:416-441 | The frames of a target leave in the order they came if and only if their slots are in that order |
| ArpModel.QueueOrder | src/link/arp.cpp:258-272 | Queueing a frame in the first free slot keeps the order of its target if and only if no frame for that target waits in a later slot |
| ArpModel.OrderExactly | src/link/arp.cpp:244-284 | Over every run of queueing, flushing and giving up frames: the frames of a target would leave in the order they came at every moment if and only if no frame was ever put in a slot before a waiting one for the same target |
| ArpModel.ReleaseOrder | src/link/arp.cpp:416-453 | Taking frames out keeps the order of those that stay |
| ArpModel.OrderCanBreak | src/link/arp.cpp:416-441 | A run through the first free slots in which a later frame leaves before an earlier one: two targets, two slots, four moves |
| ArpResolver.Resolver.constructor | src/link/arp.cpp:179-190 | An empty cache of the configured size and lifetime, nothing waits, nothing is being resolved, nothing has been sent |
| ArpResolver.Resolver.Resolve | src/link/arp.cpp:192-204 | The cached address; or, in this order: failed when no attempt is allowed, pending when the target is being resolved, full when no resolution is free, else a new resolution in the first free place with one request, which goes on exactly when the request was sent; all invariants are kept |
| ArpResolver.Resolver.OnArp | src/link/arp.cpp:206-242 | The sender is learned, its frames leave in slot order, its resolution ends and all others stay, and a request for our address is answered; the status is that of the first failed frame, else of the reply, else whether the sender fitted in the cache |
| ArpResolver.Resolver.QueueFrame | src/link/arp.cpp:244-284 | A payload too large or a missing callback is refused and nothing changes; a known target is sent to at once; otherwise the frame takes the first free slot and stays exactly when its target is then being resolved, with the status of that attempt; every waiting frame has a resolution, and frames are conserved |
| ArpResolver.Resolver.Tick | src/link/arp.cpp:286-328 | A frame is given up exactly when its time is over or the resolution of its target stopped; resolutions retry, stop or stay as their times say; the requests sent are those of the retries, in order, and then those of the addresses about to expire, entry by entry; expired bindings are gone and no other changes |
| ArpResolver.Resolver.TickOne | src/link/arp.cpp:299-318 | One resolution's turn: it stops, retries or stays as its times say, the request is sent exactly at a retry, and its frames fail exactly when it stops |
| ArpResolver.Resolver.RefreshOne | src/link/arp.cpp:320-327 | An address about to expire is asked for once, and marked exactly when it is being resolved |
| ArpResolver.Resolver.EnsureResolution | src/link/arp.cpp:369-403 | At most one resolution per target, begun with one request; it has sent as many requests as it counted, and at most the maximum |
| ArpResolver.Resolver.RequestOnWire | src/link/arp.cpp:405-414 | A request is broadcast: operation 1, our two addresses, no hardware address, the target |
| ArpResolver.Resolver.ReplyOnWire | src/link/arp.cpp:221-231 | A reply goes to who asked: operation 2, our two addresses, then theirs |
| ArpResolver.Resolver.ResolutionLife | src/link/arp.cpp:299-318 | Through any sequence of ticks a resolution that lives has counted its requests, at most the maximum, they are at least the retry interval apart, and its deadline is its beginning plus the pending deadline |
| ArpResolver.Resolver.ResolutionEnds | src/link/arp.cpp:303-314 | It ends at a tick exactly when its deadline has come or a request that was due could not be sent |
| ArpResolver.Resolver.FlushPending | src/link/arp.cpp:416-441 | All frames of the target and no others leave, each sent or failed once |
| ArpResolver.Resolver.FailSelected | src/link/arp.cpp:443-453 | All selected frames and no others fail, each reported once if there is a callback |
| ArpResolver.Resolver.ClearResolution | src/link/arp.cpp:455-461 | Exactly the resolution of the target stops |
| ArpResolutions.BeginIn | src/link/arp.cpp:388-402 | A new resolution keeps targets unique and request counts right |
| ArpResolutions.AskAgain | src/link/arp.cpp:310-317 | A retry keeps them, and the maximum |
| ArpWire.ParseOfBuilt | src/link/arp.cpp:53-105 | Parsing a built message, with any padding, gives it back |
| ArpWire.BuiltOfParse | src/link/arp.cpp:53-105 | Building what was parsed gives back the bytes read |
| ArpWire.BuiltLaysOut | src/link/arp.cpp:80-105 | Every field at the place RFC 826 gives it |
| ArpWire.ParseLaysOut | src/link/arp.cpp:53-78 | Bytes are accepted exactly when a message lies so at their front, and that is the message |

## Left out

- Connection.Connection.SendControl: does not remember the segment for retries; a retry repeats its bytes, and the network of the theorems repeats any packet.
- Connection.Connection.OnParsed: leaves out what the state machine transmits for the control part of a segment; such a segment is a control step of its own.
- Connection.Connection.OnSegment: leaves out the same.
- The connection state machine, the remembered control segment and its retries, and graceful close (src/transport/state_machine.cpp, src/transport/connection.cpp:159-209 and 436-475): a finite table, of which the model keeps the effect on data.
- Liveness: that the network and the timers bring a packet eventually is not stated; Completion says what has happened once packets have arrived.
- Statistics counters other than bytes sent, acknowledged and received: they would only repeat the branch taken. Among them are the reassembly table's counters.
- collect_unsacked, active_slots, active_entries, pending_frames and other plain readers.
- Callbacks that call back into the object that called them.
- Address arithmetic in the packet pool: a buffer is an index, and a foreign address is an index out of range.
- Memory orders beyond acquire and release publication of the ring's cursors.
- The identification generator of IPv4: a 16-bit counter.
- Ethernet frames, link endpoints, the BPF backend and the network stack that connects the layers: system calls and plumbing.
- Instrumentation, tools, benchmarks and scripts.
