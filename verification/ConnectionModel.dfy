/**
 What one connection endpoint does, as functions on values: the sending half, the
 receiving half, and the steps `Send`, `OnSegment`, `Tick` and `Control`.
 Sequence numbers are the 32-bit values the implementation holds.  Callbacks are
 output logs: `sent` lists the payloads accepted from the application, `delivered`
 the payloads handed to it, and every step returns the segments it transmits.
 The byte counters of the statistics are unbounded.
 */
module ConnectionModel {
  import opened Numbers
  import opened Sequence
  import opened Wire
  import opened RetransmissionQueue
  import opened Intervals
  import opened ReceiveRanges
  import PacketPool
  import FastRetransmit
  import Congestion
  import Rto

  const MAXIMUM_SEGMENT_PAYLOAD: nat := PacketPool.PACKET_BUFFER_BYTES - MAXIMUM_HEADER_BYTES

  datatype Config = Config(iss: u32, irs: u32, mss: u32, txBuffers: nat, txCapacity: nat, rxCapacity: nat)

  function SegmentLimit(cfg: Config): nat {
    if cfg.mss == 0 || cfg.mss > MAXIMUM_SEGMENT_PAYLOAD then MAXIMUM_SEGMENT_PAYLOAD else cfg.mss
  }

  function QueueCapacity(cfg: Config): nat {
    Min(cfg.txCapacity, RETRANSMISSION_CAPACITY)
  }

  function SlotCount(cfg: Config): nat {
    Min(cfg.rxCapacity, RECEIVE_RANGE_CAPACITY)
  }

  /** A loss response, with the byte counters at the time it was applied. */
  datatype Loss = Loss(acked: nat, sent: nat)

  datatype Sender = Sender(
    next: u32, oldest: u32, peerWindow: u16,
    queue: seq<Pending<seq<u8>>>, fast: FastRetransmit.Fast, window: Congestion.Window, timer: Rto.Timer,
    bytesSent: nat, bytesAcked: nat,
    sent: seq<seq<u8>>, losses: seq<Loss>, resends: seq<Loss>)

  /** A held segment is kept at the position the range set reads its sequence number as. */
  datatype Slot = Free | Held(at: int, bytes: seq<u8>)

  datatype Receiver = Receiver(
    delivery: u32, ranges: Ranges, slots: seq<Slot>, bytesReceived: nat, delivered: seq<seq<u8>>)

  datatype Conn = Conn(cfg: Config, established: bool, tx: Sender, rx: Receiver)

  datatype Reason = Control | NewData | FastResend | RtoResend

  datatype Out = Out(reason: Reason, bytes: seq<u8>)

  datatype SendStatus = Sent | WouldBlock | Closed | PayloadTooLarge

  /** What the connection state machine made of a segment: whether it was accepted, and the state it left. */
  datatype Gate = Gate(accepted: bool, established: bool)

  function InitialSender(cfg: Config): Sender {
    Sender(cfg.iss, cfg.iss, TWO_16 - 1, [], FastRetransmit.Fast(cfg.iss, 0, 0, false),
           Congestion.Initial(cfg.mss, Congestion.MAXIMUM_U32), Rto.INITIAL_TIMER, 0, 0, [], [], [])
  }

  function InitialReceiver(cfg: Config): Receiver {
    Receiver(cfg.irs, Ranges(cfg.irs, []), seq(SlotCount(cfg), _ => Free), 0, [])
  }

  function InitialConn(cfg: Config): Conn {
    Conn(cfg, false, InitialSender(cfg), InitialReceiver(cfg))
  }

  // ---- Headers ----

  function HeldCount(slots: seq<Slot>): (n: nat)
    ensures n <= |slots|
  {
    if slots == [] then 0 else HeldCount(slots[..|slots| - 1]) + (if slots[|slots| - 1].Held? then 1 else 0)
  }

  /** Every held slot owns one buffer of the receive pool. */
  function FreeReceiveBuffers(cfg: Config, rx: Receiver): nat {
    Max(0, cfg.rxCapacity - HeldCount(rx.slots))
  }

  function AdvertisedWindow(cfg: Config, rx: Receiver): u16 {
    Min(FreeReceiveBuffers(cfg, rx) * SegmentLimit(cfg), TWO_16 - 1)
  }

  function WrapRuns(runs: seq<Run>): (blocks: seq<SackBlock>)
    ensures |blocks| == |runs|
  {
    seq(|runs|, i requires 0 <= i < |runs| => WrapRun(runs[i]))
  }

  function MakeHeader(c: Conn, flags: u8): TransportHeader {
    var runs := Nearest(c.rx.ranges.runs);
    Fields(c.tx.next, Wrap(c.rx.ranges.ack), flags, |runs|, AdvertisedWindow(c.cfg, c.rx), Padded(WrapRuns(runs)))
  }

  /** The control segment an endpoint sends in its present state. */
  function ControlSegment(c: Conn, flags: u8): seq<Out> {
    var h := MakeHeader(c, flags);
    if Validate(h) == Wire.Ok then [Out(Control, Serialized(h))] else []
  }

  /** The acknowledgement of the present state. */
  function Reply(c: Conn): seq<Out> {
    ControlSegment(c, FLAG_ACK)
  }

  // ---- The sending half ----

  function Flight(tx: Sender): u32 {
    Diff(tx.next, tx.oldest)
  }

  /** Whether the segment fits a packet buffer. */
  predicate Fits(h: TransportHeader, payload: seq<u8>) {
    Validate(h) == Wire.Ok && |Serialized(h)| + |payload| <= PacketPool.PACKET_BUFFER_BYTES
  }

  /** Whether the segment fits its buffer and the queue takes it. */
  function PrepareCheck(queue: seq<Pending<seq<u8>>>, capacity: nat, start: u32, end: u32, fits: bool): SendStatus {
    if !fits then PayloadTooLarge
    else if EnqueueOutcome(queue, capacity, true, start, end) != EnqueueStatus.Accepted then WouldBlock
    else Sent
  }

  /** Whether there is a buffer for the segment, and the rest of what it takes. */
  function QueueCheck(cfg: Config, queue: seq<Pending<seq<u8>>>, start: u32, end: u32, fits: bool): SendStatus {
    if |queue| >= cfg.txBuffers then WouldBlock else PrepareCheck(queue, QueueCapacity(cfg), start, end, fits)
  }

  /** Whether a payload is accepted, given whether its segment fits a buffer. */
  function SendCheck(cfg: Config, established: bool, tx: Sender, fits: bool, payload: seq<u8>): SendStatus {
    if !established then Closed
    else if payload == [] || |payload| > SegmentLimit(cfg) then PayloadTooLarge
    else if |tx.queue| >= QueueCapacity(cfg) ||
            Congestion.Allowance(tx.window, Flight(tx), tx.peerWindow) < |payload| then WouldBlock
    else QueueCheck(cfg, tx.queue, tx.next, Wrap(tx.next + |payload|), fits)
  }

  function SendOutcome(c: Conn, payload: seq<u8>): SendStatus {
    SendCheck(c.cfg, c.established, c.tx, Fits(MakeHeader(c, FLAG_ACK), payload), payload)
  }

  function SentSender(tx: Sender, bytes: seq<u8>, payload: seq<u8>, now: u64): Sender {
    var end := Wrap(tx.next + |payload|);
    tx.(next := end, queue := tx.queue + [Pending(tx.next, end, bytes, now, 0, false)],
        bytesSent := tx.bytesSent + |payload|, sent := tx.sent + [payload])
  }

  function Send(c: Conn, payload: seq<u8>, now: u64): (Conn, seq<Out>) {
    if SendOutcome(c, payload) == Sent then
      var bytes := Serialized(MakeHeader(c, FLAG_ACK)) + payload;
      (c.(tx := SentSender(c.tx, bytes, payload, now)), [Out(NewData, bytes)])
    else (c, [])
  }

  /** The congestion response to a loss, recorded when it is applied. */
  function LossResponse(tx: Sender, signal: Congestion.LossSignal): (r: Sender)
    requires Congestion.Bounded(tx.window) && tx.queue != []
    ensures Congestion.Bounded(r.window)
  {
    tx.(window := Congestion.Lost(tx.window, signal, Flight(tx), tx.queue[|tx.queue| - 1].end),
        losses := if tx.window.inRecovery then tx.losses else tx.losses + [Loss(tx.bytesAcked, tx.bytesSent)])
  }

  /** When the head segment, if it is acknowledged now, was sent; 0 stands for no sample. */
  function SampleTime(queue: seq<Pending<seq<u8>>>, ack: u32): u64 {
    if queue != [] && LessEqual(queue[0].end, ack) then queue[0].sentAt else 0
  }

  predicate SampleResent(queue: seq<Pending<seq<u8>>>) {
    queue != [] && queue[0].retransmits != 0
  }

  /** Forward progress clears the back-off; a segment that was just acknowledged gives a sample. */
  function ProgressTimer(timer: Rto.Timer, sentAt: u64, resent: bool, now: u64): Rto.Timer {
    if sentAt != 0 then Rto.Observed(Rto.Progressed(timer), sentAt, now, resent) else Rto.Progressed(timer)
  }

  function ProgressWindow(window: Congestion.Window, acked: u32, ack: u32): (r: Congestion.Window)
    requires Congestion.Bounded(window)
    ensures Congestion.Bounded(r)
  {
    Congestion.RecoveryAcked(Congestion.Acked(window, acked), ack)
  }

  /** A cumulative acknowledgement that moves forward. */
  function AckProgress(tx: Sender, ack: u32, now: u64): (r: Sender)
    requires Congestion.Bounded(tx.window)
    ensures Congestion.Bounded(r.window)
  {
    var acked := Diff(ack, tx.oldest);
    tx.(oldest := ack, bytesAcked := tx.bytesAcked + acked,
        queue := tx.queue[AckedPrefix(tx.queue, ack)..],
        window := ProgressWindow(tx.window, acked, ack),
        timer := ProgressTimer(tx.timer, SampleTime(tx.queue, ack), SampleResent(tx.queue), now))
  }

  /** Scoreboard and duplicate counting, for every acknowledgement. */
  function AckScoreboard(tx: Sender, ack: u32, blocks: seq<SackBlock>, now: u64): (r: (Sender, seq<Out>))
    requires Congestion.Bounded(tx.window)
    ensures Congestion.Bounded(r.0.window)
  {
    var queue := Sacked(tx.queue, blocks);
    var d := FastRetransmit.Acked(tx.fast, queue, ack, now);
    var tx' := tx.(queue := d.queue, fast := d.fast);
    if d.resend < |queue| then
      var tx'' := LossResponse(tx', Congestion.SackFastRecovery);
      (tx''.(resends := tx.resends + [Loss(tx.bytesAcked, tx.bytesSent)]),
       [Out(FastResend, queue[d.resend].buffer)])
    else (tx', [])
  }

  function ProcessAck(tx: Sender, h: TransportHeader, now: u64): (r: (Sender, seq<Out>))
    requires Congestion.Bounded(tx.window) && h.sackCount <= MAXIMUM_SACK_BLOCKS
    ensures Congestion.Bounded(r.0.window)
  {
    var tx' := tx.(peerWindow := h.window);
    if Greater(h.cumulativeAck, tx.next) then (tx', [])
    else
      var tx'' := if Greater(h.cumulativeAck, tx.oldest) then AckProgress(tx', h.cumulativeAck, now) else tx';
      AckScoreboard(tx'', h.cumulativeAck, h.sacks[..h.sackCount], now)
  }

  // ---- The receiving half ----

  predicate SlotOverlaps(slot: Slot, start: u32, end: u32) {
    slot.Held? && Less(start, Wrap(slot.at + |slot.bytes|)) && Less(Wrap(slot.at), end)
  }

  predicate Overlaps(slots: seq<Slot>, start: u32, end: u32) {
    exists i :: 0 <= i < |slots| && SlotOverlaps(slots[i], start, end)
  }

  /** The first free slot, or the number of slots if there is none. */
  function FreeSlot(slots: seq<Slot>): (n: nat)
    ensures n <= |slots| && (forall i :: 0 <= i < n ==> slots[i].Held?) && (n < |slots| ==> slots[n].Free?)
  {
    if slots == [] || slots[0].Free? then 0 else 1 + FreeSlot(slots[1..])
  }

  /** The first held slot that starts at `at`, or the number of slots if there is none. */
  function SlotAt(slots: seq<Slot>, at: u32): (n: nat)
    ensures n <= |slots|
    ensures forall i :: 0 <= i < n ==> !(slots[i].Held? && Wrap(slots[i].at) == at)
    ensures n < |slots| ==> slots[n].Held? && Wrap(slots[n].at) == at
  {
    if slots == [] || (slots[0].Held? && Wrap(slots[0].at) == at) then 0 else 1 + SlotAt(slots[1..], at)
  }

  lemma {:induction false} HeldCountUpdate(slots: seq<Slot>, i: nat, slot: Slot)
    requires i < |slots|
    ensures HeldCount(slots[i := slot])
         == HeldCount(slots) - (if slots[i].Held? then 1 else 0) + (if slot.Held? then 1 else 0)
    decreases |slots|
  {
    var n := |slots| - 1;
    if i < n {
      HeldCountUpdate(slots[..n], i, slot);
      assert slots[i := slot][..n] == slots[..n][i := slot];
    } else {
      assert slots[i := slot][..n] == slots[..n];
    }
  }

  function DeliverOne(rx: Receiver, i: nat): (r: Receiver)
    requires i < |rx.slots| && rx.slots[i].Held?
    ensures HeldCount(r.slots) < HeldCount(rx.slots)
  {
    HeldCountUpdate(rx.slots, i, Free);
    rx.(delivery := Wrap(rx.slots[i].at + |rx.slots[i].bytes|), bytesReceived := rx.bytesReceived + |rx.slots[i].bytes|,
        delivered := rx.delivered + [rx.slots[i].bytes], slots := rx.slots[i := Free])
  }

  /** Hands over the held segment that starts at the delivery point, and the next one, until there is none. */
  function Deliver(rx: Receiver): Receiver
    decreases HeldCount(rx.slots)
  {
    var i := SlotAt(rx.slots, rx.delivery);
    if i == |rx.slots| then rx else Deliver(DeliverOne(rx, i))
  }

  /** Stores a segment in the first free slot. */
  function Stored(rx: Receiver, ranges: Ranges, start: u32, payload: seq<u8>): Receiver
    requires FreeSlot(rx.slots) < |rx.slots|
  {
    rx.(ranges := ranges, slots := rx.slots[FreeSlot(rx.slots) := Held(Low(rx.ranges, start), payload)])
  }

  datatype PayloadOutcome = Ignored | Oversized | Refused | Taken

  function PayloadResult(cfg: Config, rx: Receiver, start: u32, payload: seq<u8>): PayloadOutcome {
    var end := Wrap(start + |payload|);
    if payload == [] then Ignored
    else if LessEqual(end, rx.delivery) || Overlaps(rx.slots, start, end) then Refused
    else if |payload| > PacketPool.PACKET_BUFFER_BYTES then Oversized
    else if FreeSlot(rx.slots) == |rx.slots| || FreeReceiveBuffers(cfg, rx) == 0 then Refused
    else if Inserted(rx.ranges, SlotCount(cfg), start, end).0 != Status.Accepted then Refused
    else Taken
  }

  function ProcessPayload(cfg: Config, rx: Receiver, start: u32, payload: seq<u8>): Receiver {
    var end := Wrap(start + |payload|);
    if PayloadResult(cfg, rx, start, payload) == Taken
    then Deliver(Stored(rx, Inserted(rx.ranges, SlotCount(cfg), start, end).1, start, payload)) else rx
  }

  // ---- Steps ----

  predicate HasAck(flags: u8) {
    flags / FLAG_ACK % 2 == 1
  }

  function OnPayload(c: Conn, start: u32, payload: seq<u8>): (Conn, seq<Out>) {
    var result := PayloadResult(c.cfg, c.rx, start, payload);
    var c' := c.(rx := ProcessPayload(c.cfg, c.rx, start, payload));
    (c', if result == Ignored || result == Oversized then [] else Reply(c'))
  }

  function OnParsed(c: Conn, h: TransportHeader, payload: seq<u8>, now: u64, gate: Gate): (Conn, seq<Out>)
    requires Congestion.Bounded(c.tx.window) && h.sackCount <= MAXIMUM_SACK_BLOCKS
  {
    var (tx, outs) := if HasAck(h.flags) then ProcessAck(c.tx, h, now) else (c.tx, []);
    var c' := c.(tx := tx, established := gate.established);
    if !gate.accepted || !gate.established then (c', outs)
    else
      var (c'', replies) := OnPayload(c', h.sequence, payload);
      (c'', outs + replies)
  }

  function OnSegment(c: Conn, segment: seq<u8>, now: u64, gate: Gate): (Conn, seq<Out>)
    requires Congestion.Bounded(c.tx.window)
  {
    match Parse(segment)
    case Rejected(_) => (c, [])
    case Parsed(h, consumed) => OnParsed(c, h, segment[consumed..], now, gate)
  }

  function Tick(tx: Sender, now: u64): (r: (Sender, seq<Out>))
    requires Congestion.Bounded(tx.window)
    ensures Congestion.Bounded(r.0.window)
  {
    var n := LowestUnsacked(tx.queue);
    if n == |tx.queue| || now < tx.queue[n].sentAt || now - tx.queue[n].sentAt < tx.timer.current then (tx, [])
    else
      var tx' := LossResponse(tx, Congestion.RtoTimeout);
      (tx'.(queue := tx.queue[n := Resent(tx.queue[n], now)], timer := Rto.TimedOut(tx.timer)),
       [Out(RtoResend, tx.queue[n].buffer)])
  }

  /** The connection state machine may change the state, and send a header with any flags, at any time. */
  function ControlStep(c: Conn, established: bool, flags: u8): (Conn, seq<Out>) {
    (c.(established := established), ControlSegment(c, flags))
  }

  /**
   A control segment that is sent between the acknowledgement part and the payload part of a received segment
   is the one that could have been sent just before it.
   */
  lemma ControlBeforeSegment(c: Conn, h: TransportHeader, now: u64, established: bool, flags: u8)
    requires Congestion.Bounded(c.tx.window) && h.sackCount <= MAXIMUM_SACK_BLOCKS
    ensures ControlSegment(c.(tx := ProcessAck(c.tx, h, now).0, established := established), flags) == ControlSegment(c, flags)
  {
  }
}
