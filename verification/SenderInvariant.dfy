/**
 What the sending half keeps whatever segments arrive: its queue tiles the bytes in
 flight, the flight stays within 65535 bytes, and each loss response waits for every
 byte that was outstanding at the previous one.
 */
module SenderInvariant {
  import opened Numbers
  import opened Sequence
  import opened Wire
  import opened RetransmissionQueue
  import opened ConnectionModel
  import opened Stream
  import FastRetransmit
  import Congestion
  import Rto

  const MAXIMUM_FLIGHT: nat := 65535

  /** The index of the chunk at the head of the queue. */
  function First(tx: Sender): nat {
    Max(0, |tx.sent| - |tx.queue|)
  }

  /** The queue entry is chunk k of the stream. */
  ghost predicate Tile(iss: u32, sent: Chunks, k: nat, p: Pending<seq<u8>>) {
    && k < |sent|
    && p.start == Wrap(iss + Off(sent, k))
    && p.end == Wrap(iss + Off(sent, k + 1))
  }

  /** Counters, sequence numbers and the tiling of the flight. */
  ghost predicate Tiled(iss: u32, tx: Sender) {
    && NonEmpty(tx.sent)
    && tx.bytesSent == Off(tx.sent, |tx.sent|)
    && tx.bytesAcked <= tx.bytesSent <= tx.bytesAcked + MAXIMUM_FLIGHT
    && tx.next == Wrap(iss + tx.bytesSent)
    && tx.oldest == Wrap(iss + tx.bytesAcked)
    && |tx.queue| <= |tx.sent|
    && (forall i :: 0 <= i < |tx.queue| ==> Tile(iss, tx.sent, First(tx) + i, tx.queue[i]))
    && Off(tx.sent, First(tx)) <= tx.bytesAcked
    && (tx.queue != [] ==> tx.bytesAcked < Off(tx.sent, First(tx) + 1))
  }

  /** Each epoch starts with everything of the one before acknowledged; an open epoch ends above the acknowledged bytes. */
  ghost predicate Epochs(iss: u32, acked: nat, sent: nat, epochs: seq<Loss>, open: bool, point: u32) {
    && (forall i, j :: 0 <= i < j < |epochs| ==> epochs[i].sent <= epochs[j].acked)
    && (forall i :: 0 <= i < |epochs| ==> epochs[i].acked <= acked && epochs[i].acked < epochs[i].sent <= sent)
    && (forall i :: 0 <= i < |epochs| - (if open then 1 else 0) ==> epochs[i].sent <= acked)
    && (open ==> epochs != [] && acked < epochs[|epochs| - 1].sent
                 && point == Wrap(iss + epochs[|epochs| - 1].sent))
  }

  ghost predicate SenderInv(iss: u32, tx: Sender) {
    && Tiled(iss, tx)
    && Congestion.Bounded(tx.window)
    && Rto.InRange(tx.timer)
    && tx.fast.lastAck == tx.oldest
    && Epochs(iss, tx.bytesAcked, tx.bytesSent, tx.losses, tx.window.inRecovery, tx.window.recoveryPoint)
    && Epochs(iss, tx.bytesAcked, tx.bytesSent, tx.resends, tx.fast.inRecovery, tx.fast.recoveryPoint)
  }

  lemma InitialSenderInv(cfg: Config)
    ensures SenderInv(cfg.iss, InitialSender(cfg))
  {
  }

  // ---- Sending ----

  lemma FlightIsOutstanding(iss: u32, tx: Sender)
    requires Tiled(iss, tx)
    ensures Flight(tx) == tx.bytesSent - tx.bytesAcked
  {
    DiffOfWraps(iss + tx.bytesSent, iss + tx.bytesAcked);
  }

  /** Tiles of a stream are tiles of every longer stream. */
  lemma TileOfLonger(iss: u32, sent: Chunks, longer: Chunks, k: nat, p: Pending<seq<u8>>)
    requires sent <= longer && Tile(iss, sent, k, p)
    ensures Tile(iss, longer, k, p)
  {
    OffOfPrefix(sent, longer, k);
    OffOfPrefix(sent, longer, k + 1);
  }

  lemma NewTile(iss: u32, tx: Sender, bytes: seq<u8>, payload: seq<u8>, now: u64)
    requires Tiled(iss, tx)
    ensures var tx' := SentSender(tx, bytes, payload, now);
            && tx'.next == Wrap(iss + tx'.bytesSent)
            && tx'.bytesSent == Off(tx'.sent, |tx'.sent|)
            && Tile(iss, tx'.sent, |tx.sent|, tx'.queue[|tx.queue|])
  {
    WrapAdd(iss + tx.bytesSent, |payload|);
    OffOfPrefix(tx.sent, tx.sent + [payload], |tx.sent|);
  }

  lemma SentKeepsTiling(iss: u32, tx: Sender, bytes: seq<u8>, payload: seq<u8>, now: u64)
    requires Tiled(iss, tx) && payload != [] && tx.bytesSent + |payload| <= tx.bytesAcked + MAXIMUM_FLIGHT
    ensures Tiled(iss, SentSender(tx, bytes, payload, now))
  {
    hide Wrap;
    var tx' := SentSender(tx, bytes, payload, now);
    NewTile(iss, tx, bytes, payload, now);
    OffOfPrefix(tx.sent, tx'.sent, First(tx));
    if tx.queue != [] {
      OffOfPrefix(tx.sent, tx'.sent, First(tx) + 1);
    }
    assert First(tx') == First(tx);
    forall i | 0 <= i < |tx'.queue| ensures Tile(iss, tx'.sent, First(tx') + i, tx'.queue[i]) {
      if i < |tx.queue| {
        TileOfLonger(iss, tx.sent, tx'.sent, First(tx) + i, tx.queue[i]);
      }
    }
  }

  /** What is sent fits the flight. */
  lemma SentFits(c: Conn, payload: seq<u8>)
    requires Tiled(c.cfg.iss, c.tx) && SendOutcome(c, payload) == Sent
    ensures payload != [] && c.tx.bytesSent + |payload| <= c.tx.bytesAcked + MAXIMUM_FLIGHT
  {
    hide MakeHeader, Serialized, Tile, Wrap, Fits;
    FlightIsOutstanding(c.cfg.iss, c.tx);
  }

  lemma SentKeepsSender(iss: u32, tx: Sender, bytes: seq<u8>, payload: seq<u8>, now: u64)
    requires SenderInv(iss, tx) && payload != [] && tx.bytesSent + |payload| <= tx.bytesAcked + MAXIMUM_FLIGHT
    ensures SenderInv(iss, SentSender(tx, bytes, payload, now))
  {
    hide Tiled, Wrap, Rto.InRange, Congestion.Bounded;
    SentKeepsTiling(iss, tx, bytes, payload, now);
  }

  lemma SendKeepsSender(c: Conn, payload: seq<u8>, now: u64)
    requires SenderInv(c.cfg.iss, c.tx)
    ensures SenderInv(c.cfg.iss, Send(c, payload, now).0.tx)
  {
    hide MakeHeader, Serialized, Tiled, Epochs, SentSender;
    if SendOutcome(c, payload) == Sent {
      SentFits(c, payload);
      SentKeepsSender(c.cfg.iss, c.tx, Serialized(MakeHeader(c, FLAG_ACK)) + payload, payload, now);
    }
  }

  // ---- Acknowledgements ----

  /** Whatever 32-bit value arrives, an acknowledgement that moves forward lies in (oldest, next]. */
  lemma AckLandsInFlight(iss: u32, tx: Sender, ack: u32)
    requires Tiled(iss, tx) && !Greater(ack, tx.next) && Greater(ack, tx.oldest)
    ensures var d := tx.bytesAcked + Diff(ack, tx.oldest);
            tx.bytesAcked < d <= tx.bytesSent && ack == Wrap(iss + d)
  {
    BetweenIsOffset(iss + tx.bytesAcked, iss + tx.bytesSent, ack);
  }

  /** The segments the acknowledgement covers are those that end at or below it. */
  lemma AckedPrefixIsBelow(iss: u32, tx: Sender, d: nat, i: nat)
    requires Tiled(iss, tx) && tx.bytesAcked < d <= tx.bytesSent && i < |tx.queue|
    ensures LessEqual(tx.queue[i].end, Wrap(iss + d)) <==> Off(tx.sent, First(tx) + i + 1) <= d
  {
    hide Wrap, LessEqual;
    var end := Off(tx.sent, First(tx) + i + 1);
    OffMonotone(tx.sent, First(tx) + 1, First(tx) + i + 1);
    OffMonotone(tx.sent, First(tx) + i + 1, |tx.sent|);
    assert Tile(iss, tx.sent, First(tx) + i, tx.queue[i]);
    LessIsOrder(iss + end, iss + d);
  }

  /** Dropping the first n segments of the queue for an acknowledgement up to d. */
  lemma DropKeepsTiling(iss: u32, tx: Sender, d: nat, n: nat, tx': Sender)
    requires Tiled(iss, tx) && tx.bytesAcked < d <= tx.bytesSent && n <= |tx.queue|
    requires n > 0 ==> Off(tx.sent, First(tx) + n) <= d
    requires n < |tx.queue| ==> d < Off(tx.sent, First(tx) + n + 1)
    requires tx'.queue == tx.queue[n..] && tx'.sent == tx.sent && tx'.bytesAcked == d && tx'.bytesSent == tx.bytesSent
    requires tx'.oldest == Wrap(iss + d) && tx'.next == tx.next
    ensures Tiled(iss, tx') && First(tx') == First(tx) + n
  {
    assert First(tx') == First(tx) + n;
    forall i | 0 <= i < |tx'.queue| ensures Tile(iss, tx'.sent, First(tx') + i, tx'.queue[i]) {
      assert Tile(iss, tx.sent, First(tx) + (n + i), tx.queue[n + i]);
    }
  }

  lemma ProgressKeepsTiling(iss: u32, tx: Sender, ack: u32, now: u64)
    requires Tiled(iss, tx) && Congestion.Bounded(tx.window)
    requires !Greater(ack, tx.next) && Greater(ack, tx.oldest)
    ensures var tx' := AckProgress(tx, ack, now);
            && Tiled(iss, tx') && tx.bytesAcked < tx'.bytesAcked && ack == Wrap(iss + tx'.bytesAcked)
            && First(tx') == First(tx) + AckedPrefix(tx.queue, ack)
  {
    hide Tiled, Wrap, Greater, LessEqual, ProgressWindow, ProgressTimer;
    AckLandsInFlight(iss, tx, ack);
    var d, n := tx.bytesAcked + Diff(ack, tx.oldest), AckedPrefix(tx.queue, ack);
    if n > 0 { AckedPrefixIsBelow(iss, tx, d, n - 1); }
    if n < |tx.queue| { AckedPrefixIsBelow(iss, tx, d, n); }
    DropKeepsTiling(iss, tx, d, n, AckProgress(tx, ack, now));
  }

  /** An epoch closes exactly when the acknowledged bytes reach the recovery point. */
  lemma EpochOnProgress(iss: u32, tx: Sender, tx': Sender, epochs: seq<Loss>, open: bool, point: u32)
    requires Tiled(iss, tx) && Epochs(iss, tx.bytesAcked, tx.bytesSent, epochs, open, point)
    requires tx.bytesAcked < tx'.bytesAcked <= tx.bytesSent == tx'.bytesSent
    ensures Epochs(iss, tx'.bytesAcked, tx'.bytesSent, epochs, open && !LessEqual(point, Wrap(iss + tx'.bytesAcked)), point)
  {
    if open {
      LessIsOrder(iss + epochs[|epochs| - 1].sent, iss + tx'.bytesAcked);
    }
  }

  /** Opening an epoch at the end of the flight. */
  lemma OpenEpoch(iss: u32, tx: Sender, epochs: seq<Loss>, point: u32)
    requires Tiled(iss, tx) && tx.queue != [] && Epochs(iss, tx.bytesAcked, tx.bytesSent, epochs, false, point)
    ensures Epochs(iss, tx.bytesAcked, tx.bytesSent, epochs + [Loss(tx.bytesAcked, tx.bytesSent)], true, tx.queue[|tx.queue| - 1].end)
  {
    assert Tile(iss, tx.sent, First(tx) + (|tx.queue| - 1), tx.queue[|tx.queue| - 1]);
    OffMonotone(tx.sent, First(tx) + 1, |tx.sent|);
  }

  /** Marks and retransmission times do not matter to the tiling. */
  lemma SameTiles(iss: u32, tx: Sender, tx': Sender)
    requires Tiled(iss, tx) && |tx'.queue| == |tx.queue|
    requires forall i :: 0 <= i < |tx.queue| ==> tx'.queue[i].start == tx.queue[i].start && tx'.queue[i].end == tx.queue[i].end
    requires tx'.sent == tx.sent && tx'.bytesAcked == tx.bytesAcked && tx'.bytesSent == tx.bytesSent
    requires tx'.oldest == tx.oldest && tx'.next == tx.next
    ensures Tiled(iss, tx')
  {
    hide Wrap, Off;
    forall i | 0 <= i < |tx'.queue| ensures Tile(iss, tx'.sent, First(tx') + i, tx'.queue[i]) {
      assert Tile(iss, tx.sent, First(tx) + i, tx.queue[i]);
    }
  }

  /** Everything SenderInv says except that the duplicate counter has seen the latest acknowledgement. */
  ghost predicate BeforeScoreboard(iss: u32, tx: Sender, ack: u32, previous: Sender) {
    && Tiled(iss, tx)
    && Congestion.Bounded(tx.window)
    && Rto.InRange(tx.timer)
    && Epochs(iss, tx.bytesAcked, tx.bytesSent, tx.losses, tx.window.inRecovery, tx.window.recoveryPoint)
    && tx.fast == previous.fast && tx.resends == previous.resends && tx.bytesSent == previous.bytesSent
    && (if Greater(ack, previous.oldest)
        then ack == tx.oldest && previous.bytesAcked < tx.bytesAcked
        else tx.bytesAcked == previous.bytesAcked && tx.oldest == previous.oldest)
  }

  lemma ProgressBeforeScoreboard(iss: u32, tx: Sender, ack: u32, now: u64)
    requires SenderInv(iss, tx) && !Greater(ack, tx.next) && Greater(ack, tx.oldest)
    ensures BeforeScoreboard(iss, AckProgress(tx, ack, now), ack, tx)
  {
    hide Tiled, Epochs, Congestion.Bounded, Rto.InRange;
    AckLandsInFlight(iss, tx, ack);
    ProgressKeepsTiling(iss, tx, ack, now);
    EpochOnProgress(iss, tx, AckProgress(tx, ack, now), tx.losses, tx.window.inRecovery, tx.window.recoveryPoint);
    TimerOnProgress(tx, ack, now);
  }

  lemma TimerOnProgress(tx: Sender, ack: u32, now: u64)
    requires Congestion.Bounded(tx.window) && Rto.InRange(tx.timer)
    ensures Rto.InRange(AckProgress(tx, ack, now).timer)
  {
    if tx.queue != [] && tx.queue[0].sentAt <= now {
      Rto.EstimateInRange(Rto.Progressed(tx.timer), Rto.Sample(tx.queue[0].sentAt, now));
    }
  }

  /** The duplicate counter after any acknowledgement. */
  lemma ScoreboardKeepsSender(iss: u32, previous: Sender, tx: Sender, ack: u32, blocks: seq<SackBlock>, now: u64)
    requires SenderInv(iss, previous) && BeforeScoreboard(iss, tx, ack, previous)
    ensures SenderInv(iss, AckScoreboard(tx, ack, blocks, now).0)
  {
    hide Tile, Wrap, Rto.InRange, Off, Congestion.Bounded;
    var queue := Sacked(tx.queue, blocks);
    var d := FastRetransmit.Acked(tx.fast, queue, ack, now);
    var tx' := tx.(queue := d.queue, fast := d.fast);
    SameTiles(iss, tx, tx');
    FastRetransmit.ResendOpensEpoch(tx.fast, queue, ack, now);
    if Greater(ack, previous.oldest) {
      EpochOnProgress(iss, previous, tx', tx.resends, previous.fast.inRecovery, previous.fast.recoveryPoint);
    } else if d.resend < |queue| {
      ResendKeepsSender(iss, tx', d.fast.recoveryPoint, tx.fast.recoveryPoint);
    }
  }

  /** A fast retransmission opens its own epoch and asks for a loss response. */
  lemma ResendKeepsSender(iss: u32, tx: Sender, point: u32, oldPoint: u32)
    requires Tiled(iss, tx) && tx.queue != [] && Congestion.Bounded(tx.window) && Rto.InRange(tx.timer)
    requires Epochs(iss, tx.bytesAcked, tx.bytesSent, tx.losses, tx.window.inRecovery, tx.window.recoveryPoint)
    requires Epochs(iss, tx.bytesAcked, tx.bytesSent, tx.resends, false, oldPoint)
    requires tx.fast.lastAck == tx.oldest && tx.fast.inRecovery && tx.fast.recoveryPoint == tx.queue[|tx.queue| - 1].end
    ensures SenderInv(iss, LossResponse(tx, Congestion.SackFastRecovery)
                           .(resends := tx.resends + [Loss(tx.bytesAcked, tx.bytesSent)]))
  {
    OpenEpoch(iss, tx, tx.resends, oldPoint);
    LossKeepsEpochs(iss, tx, Congestion.SackFastRecovery);
    var tx' := LossResponse(tx, Congestion.SackFastRecovery).(resends := tx.resends + [Loss(tx.bytesAcked, tx.bytesSent)]);
    SameTiles(iss, tx, tx');
  }

  /** A loss response opens an epoch only if none is open. */
  lemma LossKeepsEpochs(iss: u32, tx: Sender, signal: Congestion.LossSignal)
    requires Tiled(iss, tx) && tx.queue != [] && Congestion.Bounded(tx.window)
    requires Epochs(iss, tx.bytesAcked, tx.bytesSent, tx.losses, tx.window.inRecovery, tx.window.recoveryPoint)
    ensures var tx' := LossResponse(tx, signal);
            Epochs(iss, tx'.bytesAcked, tx'.bytesSent, tx'.losses, tx'.window.inRecovery, tx'.window.recoveryPoint)
  {
    if !tx.window.inRecovery {
      OpenEpoch(iss, tx, tx.losses, tx.window.recoveryPoint);
    }
  }

  lemma AckKeepsSender(iss: u32, tx: Sender, h: TransportHeader, now: u64)
    requires SenderInv(iss, tx) && h.sackCount <= MAXIMUM_SACK_BLOCKS
    ensures SenderInv(iss, ProcessAck(tx, h, now).0)
  {
    var tx' := tx.(peerWindow := h.window);
    SameTiles(iss, tx, tx');
    if Greater(h.cumulativeAck, tx.next) {
    } else if Greater(h.cumulativeAck, tx.oldest) {
      ProgressBeforeScoreboard(iss, tx', h.cumulativeAck, now);
      ScoreboardKeepsSender(iss, tx', AckProgress(tx', h.cumulativeAck, now), h.cumulativeAck, h.sacks[..h.sackCount], now);
    } else {
      ScoreboardKeepsSender(iss, tx', tx', h.cumulativeAck, h.sacks[..h.sackCount], now);
    }
  }

  lemma TickKeepsSender(iss: u32, tx: Sender, now: u64)
    requires SenderInv(iss, tx)
    ensures SenderInv(iss, Tick(tx, now).0)
  {
    if LowestUnsacked(tx.queue) < |tx.queue| {
      SameTiles(iss, tx, Tick(tx, now).0);
      LossKeepsEpochs(iss, tx, Congestion.RtoTimeout);
    }
  }

  // ---- Every run ----

  datatype Event =
    | DoSend(payload: seq<u8>, now: u64)
    | DoSegment(segment: seq<u8>, now: u64, gate: Gate)
    | DoTick(now: u64)
    | DoControl(established: bool, flags: u8)

  /** Any step of one endpoint, with any bytes arriving. */
  function Step(c: Conn, e: Event): (r: (Conn, seq<Out>))
    requires Congestion.Bounded(c.tx.window)
    ensures Congestion.Bounded(r.0.tx.window)
  {
    match e
    case DoSend(payload, now) => Send(c, payload, now)
    case DoSegment(segment, now, gate) => OnSegment(c, segment, now, gate)
    case DoTick(now) => var (tx, outs) := Tick(c.tx, now); (c.(tx := tx), outs)
    case DoControl(established, flags) => ControlStep(c, established, flags)
  }

  /** All that a segment does to the sender is to acknowledge. */
  lemma ParsedIsAck(c: Conn, h: TransportHeader, payload: seq<u8>, now: u64, gate: Gate)
    requires Congestion.Bounded(c.tx.window) && h.sackCount <= MAXIMUM_SACK_BLOCKS
    ensures var c' := OnParsed(c, h, payload, now, gate).0;
            c'.cfg == c.cfg && c'.tx == if HasAck(h.flags) then ProcessAck(c.tx, h, now).0 else c.tx
  {
  }

  lemma SegmentKeepsSender(c: Conn, segment: seq<u8>, now: u64, gate: Gate)
    requires SenderInv(c.cfg.iss, c.tx)
    ensures SenderInv(c.cfg.iss, OnSegment(c, segment, now, gate).0.tx) && OnSegment(c, segment, now, gate).0.cfg == c.cfg
  {
    match Parse(segment) {
      case Rejected(_) =>
      case Parsed(h, consumed) =>
        ParsedIsAck(c, h, segment[consumed..], now, gate);
        AckKeepsSender(c.cfg.iss, c.tx, h, now);
    }
  }

  lemma StepKeepsSender(c: Conn, e: Event)
    requires SenderInv(c.cfg.iss, c.tx)
    ensures SenderInv(c.cfg.iss, Step(c, e).0.tx) && Step(c, e).0.cfg == c.cfg
  {
    match e
    case DoSend(payload, now) => SendKeepsSender(c, payload, now);
    case DoSegment(segment, now, gate) => SegmentKeepsSender(c, segment, now, gate);
    case DoTick(now) => TickKeepsSender(c.cfg.iss, c.tx, now);
    case DoControl(_, _) =>
  }

  ghost predicate Reaches(c: Conn, events: seq<Event>, c': Conn)
    requires Congestion.Bounded(c.tx.window)
    decreases |events|
  {
    if events == [] then c == c' else Reaches(Step(c, events[0]).0, events[1..], c')
  }

  /**
   In every run of an endpoint, against any peer: the queue tiles the stream from the
   head segment, which holds the oldest unacknowledged byte, up to the next byte to send; sent bytes
   are acknowledged bytes plus flight; the flight never exceeds 65535; and between
   two loss responses, or two fast retransmissions, every byte that was outstanding
   at the first is cumulatively acknowledged.
   */
  lemma {:induction false} SenderSafety(cfg: Config, events: seq<Event>, c: Conn)
    requires Reaches(InitialConn(cfg), events, c)
    ensures SenderInv(cfg.iss, c.tx)
    ensures c.tx.bytesSent == c.tx.bytesAcked + Flight(c.tx) && Flight(c.tx) <= MAXIMUM_FLIGHT
    ensures forall i, j :: 0 <= i < j < |c.tx.losses| ==> c.tx.losses[i].sent <= c.tx.losses[j].acked
    ensures forall i, j :: 0 <= i < j < |c.tx.resends| ==> c.tx.resends[i].sent <= c.tx.resends[j].acked
  {
    InitialSenderInv(cfg);
    RunKeepsSender(InitialConn(cfg), events, c);
    FlightIsOutstanding(cfg.iss, c.tx);
  }

  lemma {:induction false} RunKeepsSender(c: Conn, events: seq<Event>, c': Conn)
    requires SenderInv(c.cfg.iss, c.tx) && Reaches(c, events, c')
    ensures SenderInv(c.cfg.iss, c'.tx)
    decreases |events|
  {
    if events != [] {
      StepKeepsSender(c, events[0]);
      RunKeepsSender(Step(c, events[0]).0, events[1..], c');
    }
  }
}
