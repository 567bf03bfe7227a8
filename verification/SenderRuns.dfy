/**
 The sending half over whole runs of one endpoint, against any peer: what is accepted for sending, what an
 acknowledgement does, and when something is sent again, all in terms of what arrived and what was sent before.
 */
module SenderRuns {
  import opened Numbers
  import opened Sequence
  import opened Wire
  import opened RetransmissionQueue
  import opened ReceiveRanges
  import opened ConnectionModel
  import opened Stream
  import opened SenderInvariant
  import opened SlotMap
  import FastRetransmit
  import Congestion
  import Rto

  /** The endpoint after a sequence of events. */
  function After(cfg: Config, events: seq<Event>): (c: Conn)
    ensures Congestion.Bounded(c.tx.window)
  {
    if events == [] then InitialConn(cfg) else Step(After(cfg, events[..|events| - 1]), events[|events| - 1]).0
  }

  lemma AfterMore(cfg: Config, events: seq<Event>, e: Event)
    ensures After(cfg, events + [e]) == Step(After(cfg, events), e).0
  {
    assert (events + [e])[..|events|] == events;
  }

  // ---- What is known of the endpoint in every run ----

  ghost predicate RangesOk(cfg: Config, rx: Receiver) {
    Canonical(rx.ranges) && |rx.ranges.runs| <= SlotCount(cfg)
  }

  lemma {:induction false} DeliverKeepsRanges(rx: Receiver)
    ensures Deliver(rx).ranges == rx.ranges
    decreases HeldCount(rx.slots)
  {
    var i := SlotAt(rx.slots, rx.delivery);
    if i < |rx.slots| {
      DeliverKeepsRanges(DeliverOne(rx, i));
    }
  }

  lemma PayloadKeepsRanges(cfg: Config, rx: Receiver, start: u32, payload: seq<u8>)
    requires RangesOk(cfg, rx)
    ensures RangesOk(cfg, ProcessPayload(cfg, rx, start, payload))
  {
    hide Canonical, Inserted, Deliver, Wrap;
    var end := Wrap(start + |payload|);
    InsertIsUnion(rx.ranges, SlotCount(cfg), start, end);
    if PayloadResult(cfg, rx, start, payload) == Taken {
      DeliverKeepsRanges(Stored(rx, Inserted(rx.ranges, SlotCount(cfg), start, end).1, start, payload));
    }
  }

  lemma StepKeepsRanges(c: Conn, e: Event)
    requires Congestion.Bounded(c.tx.window) && RangesOk(c.cfg, c.rx)
    ensures RangesOk(c.cfg, Step(c, e).0.rx)
  {
    hide RangesOk, ProcessPayload, ProcessAck, Tick, SendOutcome;
    if e.DoSegment? {
      match Parse(e.segment) {
        case Rejected(_) =>
        case Parsed(h, consumed) =>
          PayloadKeepsRanges(c.cfg, c.rx, h.sequence, e.segment[consumed..]);
      }
    }
  }

  lemma {:induction false} AfterIs(cfg: Config, events: seq<Event>)
    ensures var c := After(cfg, events); c.cfg == cfg && SenderInv(cfg.iss, c.tx) && RangesOk(cfg, c.rx)
    decreases |events|
  {
    hide SenderInv;
    if events == [] {
      InitialSenderInv(cfg);
    } else {
      var init, e := events[..|events| - 1], events[|events| - 1];
      AfterIs(cfg, init);
      StepKeepsSender(After(cfg, init), e);
      StepKeepsRanges(After(cfg, init), e);
    }
  }

  // ---- What arrived ----

  /** The header of an event that carries an acknowledgement. */
  function AckIn(e: Event): Option<TransportHeader> {
    if !e.DoSegment? then None
    else
      match Parse(e.segment)
      case Rejected(_) => None
      case Parsed(h, _) => if h.flags % 4 >= 2 then Some(h) else None
  }

  /** The window in the last acknowledgement, 65535 before the first. */
  function LastWindow(events: seq<Event>): u16 {
    if events == [] then 65535
    else
      var e := events[|events| - 1];
      match AckIn(e)
      case Some(h) => h.window
      case None => LastWindow(events[..|events| - 1])
  }

  /** Whether the connection is established, as the state machine last said. */
  predicate Established(events: seq<Event>) {
    events != [] &&
    var init, e := events[..|events| - 1], events[|events| - 1];
    match e
    case DoSegment(segment, _, gate) => if Parse(segment).Parsed? then gate.established else Established(init)
    case DoControl(established, _) => established
    case _ => Established(init)
  }

  lemma FlagIsBit(flags: u8)
    ensures HasAck(flags) <==> flags % 4 >= 2
  {
  }

  lemma AckWindow(tx: Sender, h: TransportHeader, now: u64)
    requires Congestion.Bounded(tx.window) && h.sackCount <= MAXIMUM_SACK_BLOCKS
    ensures ProcessAck(tx, h, now).0.peerWindow == h.window
  {
  }

  lemma StepWindow(c: Conn, e: Event)
    requires Congestion.Bounded(c.tx.window)
    ensures Step(c, e).0.tx.peerWindow == match AckIn(e) case Some(h) => h.window case None => c.tx.peerWindow
    ensures Step(c, e).0.established ==
            match e
            case DoSegment(segment, _, gate) => if Parse(segment).Parsed? then gate.established else c.established
            case DoControl(established, _) => established
            case _ => c.established
  {
    hide ProcessAck, OnPayload, SendOutcome, Parse;
    if e.DoSegment? && Parse(e.segment).Parsed? {
      var h := Parse(e.segment).header;
      FlagIsBit(h.flags);
      ParsedIsValid(e.segment);
      AckWindow(c.tx, h, e.now);
      PayloadKeepsSender(c.(tx := ProcessAck(c.tx, h, e.now).0, established := e.gate.established), h.sequence, e.segment[Parse(e.segment).consumed..]);
      PayloadKeepsSender(c.(established := e.gate.established), h.sequence, e.segment[Parse(e.segment).consumed..]);
    }
  }

  lemma ParsedIsValid(s: seq<u8>)
    requires Parse(s).Parsed?
    ensures Parse(s).header.sackCount <= MAXIMUM_SACK_BLOCKS && Parse(s).consumed <= |s|
  {
  }

  lemma PayloadKeepsSender(c: Conn, start: u32, payload: seq<u8>)
    ensures var c' := OnPayload(c, start, payload).0; c'.tx == c.tx && c'.established == c.established && c'.cfg == c.cfg
  {
  }

  /** The sender's window and the connection's state are the last that arrived. */
  lemma {:induction false} LastIsKnown(cfg: Config, events: seq<Event>)
    ensures After(cfg, events).tx.peerWindow == LastWindow(events)
    ensures After(cfg, events).established == Established(events)
    decreases |events|
  {
    hide Step, AckIn;
    if events != [] {
      LastIsKnown(cfg, events[..|events| - 1]);
      StepWindow(After(cfg, events[..|events| - 1]), events[|events| - 1]);
    }
  }

  // ---- What is accepted for sending ----

  /** The largest payload of a segment: the MSS, if it leaves room for the largest header in a buffer of 2048 bytes. */
  function LargestPayload(mss: u32): nat {
    if 0 < mss <= 2004 then mss else 2004
  }

  lemma HeaderFits(c: Conn, payload: seq<u8>)
    requires Canonical(c.rx.ranges) && |payload| <= 2004
    ensures Fits(MakeHeader(c, FLAG_ACK), payload)
  {
    hide Canonical, Nearest;
    var h, runs := MakeHeader(c, FLAG_ACK), Nearest(c.rx.ranges.runs);
    RunsAreBlocks(c.rx.ranges);
    assert forall i :: 0 <= i < h.sackCount ==> h.sacks[i] == WrapRuns(runs)[i];
  }

  lemma RunsAreBlocks(r: Ranges)
    requires Canonical(r)
    ensures forall i :: 0 <= i < |Nearest(r.runs)| ==> WrapRuns(Nearest(r.runs))[i].start != WrapRuns(Nearest(r.runs))[i].end
  {
    forall i | 0 <= i < |Nearest(r.runs)| ensures WrapRuns(Nearest(r.runs))[i].start != WrapRuns(Nearest(r.runs))[i].end {
      WrapInjective(r.runs[i].lo, r.runs[i].hi);
    }
  }

  ghost predicate ShortChunks(tx: Sender) {
    forall i :: 0 <= i < |tx.sent| ==> |tx.sent[i]| <= 2004
  }

  lemma {:induction false} AfterShort(cfg: Config, events: seq<Event>)
    ensures ShortChunks(After(cfg, events).tx)
    decreases |events|
  {
    hide After, OnSegment, SendOutcome, ProcessAck;
    if events == [] {
      Initially(cfg);
    } else {
      var init, e := events[..|events| - 1], events[|events| - 1];
      AfterShort(cfg, init);
      AfterIs(cfg, init);
      AfterMore(cfg, init, e);
      assert init + [e] == events;
      StepKeepsShort(After(cfg, init), e);
    }
  }

  lemma StepKeepsShort(c: Conn, e: Event)
    requires Congestion.Bounded(c.tx.window) && ShortChunks(c.tx)
    ensures ShortChunks(Step(c, e).0.tx)
  {
    hide OnSegment, SendOutcome, ProcessAck;
    match e
    case DoSend(payload, now) => SentIsShort(c, payload);
    case DoSegment(segment, now, gate) => SegmentKeepsStream(c, segment, now, gate);
    case DoTick(now) =>
    case DoControl(_, _) =>
  }

  lemma Initially(cfg: Config)
    ensures After(cfg, []) == InitialConn(cfg)
  {
  }

  lemma SentIsShort(c: Conn, payload: seq<u8>)
    ensures SendOutcome(c, payload) == Sent ==> |payload| <= 2004
  {
  }

  /** A queue that has room takes the next segment. */
  lemma QueueTakes(iss: u32, tx: Sender, capacity: nat, bytes: nat)
    requires Tiled(iss, tx) && ShortChunks(tx) && 0 < bytes <= 2004 && |tx.queue| < capacity
    ensures EnqueueOutcome(tx.queue, capacity, true, tx.next, Wrap(tx.next + bytes)) == EnqueueStatus.Accepted
  {
    NextDiffers(tx.next, bytes);
    if tx.queue != [] {
      var n := |tx.queue| - 1;
      assert Tile(iss, tx.sent, First(tx) + n, tx.queue[n]);
      LastIsBelow(iss, tx);
    }
  }

  lemma NextDiffers(next: u32, bytes: nat)
    requires 0 < bytes <= 2004
    ensures Wrap(next + bytes) != next
  {
  }

  lemma LastIsBelow(iss: u32, tx: Sender)
    requires Tiled(iss, tx) && ShortChunks(tx) && tx.queue != []
    ensures Less(tx.queue[|tx.queue| - 1].start, tx.next)
  {
    hide Less, Wrap;
    var n, last := |tx.queue| - 1, |tx.sent| - 1;
    assert Tile(iss, tx.sent, First(tx) + n, tx.queue[n]);
    LastLength(tx, last);
    LessIsOrder(iss + Off(tx.sent, last), iss + tx.bytesSent);
  }

  lemma LastLength(tx: Sender, last: nat)
    requires |tx.sent| == last + 1 && tx.bytesSent == Off(tx.sent, |tx.sent|)
    ensures tx.bytesSent == Off(tx.sent, last) + |tx.sent[last]|
  {
  }

  /**
   In every run a payload is accepted if and only if the connection is established, the payload is neither empty nor too
   long, queue and pool have room for its segment, and with it the bytes in flight stay within the congestion window and
   within the window of the last acknowledgement.
   */
  lemma SendExactly(cfg: Config, events: seq<Event>, payload: seq<u8>)
    ensures var c := After(cfg, events);
            SendOutcome(c, payload) ==
            if !Established(events) then Closed
            else if |payload| == 0 || |payload| > LargestPayload(cfg.mss) then PayloadTooLarge
            else if && |c.tx.queue| < Min(cfg.txCapacity, 1024) && |c.tx.queue| < cfg.txBuffers
                    && c.tx.bytesSent - c.tx.bytesAcked + |payload| <= Min(c.tx.window.cwnd, LastWindow(events)) then Sent
            else WouldBlock
  {
    hide After, Tiled, Wrap, MakeHeader, Established, LastWindow, EnqueueOutcome, Fits, Canonical, Epochs;
    var c := After(cfg, events);
    AfterIs(cfg, events);
    AfterShort(cfg, events);
    LastIsKnown(cfg, events);
    FlightIsOutstanding(cfg.iss, c.tx);
    if 0 < |payload| <= 2004 {
      HeaderFits(c, payload);
      if |c.tx.queue| < QueueCapacity(cfg) {
        QueueTakes(cfg.iss, c.tx, QueueCapacity(cfg), |payload|);
      }
    }
  }

  /** The segment of a payload: its bytes on the wire, its place in the stream, and the time it was sent. */
  ghost predicate IsSegmentOf(c: Conn, payload: seq<u8>, now: u64, p: Pending<seq<u8>>) {
    var h := MakeHeader(c, 2);
    && p.start == Wrap(c.cfg.iss + c.tx.bytesSent) && p.end == Wrap(c.cfg.iss + c.tx.bytesSent + |payload|)
    && p.sentAt == now && p.retransmits == 0 && !p.sacked
    && h.sequence == p.start && h.cumulativeAck == Wrap(c.rx.ranges.ack) && h.flags == 2
    && LaysOut(p.buffer, h) && |p.buffer| == 12 + 8 * h.sackCount + |payload| && p.buffer[12 + 8 * h.sackCount..] == payload
  }

  /** An accepted payload joins the end of the queue as the segment that is transmitted; a refused one changes nothing. */
  lemma SentIsQueued(cfg: Config, events: seq<Event>, payload: seq<u8>, now: u64)
    ensures var c := After(cfg, events);
            var (c', outs) := Step(c, DoSend(payload, now));
            if SendOutcome(c, payload) != Sent then c' == c && outs == []
            else
              && |c'.tx.queue| == |c.tx.queue| + 1 && c'.tx.queue[..|c.tx.queue|] == c.tx.queue
              && IsSegmentOf(c, payload, now, c'.tx.queue[|c.tx.queue|])
              && outs == [Out(NewData, c'.tx.queue[|c.tx.queue|].buffer)]
              && c' == c.(tx := c'.tx) && c'.tx.sent == c.tx.sent + [payload]
  {
    hide After, SendOutcome, Serialized, MakeHeader, Wrap, LaysOut, Canonical, Tiled, SenderInv;
    var c := After(cfg, events);
    AfterIs(cfg, events);
    SenderIs(cfg.iss, c.tx);
    if SendOutcome(c, payload) == Sent {
      SentIsShort(c, payload);
      HeaderFits(c, payload);
      SegmentLaysOut(c, payload);
      NextIs(cfg.iss, c.tx, |payload|);
    }
  }

  lemma NextIs(iss: u32, tx: Sender, bytes: nat)
    requires Tiled(iss, tx)
    ensures tx.next == Wrap(iss + tx.bytesSent) && Wrap(tx.next + bytes) == Wrap(iss + tx.bytesSent + bytes)
  {
    hide Tile, Off;
    WrapAdd(iss + tx.bytesSent, bytes);
  }

  lemma SegmentLaysOut(c: Conn, payload: seq<u8>)
    requires Fits(MakeHeader(c, FLAG_ACK), payload)
    ensures var h := MakeHeader(c, 2);
            var bytes := Serialized(h) + payload;
            && LaysOut(bytes, h) && |bytes| == 12 + 8 * h.sackCount + |payload| && bytes[12 + 8 * h.sackCount..] == payload
            && h.sequence == c.tx.next && h.cumulativeAck == Wrap(c.rx.ranges.ack) && h.flags == 2
  {
    hide LaysOut, Wrap, Serialized, Validate;
    var h := MakeHeader(c, 2);
    SerializedLaysOut(h);
    LaysOutLonger(Serialized(h), Serialized(h) + payload, h);
  }

  /** What an accepted payload leaves in flight is within both windows; nothing else that happens puts a new byte in flight. */
  lemma FlightStaysWithinWindows(cfg: Config, events: seq<Event>, e: Event)
    ensures var c, c' := After(cfg, events), After(cfg, events + [e]);
            c'.tx.sent != c.tx.sent ==>
              && e.DoSend? && c'.tx.sent == c.tx.sent + [e.payload] && c'.tx.bytesSent == c.tx.bytesSent + |e.payload|
              && c'.tx.bytesAcked == c.tx.bytesAcked
              && c'.tx.bytesSent - c'.tx.bytesAcked <= c.tx.window.cwnd
              && c'.tx.bytesSent - c'.tx.bytesAcked <= LastWindow(events)
  {
    hide After, SendOutcome, ProcessAck, OnPayload, LastWindow, Established;
    var c := After(cfg, events);
    AfterMore(cfg, events, e);
    match e
    case DoSend(payload, now) => SendExactly(cfg, events, payload);
    case DoSegment(segment, now, gate) => SegmentKeepsStream(c, segment, now, gate);
    case DoTick(now) =>
    case DoControl(_, _) =>
  }

  lemma AckKeepsStream(tx: Sender, h: TransportHeader, now: u64)
    requires Congestion.Bounded(tx.window) && h.sackCount <= MAXIMUM_SACK_BLOCKS
    ensures var tx' := ProcessAck(tx, h, now).0; tx'.sent == tx.sent && tx'.bytesSent == tx.bytesSent && tx'.next == tx.next
  {
  }

  lemma SegmentKeepsStream(c: Conn, segment: seq<u8>, now: u64, gate: Gate)
    requires Congestion.Bounded(c.tx.window)
    ensures var tx' := OnSegment(c, segment, now, gate).0.tx;
            tx'.sent == c.tx.sent && tx'.bytesSent == c.tx.bytesSent && tx'.next == c.tx.next
  {
    hide ProcessAck, OnPayload, Parse;
    if Parse(segment).Parsed? {
      var h := Parse(segment).header;
      ParsedIsValid(segment);
      ParsedIsAck(c, h, segment[Parse(segment).consumed..], now, gate);
      AckKeepsStream(c.tx, h, now);
    }
  }

  // ---- What an acknowledgement does ----

  /** How far the acknowledgement lies ahead of the acknowledged bytes, in 32 bits. */
  function Ahead(iss: u32, tx: Sender, ack: u32): nat {
    (ack - iss - tx.bytesAcked) % TWO_32
  }

  /** The acknowledgement is not ahead of what was sent. */
  predicate Believable(iss: u32, tx: Sender, ack: u32) {
    (iss + tx.bytesSent - ack) % TWO_32 < TWO_31
  }

  /** How many bytes the acknowledgement newly acknowledges. */
  function NewlyAcked(iss: u32, tx: Sender, ack: u32): nat {
    if Ahead(iss, tx, ack) <= tx.bytesSent - tx.bytesAcked then Ahead(iss, tx, ack) else 0
  }

  lemma GreaterIs(a: int, x: u32)
    ensures Greater(x, Wrap(a)) <==> 0 < (x - a) % TWO_32 <= TWO_31
    ensures Greater(x, Wrap(a)) <==> (a - x) % TWO_32 >= TWO_31
    ensures Diff(x, Wrap(a)) == (x - a) % TWO_32
  {
  }

  lemma BetweenIs(a: int, f: nat, x: u32)
    requires f < TWO_31
    ensures (a + f - x) % TWO_32 < TWO_31 && 0 < (x - a) % TWO_32 <= TWO_31 <==> 0 < (x - a) % TWO_32 <= f
  {
  }

  lemma AckTestsExactly(iss: u32, tx: Sender, ack: u32)
    requires Tiled(iss, tx)
    ensures Greater(ack, tx.next) <==> !Believable(iss, tx, ack)
    ensures !Greater(ack, tx.next) && Greater(ack, tx.oldest) <==> NewlyAcked(iss, tx, ack) > 0
    ensures NewlyAcked(iss, tx, ack) > 0 ==> Diff(ack, tx.oldest) == NewlyAcked(iss, tx, ack)
    ensures ack == tx.oldest <==> Ahead(iss, tx, ack) == 0
  {
    hide Greater, Diff, Wrap;
    GreaterIs(iss + tx.bytesSent, ack);
    GreaterIs(iss + tx.bytesAcked, ack);
    BetweenIs(iss + tx.bytesAcked, tx.bytesSent - tx.bytesAcked, ack);
    EqualIs(iss + tx.bytesAcked, ack);
    assert ack - iss - tx.bytesAcked == ack - (iss + tx.bytesAcked);
  }

  lemma EqualIs(a: int, x: u32)
    ensures x == Wrap(a) <==> (x - a) % TWO_32 == 0
  {
  }

  /** The block is not empty and reaches from before the segment to behind it. */
  predicate BlockCovers<B>(b: SackBlock, p: Pending<B>) {
    b.start != b.end && (p.start - b.start) % TWO_32 <= TWO_31 && (b.end - p.end) % TWO_32 <= TWO_31
  }

  predicate MarkedAfter<B>(p: Pending<B>, h: TransportHeader)
    requires h.sackCount <= MAXIMUM_SACK_BLOCKS
  {
    p.sacked || exists k :: 0 <= k < h.sackCount && BlockCovers(h.sacks[k], p)
  }

  lemma CoversIs<B>(b: SackBlock, p: Pending<B>)
    ensures b.start != b.end && Covers(b, p) <==> BlockCovers(b, p)
  {
  }

  lemma MarkedIs<B>(p: Pending<B>, h: TransportHeader)
    requires h.sackCount <= MAXIMUM_SACK_BLOCKS
    ensures MarkedBy(p, h.sacks[..h.sackCount]) <==> MarkedAfter(p, h)
  {
    hide Covers, BlockCovers;
    var blocks := h.sacks[..h.sackCount];
    if k :| 0 <= k < |blocks| && blocks[k].start != blocks[k].end && Covers(blocks[k], p) {
      CoversIs(h.sacks[k], p);
    }
    if k :| 0 <= k < h.sackCount && BlockCovers(h.sacks[k], p) {
      CoversIs(h.sacks[k], p);
      assert blocks[k] == h.sacks[k];
    }
  }

  /** The segments with the new marks and nothing else changed. */
  function WithMarks<B>(queue: seq<Pending<B>>, h: TransportHeader): (marked: seq<Pending<B>>)
    requires h.sackCount <= MAXIMUM_SACK_BLOCKS
    ensures |marked| == |queue|
  {
    seq(|queue|, i requires 0 <= i < |queue| => queue[i].(sacked := MarkedAfter(queue[i], h)))
  }

  /** The queue, of which at most the first unmarked segment has been sent again. */
  ghost predicate ResendsAtMost(marked: seq<Pending<seq<u8>>>, now: u64, queue: seq<Pending<seq<u8>>>, outs: seq<Out>) {
    if outs == [] then queue == marked
    else exists n :: ResendsAt(marked, now, queue, outs, n)
  }

  ghost predicate ResendsAt(marked: seq<Pending<seq<u8>>>, now: u64, queue: seq<Pending<seq<u8>>>, outs: seq<Out>, n: nat) {
    && FastRetransmit.FirstUnmarked(marked, n)
    && queue == marked[n := marked[n].(sentAt := now, retransmits := Min(marked[n].retransmits + 1, 65535))]
    && outs == [Out(FastResend, marked[n].buffer)]
  }

  lemma SackedIs(queue: seq<Pending<seq<u8>>>, h: TransportHeader)
    requires h.sackCount <= MAXIMUM_SACK_BLOCKS
    ensures Sacked(queue, h.sacks[..h.sackCount]) == WithMarks(queue, h)
  {
    forall i | 0 <= i < |queue| ensures MarkedBy(queue[i], h.sacks[..h.sackCount]) <==> MarkedAfter(queue[i], h) {
      MarkedIs(queue[i], h);
    }
  }

  lemma ScoreboardIs(tx: Sender, ack: u32, blocks: seq<SackBlock>, now: u64)
    requires Congestion.Bounded(tx.window)
    ensures var (tx', outs) := AckScoreboard(tx, ack, blocks, now);
            && ResendsAtMost(Sacked(tx.queue, blocks), now, tx'.queue, outs)
            && tx'.bytesAcked == tx.bytesAcked && tx'.oldest == tx.oldest && tx'.peerWindow == tx.peerWindow
            && tx'.timer == tx.timer && (outs == [] ==> tx'.window == tx.window)
            && (outs != [] ==> tx.queue != [] && tx'.window == LossResponse(tx.(queue := tx'.queue), Congestion.SackFastRecovery).window)
            && tx'.fast == FastRetransmit.Acked(tx.fast, Sacked(tx.queue, blocks), ack, now).fast
            && (outs != [] <==> FastRetransmit.Acked(tx.fast, Sacked(tx.queue, blocks), ack, now).resend < |tx.queue|)
            && tx'.resends == (if outs != [] then tx.resends + [Loss(tx.bytesAcked, tx.bytesSent)] else tx.resends)
  {
    hide Sacked, Greater, LessEqual, Congestion.Lost;
    var queue := Sacked(tx.queue, blocks);
    var (tx', outs) := AckScoreboard(tx, ack, blocks, now);
    var d := FastRetransmit.Acked(tx.fast, queue, ack, now);
    FastRetransmit.UnmarkedIsLowest(queue);
    if d.resend < |queue| {
      assert ResendsAt(queue, now, tx'.queue, outs, d.resend);
    }
  }

  /**
   What an acknowledgement leaves.  It acknowledges as many bytes as it is ahead, if that is not more than are
   outstanding; the segments up to there leave the queue, and in the others exactly those that a block covers are newly
   marked; at most the first unmarked segment is sent again.  One that is ahead of what was sent only sets the window.
   */
  ghost predicate AckDone(iss: u32, tx: Sender, h: TransportHeader, now: u64, tx': Sender, outs: seq<Out>)
    requires h.sackCount <= MAXIMUM_SACK_BLOCKS
  {
    && tx'.bytesAcked == tx.bytesAcked + NewlyAcked(iss, tx, h.cumulativeAck)
    && tx'.sent == tx.sent && tx'.bytesSent == tx.bytesSent && tx'.peerWindow == h.window
    && |tx'.queue| <= |tx.queue| && Tiled(iss, tx')
    && if Believable(iss, tx, h.cumulativeAck)
       then ResendsAtMost(WithMarks(tx.queue[|tx.queue| - |tx'.queue|..], h), now, tx'.queue, outs)
       else tx' == tx.(peerWindow := h.window) && outs == []
  }

  /** The state between the cumulative and the selective part of an acknowledgement. */
  function Midway(tx: Sender, h: TransportHeader, now: u64): (r: Sender)
    requires Congestion.Bounded(tx.window)
    ensures Congestion.Bounded(r.window)
  {
    var tx' := tx.(peerWindow := h.window);
    if Greater(h.cumulativeAck, tx.oldest) then AckProgress(tx', h.cumulativeAck, now) else tx'
  }

  lemma AckInParts(tx: Sender, h: TransportHeader, now: u64)
    requires Congestion.Bounded(tx.window) && h.sackCount <= MAXIMUM_SACK_BLOCKS && !Greater(h.cumulativeAck, tx.next)
    ensures ProcessAck(tx, h, now) == AckScoreboard(Midway(tx, h, now), h.cumulativeAck, h.sacks[..h.sackCount], now)
  {
  }

  lemma MidwayIs(iss: u32, tx: Sender, h: TransportHeader, now: u64)
    requires SenderInv(iss, tx) && !Greater(h.cumulativeAck, tx.next)
    ensures var mid, n := Midway(tx, h, now), NewlyAcked(iss, tx, h.cumulativeAck);
            && mid.bytesAcked == tx.bytesAcked + n && mid.fast == tx.fast
            && |mid.queue| <= |tx.queue| && mid.queue == tx.queue[|tx.queue| - |mid.queue|..]
            && mid.window == (if n > 0 then Congestion.RecoveryAcked(Congestion.Acked(tx.window, n), h.cumulativeAck) else tx.window)
            && mid.oldest == (if n > 0 then h.cumulativeAck else tx.oldest) && mid.next == tx.next && mid.bytesSent == tx.bytesSent
  {
    hide Tiled, Greater, Congestion.Acked, Congestion.RecoveryAcked, Diff;
    AckTestsExactly(iss, tx, h.cumulativeAck);
  }

  lemma AckExactly(iss: u32, tx: Sender, h: TransportHeader, now: u64)
    requires SenderInv(iss, tx) && h.sackCount <= MAXIMUM_SACK_BLOCKS
    ensures var (tx', outs) := ProcessAck(tx, h, now); AckDone(iss, tx, h, now, tx', outs)
  {
    hide SenderInv, Tiled, AckScoreboard, Midway, ResendsAtMost, WithMarks, Sacked, Greater;
    SenderIs(iss, tx);
    AckTestsExactly(iss, tx, h.cumulativeAck);
    AckKeepsSender(iss, tx, h, now);
    SenderIs(iss, ProcessAck(tx, h, now).0);
    AckKeepsStream(tx, h, now);
    AckWindow(tx, h, now);
    if !Greater(h.cumulativeAck, tx.next) {
      var mid := Midway(tx, h, now);
      AckInParts(tx, h, now);
      MidwayIs(iss, tx, h, now);
      SackedIs(mid.queue, h);
      ScoreboardIs(mid, h.cumulativeAck, h.sacks[..h.sackCount], now);
      SameLength(WithMarks(mid.queue, h), now, ProcessAck(tx, h, now).0.queue, ProcessAck(tx, h, now).1);
    }
  }

  lemma SenderIs(iss: u32, tx: Sender)
    requires SenderInv(iss, tx)
    ensures Tiled(iss, tx) && Congestion.Bounded(tx.window) && tx.fast.lastAck == tx.oldest
  {
  }

  lemma SameLength(marked: seq<Pending<seq<u8>>>, now: u64, queue: seq<Pending<seq<u8>>>, outs: seq<Out>)
    requires ResendsAtMost(marked, now, queue, outs)
    ensures |queue| == |marked|
  {
  }

  // ---- What the timer does ----

  /** The first unmarked segment is sent again when its time is over, and otherwise nothing happens. */
  ghost predicate TickDone(tx: Sender, now: u64, tx': Sender, outs: seq<Out>) {
    && (forall n: nat :: FastRetransmit.FirstUnmarked(tx.queue, n) && IsOver(tx, now, n) ==> TimerResends(tx, now, tx', outs, n))
    && ((forall n: nat :: FastRetransmit.FirstUnmarked(tx.queue, n) ==> !IsOver(tx, now, n)) ==> tx' == tx && outs == [])
  }

  predicate IsOver(tx: Sender, now: u64, n: nat)
    requires n < |tx.queue|
  {
    tx.queue[n].sentAt + tx.timer.current <= now
  }

  ghost predicate TimerResends(tx: Sender, now: u64, tx': Sender, outs: seq<Out>, n: nat)
    requires n < |tx.queue|
  {
    && outs == [Out(RtoResend, tx.queue[n].buffer)]
    && tx'.queue == tx.queue[n := tx.queue[n].(sentAt := now, retransmits := Min(tx.queue[n].retransmits + 1, 65535))]
    && tx'.bytesAcked == tx.bytesAcked && tx'.bytesSent == tx.bytesSent && tx'.sent == tx.sent
    && tx'.peerWindow == tx.peerWindow && tx'.fast == tx.fast
  }

  lemma TickExactly(iss: u32, tx: Sender, now: u64)
    requires SenderInv(iss, tx)
    ensures var (tx', outs) := Tick(tx, now); TickDone(tx, now, tx', outs)
  {
    hide Tiled, Epochs, Congestion.Lost;
    FastRetransmit.UnmarkedIsLowest(tx.queue);
    forall n: nat | FastRetransmit.FirstUnmarked(tx.queue, n) ensures n == LowestUnsacked(tx.queue) {
      OneFirst(tx.queue, n, LowestUnsacked(tx.queue));
    }
  }

  lemma OneFirst<B>(q: seq<Pending<B>>, m: nat, n: nat)
    requires FastRetransmit.FirstUnmarked(q, m) && n <= |q| && (n < |q| ==> FastRetransmit.FirstUnmarked(q, n))
    requires FastRetransmit.SomeUnmarked(q) ==> n < |q|
    ensures m == n
  {
  }

  // ---- The controllers over whole runs ----

  predicate Includes(outs: seq<Out>, reason: Reason) {
    exists i :: 0 <= i < |outs| && outs[i].reason == reason
  }

  /** What a step tells the congestion controller: bytes newly acknowledged, and what was sent again for which reason. */
  function WindowEvents(c: Conn, e: Event): seq<Congestion.Event>
    requires Congestion.Bounded(c.tx.window)
  {
    var (c', outs) := Step(c, e);
    var acked, flight := c'.tx.bytesAcked - c.tx.bytesAcked, c'.tx.bytesSent - c'.tx.bytesAcked;
    (if acked > 0 then [Congestion.Ack(Wrap(acked)), Congestion.Recovery(c'.tx.oldest)] else [])
    + (if Includes(outs, FastResend) then [Congestion.Loss(Congestion.SackFastRecovery, Wrap(flight), c'.tx.next)] else [])
    + (if Includes(outs, RtoResend) then [Congestion.Loss(Congestion.RtoTimeout, Wrap(flight), c'.tx.next)] else [])
  }

  function WindowTrace(cfg: Config, events: seq<Event>): seq<Congestion.Event> {
    if events == [] then []
    else WindowTrace(cfg, events[..|events| - 1]) + WindowEvents(After(cfg, events[..|events| - 1]), events[|events| - 1])
  }

  /** What a step tells the timer: progress, a sample when the first segment leaves the queue, a timeout. */
  function TimerEvents(c: Conn, e: Event): seq<Rto.Event>
    requires Congestion.Bounded(c.tx.window)
  {
    var (c', outs) := Step(c, e);
    var now := match e case DoSegment(_, t, _) => t case DoTick(t) => t case DoSend(_, t) => t case DoControl(_, _) => 0;
    (if c'.tx.bytesAcked > c.tx.bytesAcked then
       [Rto.Progress] + (if |c'.tx.queue| < |c.tx.queue| && c.tx.queue[0].sentAt != 0
                         then [Rto.Observe(c.tx.queue[0].sentAt, now, c.tx.queue[0].retransmits != 0)] else [])
     else [])
    + (if Includes(outs, RtoResend) then [Rto.Timeout] else [])
  }

  function TimerTrace(cfg: Config, events: seq<Event>): seq<Rto.Event> {
    if events == [] then []
    else TimerTrace(cfg, events[..|events| - 1]) + TimerEvents(After(cfg, events[..|events| - 1]), events[|events| - 1])
  }

  lemma ApplyOne(w: Congestion.Window, e: Congestion.Event)
    requires Congestion.Bounded(w)
    ensures Congestion.Apply(w, [e]) == Congestion.Step(w, e) && Congestion.Apply(w, []) == w
  {
    assert [e][1..] == [];
  }

  lemma ApplyAck(w: Congestion.Window, a: Congestion.Event, b: Congestion.Event, more: seq<Congestion.Event>)
    requires Congestion.Bounded(w)
    ensures Congestion.Apply(w, [a, b] + more) == Congestion.Apply(Congestion.Step(Congestion.Step(w, a), b), more)
  {
    assert ([a, b] + more)[1..] == [b] + more && ([b] + more)[1..] == more;
  }

  /** The end of the queue is where sending goes on. */
  lemma QueueEndsAtNext(iss: u32, tx: Sender)
    requires Tiled(iss, tx) && tx.queue != []
    ensures tx.queue[|tx.queue| - 1].end == tx.next
  {
    assert Tile(iss, tx.sent, First(tx) + (|tx.queue| - 1), tx.queue[|tx.queue| - 1]);
  }

  /** An acknowledgement drives the congestion window by its bytes, and by a loss if it made a segment be sent again. */
  lemma AckWindowEvents(iss: u32, tx: Sender, h: TransportHeader, now: u64)
    requires SenderInv(iss, tx) && h.sackCount <= MAXIMUM_SACK_BLOCKS
    ensures var (tx', outs) := ProcessAck(tx, h, now);
            var acked := tx'.bytesAcked - tx.bytesAcked;
            tx'.window == Congestion.Apply(tx.window,
              (if acked > 0 then [Congestion.Ack(Wrap(acked)), Congestion.Recovery(tx'.oldest)] else [])
              + (if outs != [] then [Congestion.Loss(Congestion.SackFastRecovery, Wrap(tx'.bytesSent - tx'.bytesAcked), tx'.next)] else []))
  {
    hide SenderInv, Tiled, AckScoreboard, Midway, ResendsAtMost, Sacked, Greater, Congestion.Apply, Congestion.Acked,
      Congestion.RecoveryAcked, Congestion.Lost, AckProgress, FastRetransmit.Acked, Wrap;
    SenderIs(iss, tx);
    AckTestsExactly(iss, tx, h.cumulativeAck);
    var (tx', outs) := ProcessAck(tx, h, now);
    var acked := NewlyAcked(iss, tx, h.cumulativeAck);
    AckExactly(iss, tx, h, now);
    AckKeepsStream(tx, h, now);
    FlightBound(iss, tx);
    Small(acked);
    if Greater(h.cumulativeAck, tx.next) {
      var none: seq<Congestion.Event> := [];
      assert none + none == none;
      NoEvents(tx.window);
    } else {
      var mid := Midway(tx, h, now);
      AckInParts(tx, h, now);
      MidwayIs(iss, tx, h, now);
      ScoreboardIs(mid, h.cumulativeAck, h.sacks[..h.sackCount], now);
      var loss := if outs == [] then [] else [Congestion.Loss(Congestion.SackFastRecovery, Wrap(tx'.bytesSent - tx'.bytesAcked), tx'.next)];
      SameLength(Sacked(mid.queue, h.sacks[..h.sackCount]), now, tx'.queue, outs);
      LossIs(iss, mid, tx', outs, loss);
      if acked > 0 {
        ApplyAck(tx.window, Congestion.Ack(acked), Congestion.Recovery(tx'.oldest), loss);
      } else {
        assert [] + loss == loss;
      }
    }
  }

  lemma FlightBound(iss: u32, tx: Sender)
    requires Tiled(iss, tx)
    ensures 0 <= tx.bytesSent - tx.bytesAcked <= MAXIMUM_FLIGHT
  {
  }

  lemma Small(n: nat)
    requires n <= MAXIMUM_FLIGHT
    ensures Wrap(n) == n
  {
  }

  lemma NoEvents(w: Congestion.Window)
    requires Congestion.Bounded(w)
    ensures Congestion.Apply(w, []) == w
  {
  }

  lemma LossIs(iss: u32, mid: Sender, tx': Sender, outs: seq<Out>, loss: seq<Congestion.Event>)
    requires Congestion.Bounded(mid.window) && Tiled(iss, tx') && |tx'.queue| == |mid.queue|
    requires tx'.bytesAcked == mid.bytesAcked && tx'.oldest == mid.oldest && tx'.next == mid.next
    requires outs == [] ==> tx'.window == mid.window && loss == []
    requires outs != [] ==>
               && mid.queue != []
               && tx'.window == LossResponse(mid.(queue := tx'.queue), Congestion.SackFastRecovery).window
               && loss == [Congestion.Loss(Congestion.SackFastRecovery, Wrap(tx'.bytesSent - tx'.bytesAcked), tx'.next)]
    ensures tx'.window == Congestion.Apply(mid.window, loss)
  {
    hide Tiled, Congestion.Lost;
    if outs == [] {
      NoEvents(mid.window);
    } else {
      QueueEndsAtNext(iss, tx');
      FlightIsOutstanding(iss, tx');
      FlightBound(iss, tx');
      Small(Flight(tx'));
      ApplyOne(mid.window, loss[0]);
    }
  }

  lemma ProgressEvents(timer: Rto.Timer, sentAt: u64, resent: bool, now: u64)
    ensures ProgressTimer(timer, sentAt, resent, now)
         == Rto.Apply(timer, [Rto.Progress] + if sentAt != 0 then [Rto.Observe(sentAt, now, resent)] else [])
  {
    hide Rto.Apply;
    var more := if sentAt != 0 then [Rto.Observe(sentAt, now, resent)] else [];
    TimerApply(timer, Rto.Progress, more);
    if sentAt != 0 {
      TimerApply(Rto.Progressed(timer), more[0], []);
      assert [more[0]] + [] == more;
    }
    NoTimerEvents(Rto.Progressed(timer));
    NoTimerEvents(ProgressTimer(timer, sentAt, resent, now));
  }

  lemma TimerApply(t: Rto.Timer, e: Rto.Event, more: seq<Rto.Event>)
    ensures Rto.Apply(t, [e] + more) == Rto.Apply(Rto.Step(t, e), more)
  {
    assert ([e] + more)[1..] == more;
  }

  /** The first segment leaves the queue exactly when the acknowledgement covers it, and then gives the sample. */
  lemma MidwayTimer(iss: u32, tx: Sender, h: TransportHeader, now: u64)
    requires SenderInv(iss, tx) && !Greater(h.cumulativeAck, tx.next)
    ensures var mid := Midway(tx, h, now);
            mid.timer == Rto.Apply(tx.timer,
              if mid.bytesAcked > tx.bytesAcked then
                [Rto.Progress] + (if |mid.queue| < |tx.queue| && tx.queue[0].sentAt != 0
                                  then [Rto.Observe(tx.queue[0].sentAt, now, tx.queue[0].retransmits != 0)] else [])
              else [])
  {
    hide Tiled, Greater, ProgressTimer, Rto.Apply, ProgressWindow, LessEqual;
    AckTestsExactly(iss, tx, h.cumulativeAck);
    if Greater(h.cumulativeAck, tx.oldest) {
      ProgressEvents(tx.timer, SampleTime(tx.queue, h.cumulativeAck), SampleResent(tx.queue), now);
    } else {
      NoTimerEvents(tx.timer);
    }
  }

  lemma NoTimerEvents(t: Rto.Timer)
    ensures Rto.Apply(t, []) == t
  {
  }

  lemma AckTimerEvents(iss: u32, tx: Sender, h: TransportHeader, now: u64)
    requires SenderInv(iss, tx) && h.sackCount <= MAXIMUM_SACK_BLOCKS
    ensures var tx' := ProcessAck(tx, h, now).0;
            tx'.timer == Rto.Apply(tx.timer,
              if tx'.bytesAcked > tx.bytesAcked then
                [Rto.Progress] + (if |tx'.queue| < |tx.queue| && tx.queue[0].sentAt != 0
                                  then [Rto.Observe(tx.queue[0].sentAt, now, tx.queue[0].retransmits != 0)] else [])
              else [])
  {
    hide SenderInv, Tiled, AckScoreboard, Midway, ResendsAtMost, Sacked, Greater, Rto.Apply, FastRetransmit.Acked;
    SenderIs(iss, tx);
    AckTestsExactly(iss, tx, h.cumulativeAck);
    AckExactly(iss, tx, h, now);
    var (tx', outs) := ProcessAck(tx, h, now);
    if Greater(h.cumulativeAck, tx.next) {
      NoTimerEvents(tx.timer);
    } else {
      var mid := Midway(tx, h, now);
      AckInParts(tx, h, now);
      MidwayTimer(iss, tx, h, now);
      ScoreboardIs(mid, h.cumulativeAck, h.sacks[..h.sackCount], now);
      SameLength(Sacked(mid.queue, h.sacks[..h.sackCount]), now, tx'.queue, outs);
    }
  }

  /** A timeout is a loss, and backs the timer off. */
  lemma TickEvents(iss: u32, tx: Sender, now: u64)
    requires SenderInv(iss, tx)
    ensures var (tx', outs) := Tick(tx, now);
            && tx'.window == Congestion.Apply(tx.window,
                 if outs != [] then [Congestion.Loss(Congestion.RtoTimeout, Wrap(tx.bytesSent - tx.bytesAcked), tx.next)] else [])
            && tx'.timer == Rto.Apply(tx.timer, if outs != [] then [Rto.Timeout] else [])
            && tx'.bytesAcked == tx.bytesAcked && tx'.bytesSent == tx.bytesSent && tx'.next == tx.next && |tx'.queue| == |tx.queue|
            && (forall i :: 0 <= i < |outs| ==> outs[i].reason == RtoResend)
  {
    hide SenderInv, Tiled, Congestion.Apply, Congestion.Lost, Wrap;
    SenderIs(iss, tx);
    NoEvents(tx.window);
    if tx.queue != [] {
      QueueEndsAtNext(iss, tx);
      FlightIsOutstanding(iss, tx);
      FlightBound(iss, tx);
      Small(Flight(tx));
      ApplyOne(tx.window, Congestion.Loss(Congestion.RtoTimeout, Wrap(tx.bytesSent - tx.bytesAcked), tx.next));
    }
    assert [Rto.Timeout][1..] == [];
  }

  lemma RepliesAreControl(c: Conn, start: u32, payload: seq<u8>)
    ensures forall i :: 0 <= i < |OnPayload(c, start, payload).1| ==> OnPayload(c, start, payload).1[i].reason == Control
  {
  }

  lemma ResendsAreFast(tx: Sender, h: TransportHeader, now: u64)
    requires Congestion.Bounded(tx.window) && h.sackCount <= MAXIMUM_SACK_BLOCKS
    ensures forall i :: 0 <= i < |ProcessAck(tx, h, now).1| ==> ProcessAck(tx, h, now).1[i].reason == FastResend
  {
  }

  /** A received segment acts on the sender through its acknowledgement, and sends again for no other reason. */
  lemma SegmentParts(c: Conn, segment: seq<u8>, now: u64, gate: Gate)
    requires Congestion.Bounded(c.tx.window)
    ensures var (c', outs) := OnSegment(c, segment, now, gate);
            match AckIn(DoSegment(segment, now, gate))
            case None => c'.tx == c.tx && !Includes(outs, FastResend) && !Includes(outs, RtoResend)
            case Some(h) =>
              && h.sackCount <= MAXIMUM_SACK_BLOCKS && c'.tx == ProcessAck(c.tx, h, now).0
              && (Includes(outs, FastResend) <==> ProcessAck(c.tx, h, now).1 != []) && !Includes(outs, RtoResend)
  {
    hide ProcessAck, OnPayload, Parse;
    if Parse(segment).Parsed? {
      var Parsed(h, n) := Parse(segment);
      ParsedIsValid(segment);
      FlagIsBit(h.flags);
      ParsedIsAck(c, h, segment[n..], now, gate);
      ResendsAreFast(c.tx, h, now);
      var (tx, copies) := if HasAck(h.flags) then ProcessAck(c.tx, h, now) else (c.tx, []);
      var mid := c.(tx := tx, established := gate.established);
      RepliesAreControl(mid, h.sequence, segment[n..]);
      IncludesBoth(copies, OnPayload(mid, h.sequence, segment[n..]).1);
      IncludesBoth(copies, []);
      assert copies + [] == copies;
    }
  }

  lemma IncludesBoth(copies: seq<Out>, replies: seq<Out>)
    requires forall i :: 0 <= i < |copies| ==> copies[i].reason == FastResend
    requires forall i :: 0 <= i < |replies| ==> replies[i].reason == Control
    ensures Includes(copies + replies, FastResend) <==> copies != []
    ensures !Includes(copies + replies, RtoResend)
  {
    if copies != [] {
      assert (copies + replies)[0].reason == FastResend;
    }
  }

  /** One step of the endpoint is these steps of its controllers. */
  lemma StepEvents(c: Conn, e: Event)
    requires SenderInv(c.cfg.iss, c.tx)
    ensures Step(c, e).0.tx.window == Congestion.Apply(c.tx.window, WindowEvents(c, e))
    ensures Step(c, e).0.tx.timer == Rto.Apply(c.tx.timer, TimerEvents(c, e))
  {
    hide SenderInv, ProcessAck, OnSegment, Tick, SendOutcome, Congestion.Apply, Rto.Apply, Parse, Wrap, ControlSegment, Includes;
    SenderIs(c.cfg.iss, c.tx);
    NoEvents(c.tx.window);
    NoTimerEvents(c.tx.timer);
    match e
    case DoSend(payload, now) =>
      NoneOf(c, e);
      assert WindowEvents(c, e) == [] && TimerEvents(c, e) == [];
    case DoControl(established, flags) =>
      ControlOuts(c, flags);
      assert WindowEvents(c, e) == [] && TimerEvents(c, e) == [];
    case DoTick(now) => TickStepEvents(c, now);
    case DoSegment(segment, now, gate) => SegmentEvents(c, segment, now, gate);
  }

  lemma TickStepEvents(c: Conn, now: u64)
    requires SenderInv(c.cfg.iss, c.tx)
    ensures Step(c, DoTick(now)).0.tx.window == Congestion.Apply(c.tx.window, WindowEvents(c, DoTick(now)))
    ensures Step(c, DoTick(now)).0.tx.timer == Rto.Apply(c.tx.timer, TimerEvents(c, DoTick(now)))
  {
    hide SenderInv, Tick, Congestion.Apply, Rto.Apply, Wrap, Includes;
    SenderIs(c.cfg.iss, c.tx);
    TickEvents(c.cfg.iss, c.tx, now);
    OnlyRto(Tick(c.tx, now).1);
    assert WindowEvents(c, DoTick(now)) == if Tick(c.tx, now).1 != []
      then [Congestion.Loss(Congestion.RtoTimeout, Wrap(c.tx.bytesSent - c.tx.bytesAcked), c.tx.next)] else [];
    assert TimerEvents(c, DoTick(now)) == if Tick(c.tx, now).1 != [] then [Rto.Timeout] else [];
  }

  lemma SegmentEvents(c: Conn, segment: seq<u8>, now: u64, gate: Gate)
    requires SenderInv(c.cfg.iss, c.tx)
    ensures var e := DoSegment(segment, now, gate);
            && Step(c, e).0.tx.window == Congestion.Apply(c.tx.window, WindowEvents(c, e))
            && Step(c, e).0.tx.timer == Rto.Apply(c.tx.timer, TimerEvents(c, e))
  {
    hide SenderInv, ProcessAck, OnSegment, Congestion.Apply, Rto.Apply, Parse, Wrap, Includes;
    var e := DoSegment(segment, now, gate);
    SenderIs(c.cfg.iss, c.tx);
    NoEvents(c.tx.window);
    NoTimerEvents(c.tx.timer);
    SegmentParts(c, segment, now, gate);
    SegmentKeepsStream(c, segment, now, gate);
    match AckIn(e) {
      case None =>
        assert WindowEvents(c, e) == [] && TimerEvents(c, e) == [];
      case Some(h) =>
        AckWindowEvents(c.cfg.iss, c.tx, h, now);
        AckTimerEvents(c.cfg.iss, c.tx, h, now);
        var (tx', outs) := ProcessAck(c.tx, h, now);
        var acked := tx'.bytesAcked - c.tx.bytesAcked;
        assert WindowEvents(c, e) ==
          (if acked > 0 then [Congestion.Ack(Wrap(acked)), Congestion.Recovery(tx'.oldest)] else [])
          + (if outs != [] then [Congestion.Loss(Congestion.SackFastRecovery, Wrap(tx'.bytesSent - tx'.bytesAcked), tx'.next)] else []);
        assert TimerEvents(c, e) ==
          if acked > 0 then
            [Rto.Progress] + (if |tx'.queue| < |c.tx.queue| && c.tx.queue[0].sentAt != 0
                              then [Rto.Observe(c.tx.queue[0].sentAt, now, c.tx.queue[0].retransmits != 0)] else [])
          else [];
    }
  }

  lemma NoneOf(c: Conn, e: Event)
    requires Congestion.Bounded(c.tx.window) && e.DoSend?
    ensures !Includes(Step(c, e).1, FastResend) && !Includes(Step(c, e).1, RtoResend)
  {
  }

  lemma ControlOuts(c: Conn, flags: u8)
    ensures !Includes(ControlSegment(c, flags), FastResend) && !Includes(ControlSegment(c, flags), RtoResend)
  {
  }

  lemma OnlyRto(outs: seq<Out>)
    requires forall i :: 0 <= i < |outs| ==> outs[i].reason == RtoResend
    ensures !Includes(outs, FastResend) && (Includes(outs, RtoResend) <==> outs != [])
  {
    if outs != [] {
      assert outs[0].reason == RtoResend;
    }
  }

  /**
   In every run the congestion window and the timer are those of their own runs, over the events of the connection: the
   bytes that were newly acknowledged, the samples of first segments that left the queue, a loss of the right kind for
   every segment sent again, with the bytes outstanding.
   */
  lemma {:induction false} ControllersFollow(cfg: Config, events: seq<Event>)
    ensures After(cfg, events).tx.window == Congestion.Run(cfg.mss, TWO_32 - 1, WindowTrace(cfg, events))
    ensures After(cfg, events).tx.timer == Rto.Run(TimerTrace(cfg, events))
    decreases |events|
  {
    hide Step, WindowEvents, TimerEvents, SenderInv, Congestion.Apply, Rto.Apply;
    if events != [] {
      var init, e := events[..|events| - 1], events[|events| - 1];
      var c := After(cfg, init);
      ControllersFollow(cfg, init);
      AfterIs(cfg, init);
      SenderIs(cfg.iss, c.tx);
      StepEvents(c, e);
      Congestion.RunInTwo(cfg.mss, TWO_32 - 1, WindowTrace(cfg, init), WindowEvents(c, e));
      Rto.RunInTwo(TimerTrace(cfg, init), TimerEvents(c, e));
    }
  }

  // ---- Fast retransmission over whole runs ----

  /** How often the acknowledged point has been repeated since it moved. */
  function Repeats(cfg: Config, events: seq<Event>): nat {
    if events == [] then 0
    else
      var init, e := events[..|events| - 1], events[|events| - 1];
      var c, c' := After(cfg, init), After(cfg, events);
      if c'.tx.bytesAcked > c.tx.bytesAcked then 0
      else Repeats(cfg, init) + if IsRepeat(cfg.iss, c.tx, e) then 1 else 0
  }

  predicate IsRepeat(iss: u32, tx: Sender, e: Event) {
    AckIn(e).Some? && Ahead(iss, tx, AckIn(e).value.cumulativeAck) == 0
  }

  /** How many bytes had been sent when a segment was last sent again for duplicates. */
  function LastFast(cfg: Config, events: seq<Event>): Option<nat> {
    if events == [] then None
    else
      var init, e := events[..|events| - 1], events[|events| - 1];
      if Includes(Step(After(cfg, init), e).1, FastResend) then Some(After(cfg, init).tx.bytesSent) else LastFast(cfg, init)
  }

  /** Not everything that was outstanding then has been acknowledged. */
  predicate EpochOpen(cfg: Config, events: seq<Event>) {
    LastFast(cfg, events).Some? && After(cfg, events).tx.bytesAcked < LastFast(cfg, events).value
  }

  ghost predicate LastIs(resends: seq<Loss>, last: Option<nat>) {
    if resends == [] then last == None else last == Some(resends[|resends| - 1].sent)
  }

  /** What one acknowledgement does to the duplicate counter and to the list of epochs. */
  lemma AckFast(iss: u32, tx: Sender, h: TransportHeader, now: u64)
    requires SenderInv(iss, tx) && h.sackCount <= MAXIMUM_SACK_BLOCKS
    ensures var (tx', outs) := ProcessAck(tx, h, now);
            && tx'.fast.duplicates == (if NewlyAcked(iss, tx, h.cumulativeAck) > 0 then 0
                                       else if Ahead(iss, tx, h.cumulativeAck) == 0 then Min(tx.fast.duplicates + 1, TWO_32 - 1)
                                       else tx.fast.duplicates)
            && tx'.resends == (if outs != [] then tx.resends + [Loss(tx.bytesAcked, tx.bytesSent)] else tx.resends)
            && (outs != [] <==> Ahead(iss, tx, h.cumulativeAck) == 0 && tx.fast.duplicates == 2 && !tx.fast.inRecovery
                                && FastRetransmit.SomeUnmarked(tx'.queue))
  {
    hide SenderInv, Tiled, Midway, Sacked, Greater, AckScoreboard, ProcessAck, FastRetransmit.Acked, ResendsAtMost, Ahead, NewlyAcked, Believable, FastRetransmit.SomeUnmarked, Congestion.Bounded;
    SenderIs(iss, tx);
    FlightBound(iss, tx);
    AckTestsExactly(iss, tx, h.cumulativeAck);
    AheadIsSmall(iss, tx, h.cumulativeAck);
    if Greater(h.cumulativeAck, tx.next) {
      RejectedAck(tx, h, now);
    } else {
      BelievedAck(iss, tx, h, now);
    }
  }

  lemma BelievedAck(iss: u32, tx: Sender, h: TransportHeader, now: u64)
    requires SenderInv(iss, tx) && h.sackCount <= MAXIMUM_SACK_BLOCKS && !Greater(h.cumulativeAck, tx.next)
    ensures var (tx', outs) := ProcessAck(tx, h, now);
            var repeat := !Greater(h.cumulativeAck, tx.oldest) && h.cumulativeAck == tx.oldest;
            && tx'.fast.duplicates == (if Greater(h.cumulativeAck, tx.oldest) then 0
                                       else if repeat then Min(tx.fast.duplicates + 1, TWO_32 - 1)
                                       else tx.fast.duplicates)
            && tx'.resends == (if outs != [] then tx.resends + [Loss(tx.bytesAcked, tx.bytesSent)] else tx.resends)
            && (outs != [] <==> repeat && tx.fast.duplicates == 2 && !tx.fast.inRecovery && FastRetransmit.SomeUnmarked(tx'.queue))
  {
    hide SenderInv, Tiled, NewlyAcked, Ahead, Believable, Congestion.Bounded, Midway, Sacked, Greater, AckScoreboard, ProcessAck, FastRetransmit.Acked, ResendsAtMost, FastRetransmit.SomeUnmarked;
    SenderIs(iss, tx);
    AckTestsExactly(iss, tx, h.cumulativeAck);
    var mid, blocks := Midway(tx, h, now), h.sacks[..h.sackCount];
    AckInParts(tx, h, now);
    MidwayIs(iss, tx, h, now);
    MidwayResends(tx, h, now);
    FastRetransmit.OneAck(mid.fast, Sacked(mid.queue, blocks), h.cumulativeAck, now);
    ScoreboardIs(mid, h.cumulativeAck, blocks, now);
    SameMarks(Sacked(mid.queue, blocks), now, ProcessAck(tx, h, now).0.queue, ProcessAck(tx, h, now).1);
  }

  lemma RejectedAck(tx: Sender, h: TransportHeader, now: u64)
    requires Congestion.Bounded(tx.window) && h.sackCount <= MAXIMUM_SACK_BLOCKS && Greater(h.cumulativeAck, tx.next)
    ensures ProcessAck(tx, h, now) == (tx.(peerWindow := h.window), [])
  {
  }

  lemma MidwayResends(tx: Sender, h: TransportHeader, now: u64)
    requires Congestion.Bounded(tx.window)
    ensures Midway(tx, h, now).resends == tx.resends
  {
  }

  lemma AheadIsSmall(iss: u32, tx: Sender, ack: u32)
    requires 0 <= tx.bytesSent - tx.bytesAcked <= MAXIMUM_FLIGHT
    ensures Ahead(iss, tx, ack) == 0 ==> NewlyAcked(iss, tx, ack) == 0 && Believable(iss, tx, ack)
  {
    var x, f := ack - iss - tx.bytesAcked, tx.bytesSent - tx.bytesAcked;
    assert iss + tx.bytesSent - ack == f - x;
    if x % TWO_32 == 0 {
      SmallDistance(x, f);
    }
  }

  lemma SmallDistance(x: int, f: nat)
    requires x % TWO_32 == 0 && f <= MAXIMUM_FLIGHT
    ensures (f - x) % TWO_32 == f
  {
  }

  lemma SameMarks(marked: seq<Pending<seq<u8>>>, now: u64, queue: seq<Pending<seq<u8>>>, outs: seq<Out>)
    requires ResendsAtMost(marked, now, queue, outs)
    ensures FastRetransmit.SomeUnmarked(queue) <==> FastRetransmit.SomeUnmarked(marked)
  {
    assert |queue| == |marked| && forall i :: 0 <= i < |queue| ==> queue[i].sacked == marked[i].sacked;
  }

  lemma StepFast(c: Conn, e: Event)
    requires SenderInv(c.cfg.iss, c.tx)
    ensures var (c', outs) := Step(c, e);
            && c'.tx.fast.duplicates == (if c'.tx.bytesAcked > c.tx.bytesAcked then 0
                                         else if IsRepeat(c.cfg.iss, c.tx, e) then Min(c.tx.fast.duplicates + 1, TWO_32 - 1)
                                         else c.tx.fast.duplicates)
            && c'.tx.resends == (if Includes(outs, FastResend) then c.tx.resends + [Loss(c.tx.bytesAcked, c.tx.bytesSent)] else c.tx.resends)
            && (Includes(outs, FastResend) <==>
                  && IsRepeat(c.cfg.iss, c.tx, e) && c.tx.fast.duplicates == 2 && !c.tx.fast.inRecovery
                  && FastRetransmit.SomeUnmarked(c'.tx.queue))
  {
    hide SenderInv, ProcessAck, OnSegment, Parse, Includes, ControlSegment, SendOutcome, FastRetransmit.SomeUnmarked, Tick, Ahead;
    SenderIs(c.cfg.iss, c.tx);
    match e
    case DoSend(payload, now) => NoneOf(c, e);
    case DoControl(established, flags) => ControlOuts(c, flags);
    case DoTick(now) =>
      TickEvents(c.cfg.iss, c.tx, now);
      TickFast(c.tx, now);
      OnlyRto(Tick(c.tx, now).1);
    case DoSegment(segment, now, gate) =>
      SegmentParts(c, segment, now, gate);
      match AckIn(e) {
        case None =>
        case Some(h) =>
          AckFast(c.cfg.iss, c.tx, h, now);
          AckExactly(c.cfg.iss, c.tx, h, now);
      }
  }

  lemma TickFast(tx: Sender, now: u64)
    requires Congestion.Bounded(tx.window)
    ensures Tick(tx, now).0.fast == tx.fast && Tick(tx, now).0.resends == tx.resends
  {
  }

  lemma {:induction false} FastIsHistory(cfg: Config, events: seq<Event>)
    ensures var tx := After(cfg, events).tx;
            && tx.fast.duplicates == Min(Repeats(cfg, events), TWO_32 - 1)
            && LastIs(tx.resends, LastFast(cfg, events))
            && (tx.fast.inRecovery <==> EpochOpen(cfg, events))
    decreases |events|
  {
    hide Step, SenderInv, Includes, IsRepeat, Epochs;
    AfterIs(cfg, events);
    EpochIsOpen(cfg.iss, After(cfg, events).tx);
    if events != [] {
      var init, e := events[..|events| - 1], events[|events| - 1];
      FastIsHistory(cfg, init);
      AfterIs(cfg, init);
      SenderIs(cfg.iss, After(cfg, init).tx);
      StepFast(After(cfg, init), e);
    }
  }

  lemma EpochIsOpen(iss: u32, tx: Sender)
    requires SenderInv(iss, tx)
    ensures tx.fast.inRecovery <==> tx.resends != [] && tx.bytesAcked < tx.resends[|tx.resends| - 1].sent
  {
    hide Tiled;
  }

  /**
   In every run a segment is sent again for duplicates if and only if an acknowledgement repeats the acknowledged point
   for exactly the third time since it moved, everything outstanding at the last such retransmission has been
   acknowledged, and some segment is unmarked.  It is the first unmarked one.
   */
  lemma FastResendsExactly(cfg: Config, events: seq<Event>, e: Event)
    ensures var c := After(cfg, events);
            var (c', outs) := Step(c, e);
            && (Includes(outs, FastResend) <==>
                  && IsRepeat(cfg.iss, c.tx, e) && Repeats(cfg, events) == 2 && !EpochOpen(cfg, events)
                  && FastRetransmit.SomeUnmarked(c'.tx.queue))
            && (Includes(outs, FastResend) ==> exists n: nat :: ResentNow(c'.tx.queue, e, n) && outs[0] == Out(FastResend, c'.tx.queue[n].buffer))
  {
    hide Step, SenderInv, Includes, IsRepeat, FastRetransmit.SomeUnmarked, Repeats, LastFast, LastIs, EpochOpen;
    var c := After(cfg, events);
    AfterIs(cfg, events);
    SenderIs(cfg.iss, c.tx);
    FastIsHistory(cfg, events);
    StepFast(c, e);
    if Includes(Step(c, e).1, FastResend) {
      ResentIsFirst(c, e);
    }
  }

  /** The first unmarked segment, sent again at the time of the event. */
  ghost predicate ResentNow(queue: seq<Pending<seq<u8>>>, e: Event, n: nat) {
    FastRetransmit.FirstUnmarked(queue, n) && e.DoSegment? && queue[n].sentAt == e.now && queue[n].retransmits > 0
  }

  lemma ResentIsFirst(c: Conn, e: Event)
    requires SenderInv(c.cfg.iss, c.tx) && Includes(Step(c, e).1, FastResend)
    ensures var (c', outs) := Step(c, e);
            outs != [] && exists n: nat :: ResentNow(c'.tx.queue, e, n) && outs[0] == Out(FastResend, c'.tx.queue[n].buffer)
  {
    hide SenderInv, ProcessAck, Parse, Includes, ControlSegment, SendOutcome, Tick, OnPayload, Tiled, WithMarks;
    SenderIs(c.cfg.iss, c.tx);
    match e
    case DoSend(payload, now) => NoneOf(c, e);
    case DoControl(established, flags) => ControlOuts(c, flags);
    case DoTick(now) =>
      TickEvents(c.cfg.iss, c.tx, now);
      OnlyRto(Tick(c.tx, now).1);
    case DoSegment(segment, now, gate) =>
      SegmentParts(c, segment, now, gate);
      var h := AckIn(e).value;
      FlagIsBit(h.flags);
      AckExactly(c.cfg.iss, c.tx, h, now);
      var (tx', outs) := ProcessAck(c.tx, h, now);
      var marked := WithMarks(c.tx.queue[|c.tx.queue| - |tx'.queue|..], h);
      var n: nat :| ResendsAt(marked, now, tx'.queue, outs, n);
      assert ResentNow(tx'.queue, e, n);
  }
}
