/**
 What gets through.  The safety theorems say that nothing wrong is delivered or acknowledged; these say what one packet
 does when it arrives, and that a run in which every chunk arrives while there is room, and then an acknowledgement,
 has delivered and acknowledged everything.
 */
module Progress {
  import opened Numbers
  import opened Sequence
  import opened Wire
  import opened RetransmissionQueue
  import opened Intervals
  import opened ReceiveRanges
  import opened ConnectionModel
  import opened Stream
  import opened SenderInvariant
  import opened ReceiverAgreement
  import opened ReceiverProgress
  import opened Protocol
  import SenderRuns
  import FastRetransmit
  import Congestion

  // ---- A payload arrives ----

  predicate HasPayload(p: Packet) {
    Parse(p.wire).Parsed? && Parse(p.wire).consumed < |p.wire|
  }

  predicate IsOpen(gate: Gate) {
    gate.accepted && gate.established
  }

  /** The reply is the acknowledgement of the new state, and comes last. */
  ghost predicate IsAnswered(me: Conn, outs: seq<Out>) {
    outs != [] && Reply(me) == [outs[|outs| - 1]]
  }

  /** The receiver has the chunks that the set of numbers has, and has delivered those before the first it has not. */
  ghost predicate TakesChunk(iss: u32, sent: Chunks, rx: Receiver, k: nat, rx': Receiver) {
    && k < |sent| && |rx'.slots| == |rx.slots|
    && Kept(iss, sent, rx') == Join(|rx.slots|, sent, Kept(iss, sent, rx), k)
    && FirstMissing(Kept(iss, sent, rx'), |rx'.delivered|) && rx'.delivered <= sent
  }

  lemma ChunkArrives(me: Conn, peer: Conn, outgoing: set<Packet>, incoming: set<Packet>, start: u32, k: nat)
    requires Pair(me, peer, outgoing, incoming) && k < |peer.tx.sent| && PayloadReadable(peer.tx.sent, me.rx, k)
    requires start == Wrap(peer.cfg.iss + Off(peer.tx.sent, k)) && 0 < |peer.tx.sent[k]| <= 2048
    ensures var (me', outs) := OnPayload(me, start, peer.tx.sent[k]);
            && TakesChunk(peer.cfg.iss, peer.tx.sent, me.rx, k, me'.rx)
            && IsAnswered(me', outs) && me' == me.(rx := me'.rx)
  {
    hide ReceiverInv, SenderInv, Kept, Wrap, ProcessPayload, OnPayload, AllData, AllAcks, AcksMiss, Scoreboard, Copies, Join,
      Off, ReadsAsOld, ReceiverProgress.FirstMissing;
    var iss, sent := peer.cfg.iss, peer.tx.sent;
    PayloadAnswers(me, start, sent[k]);
    SentChunkInWindow(iss, peer.tx, me.cfg, me.rx, incoming, outgoing, k);
    StepExactly(me.cfg, iss, sent, MAXIMUM_FLIGHT, me.rx, k, start);
    var rx' := ProcessPayload(me.cfg, me.rx, start, sent[k]);
    DeliveredToFirstMissing(me.cfg, iss, sent, MAXIMUM_FLIGHT, rx');
    ReplyIsThere(me.(rx := rx'), iss, sent);
  }

  lemma ReplyIsThere(me: Conn, iss: u32, sent: Chunks)
    requires ReceiverInv(me.cfg, iss, sent, MAXIMUM_FLIGHT, me.rx)
    ensures |Reply(me)| == 1
  {
    hide MakeHeader, Serialized;
    HeaderIsCarried(me, FLAG_ACK, []);
  }

  /**
   A packet with a payload arrives at an open connection: the receiver takes the chunk exactly as the set of numbers
   would, delivers everything before the first missing chunk, and answers with the acknowledgement of its new state.
   */
  lemma PayloadArrives(me: Conn, peer: Conn, outgoing: set<Packet>, incoming: set<Packet>, p: Packet, now: u64, gate: Gate)
    requires Pair(me, peer, outgoing, incoming) && p in incoming && Recent(me, peer, p) && HasPayload(p) && IsOpen(gate)
    requires SenderRuns.ShortChunks(peer.tx)
    ensures var (me', outs) := OnSegment(me, p.wire, now, gate);
            TakesChunk(peer.cfg.iss, peer.tx.sent, me.rx, p.meta.index, me'.rx) && IsAnswered(me', outs)
  {
    hide Pair, TakesChunk, OnPayload, ProcessAck, Reply, Acknowledges, PayloadReadable, Parse, AckReadable;
    var h, n := PacketMeans(me, peer, outgoing, incoming, p);
    var tx, copies := ReceiveAck(me, peer, outgoing, incoming, p, now, gate, h);
    var mid, k := me.(tx := tx, established := gate.established), p.meta.index;
    assert p.wire[n..] == peer.tx.sent[k];
    ChunkArrives(mid, peer, outgoing, incoming, h.sequence, k);
    var (me', replies) := OnPayload(mid, h.sequence, p.wire[n..]);
    assert (copies + replies)[|copies + replies| - 1] == replies[|replies| - 1];
  }

  /** A segment without a payload, or at a connection that is not open, leaves the receiver as it is. */
  lemma NothingElseArrives(me: Conn, segment: seq<u8>, now: u64, gate: Gate)
    requires Congestion.Bounded(me.tx.window)
    requires !IsOpen(gate) || Parse(segment).Rejected? || Parse(segment).consumed >= |segment|
    ensures OnSegment(me, segment, now, gate).0.rx == me.rx
  {
    hide ProcessAck, Parse;
    if Parse(segment).Parsed? {
      SenderRuns.ParsedIsValid(segment);
    }
  }

  // ---- An acknowledgement arrives ----

  /** The packet carries an acknowledgement of the last 2^31 bytes. */
  ghost predicate IsRecentAck(me: Conn, p: Packet) {
    && Parse(p.wire).Parsed? && HasAck(Parse(p.wire).header.flags)
    && p.meta.acked <= |me.tx.sent| && me.tx.bytesSent - Off(me.tx.sent, p.meta.acked) < TWO_31
  }

  lemma CutIsAhead(a: int, d: int, f: nat, ack: u32)
    requires ack == Wrap(a + d) && f < TWO_31 && d <= f && f - d < TWO_31
    ensures (ack - a) % TWO_32 <= f <==> 0 <= d
    ensures 0 <= d ==> (ack - a) % TWO_32 == d
    ensures (a + f - ack) % TWO_32 < TWO_31
  {
    DistanceIs(a, d, ack);
    DistanceIs(a + f, d - f, ack);
    NegativeDistance(a + f, d - f, ack);
  }

  lemma DistanceIs(a: int, d: int, ack: u32)
    requires ack == Wrap(a + d) && -TWO_31 < d < TWO_31
    ensures (ack - a) % TWO_32 == if d >= 0 then d else d + TWO_32
  {
  }

  lemma NegativeDistance(a: int, d: int, ack: u32)
    requires ack == Wrap(a + d) && -TWO_31 < d <= 0
    ensures (a - ack) % TWO_32 == -d
  {
  }

  lemma AcksToCut(iss: u32, tx: Sender, k: nat, ack: u32)
    requires Tiled(iss, tx) && k <= |tx.sent| && ack == Wrap(iss + Off(tx.sent, k)) && tx.bytesSent - Off(tx.sent, k) < TWO_31
    ensures SenderRuns.NewlyAcked(iss, tx, ack) == Max(0, Off(tx.sent, k) - tx.bytesAcked)
    ensures SenderRuns.Believable(iss, tx, ack)
  {
    hide Wrap;
    OffMonotone(tx.sent, k, |tx.sent|);
    CutIsAhead(iss + tx.bytesAcked, Off(tx.sent, k) - tx.bytesAcked, tx.bytesSent - tx.bytesAcked, ack);
    assert iss + tx.bytesAcked + (Off(tx.sent, k) - tx.bytesAcked) == iss + Off(tx.sent, k);
    assert ack - (iss + tx.bytesAcked) == ack - iss - tx.bytesAcked;
    assert iss + tx.bytesAcked + (tx.bytesSent - tx.bytesAcked) == iss + tx.bytesSent;
  }

  lemma SameCut(chunks: Chunks, j: nat, k: nat)
    requires NonEmpty(chunks) && j <= |chunks| && k <= |chunks| && Off(chunks, j) == Off(chunks, k)
    ensures j == k
  {
    if j < k { OffMonotone(chunks, j, k); }
    if k < j { OffMonotone(chunks, k, j); }
  }

  lemma LaterCut(chunks: Chunks, j: nat, k: nat)
    requires j <= |chunks| && k <= |chunks|
    ensures Off(chunks, Max(j, k)) == Max(Off(chunks, j), Off(chunks, k))
  {
    if j <= k { OffMonotone(chunks, j, k); } else { OffMonotone(chunks, k, j); }
  }

  /**
   An acknowledgement arrives: afterwards the bytes acknowledged are those it acknowledges, if that is more than before,
   and the first segment in the queue is the one behind them.
   */
  lemma AckArrives(me: Conn, peer: Conn, outgoing: set<Packet>, incoming: set<Packet>, p: Packet, now: u64, gate: Gate)
    requires Pair(me, peer, outgoing, incoming) && p in incoming && Recent(me, peer, p) && IsRecentAck(me, p)
    ensures var tx := OnSegment(me, p.wire, now, gate).0.tx;
            && tx.bytesAcked == Max(me.tx.bytesAcked, Off(me.tx.sent, p.meta.acked))
            && First(tx) == Max(First(me.tx), p.meta.acked) && tx.sent == me.tx.sent && |tx.queue| == |tx.sent| - First(tx)
  {
    hide Pair, SenderInv, ProcessAck, OnSegment, Parse, Wrap, Tiled, Off, Recent, AckReadable;
    var h, n := PacketMeans(me, peer, outgoing, incoming, p);
    PairIs(me, peer, outgoing, incoming);
    SenderRuns.SenderIs(me.cfg.iss, me.tx);
    SenderRuns.SegmentParts(me, p.wire, now, gate);
    SenderRuns.FlagIsBit(h.flags);
    RecentAck(me, peer, p, h);
    var tx, outs := ReceiveAck(me, peer, outgoing, incoming, p, now, gate, h);
    SenderRuns.AckExactly(me.cfg.iss, me.tx, h, now);
    AcksToCut(me.cfg.iss, me.tx, p.meta.acked, h.cumulativeAck);
    SenderRuns.AckKeepsStream(me.tx, h, now);
    HeadIsCut(me, peer, outgoing, incoming);
    HeadIsCut(me.(tx := tx, established := gate.established), peer, outgoing, incoming);
    LaterCut(me.tx.sent, First(me.tx), p.meta.acked);
    SameCut(me.tx.sent, First(tx), Max(First(me.tx), p.meta.acked));
  }

  lemma RecentAck(me: Conn, peer: Conn, p: Packet, h: TransportHeader)
    requires Recent(me, peer, p) && Parse(p.wire).Parsed? && Parse(p.wire).header == h && HasAck(h.flags)
    ensures h.sackCount <= MAXIMUM_SACK_BLOCKS && AckReadable(me.tx, p.meta.acked, h)
  {
    hide Parse;
    SenderRuns.ParsedIsValid(p.wire);
  }

  lemma HeadIsCut(me: Conn, peer: Conn, outgoing: set<Packet>, incoming: set<Packet>)
    requires Pair(me, peer, outgoing, incoming)
    ensures NonEmpty(me.tx.sent) && |me.tx.queue| <= |me.tx.sent| && First(me.tx) == |me.tx.sent| - |me.tx.queue|
    ensures me.tx.bytesAcked == Off(me.tx.sent, First(me.tx))
  {
  }

  // ---- Its selective blocks arrive ----

  /** One of the runs contains the positions from lo to hi. */
  ghost predicate Contains(runs: seq<Run>, lo: int, hi: int) {
    exists r :: 0 <= r < |runs| && runs[r].lo <= lo && hi <= runs[r].hi
  }

  lemma OrderIs(a: int, b: int)
    requires -TWO_31 < b - a < TWO_31
    ensures (Wrap(b) - Wrap(a)) % TWO_32 <= TWO_31 <==> a <= b
  {
    DiffOfWraps(b, a);
  }

  lemma BlockIsRun(run: Run, s: int, e: int, p: Pending<seq<u8>>)
    requires run.lo < run.hi < run.lo + TWO_32 && p.start == Wrap(s) && p.end == Wrap(e)
    requires -TWO_31 < s - run.lo < TWO_31 && -TWO_31 < run.hi - e < TWO_31
    ensures SenderRuns.BlockCovers(WrapRun(run), p) <==> run.lo <= s && e <= run.hi
  {
    hide Wrap;
    WrapInjective(run.lo, run.hi);
    OrderIs(run.lo, s);
    OrderIs(e, run.hi);
  }

  /** Everything the receiver has lies within what was sent. */
  lemma ReceivedIsSent(cfg: Config, iss: u32, chunks: Chunks, ahead: nat, rx: Receiver, x: int)
    requires ReceiverInv(cfg, iss, chunks, ahead, rx) && Has(rx.ranges, x)
    ensures x < iss + Off(chunks, |chunks|)
  {
    hide Has, Canonical;
    OffMonotone(chunks, |rx.delivered|, |chunks|);
    if x >= Delivered(iss, rx) {
      var i :| 0 <= i < |rx.slots| && SlotCovers(rx.slots[i], x);
      var k: nat :| HoldsChunk(iss, chunks, |rx.delivered|, rx.bytesReceived + ahead, rx.slots[i], k);
      OffMonotone(chunks, k + 1, |chunks|);
    }
  }

  lemma ReportIsNear(me: Conn, peer: Conn, outgoing: set<Packet>, incoming: set<Packet>, p: Packet, r: nat)
    requires Pair(me, peer, outgoing, incoming) && p in incoming && r < |p.meta.runs|
    ensures p.meta.acked <= |me.tx.sent|
    ensures me.cfg.iss + Off(me.tx.sent, p.meta.acked) < p.meta.runs[r].lo < p.meta.runs[r].hi <= me.cfg.iss + me.tx.bytesSent
  {
    hide SenderInv, AllData, AcksMiss, Scoreboard, Copies, ReceiverInv, Has;
    PairIs(me, peer, outgoing, incoming);
    assert AckOk(me.cfg.iss, me.tx.sent, peer.rx, p);
    ReceivedIsSent(peer.cfg, me.cfg.iss, me.tx.sent, MAXIMUM_FLIGHT, peer.rx, p.meta.runs[r].hi - 1);
  }

  /** Which of the segments that stay are marked after the acknowledgement. */
  lemma SegmentIsMarked(me: Conn, peer: Conn, outgoing: set<Packet>, incoming: set<Packet>, p: Packet, h: TransportHeader, k: nat, seg: Pending<seq<u8>>)
    requires Pair(me, peer, outgoing, incoming) && p in incoming && p.meta.acked <= |me.tx.sent|
    requires Acknowledges(me.cfg.iss + Off(me.tx.sent, p.meta.acked), p.meta.runs, h)
    requires me.tx.bytesSent - Off(me.tx.sent, p.meta.acked) < TWO_31 && First(me.tx) <= k && Tile(me.cfg.iss, me.tx.sent, k, seg)
    ensures SenderRuns.MarkedAfter(seg, h) <==>
            seg.sacked || Contains(p.meta.runs, me.cfg.iss + Off(me.tx.sent, k), me.cfg.iss + Off(me.tx.sent, k + 1))
  {
    hide Pair, SenderRuns.BlockCovers, Wrap, WrapRun;
    var iss, sent, runs := me.cfg.iss, me.tx.sent, p.meta.runs;
    forall r | 0 <= r < |runs|
      ensures SenderRuns.BlockCovers(h.sacks[r], seg) <==> runs[r].lo <= iss + Off(sent, k) && iss + Off(sent, k + 1) <= runs[r].hi
    {
      ReportIsNear(me, peer, outgoing, incoming, p, r);
      SegmentIsNear(me, peer, outgoing, incoming, k);
      BlockIsRun(runs[r], iss + Off(sent, k), iss + Off(sent, k + 1), seg);
    }
  }

  lemma SegmentIsNear(me: Conn, peer: Conn, outgoing: set<Packet>, incoming: set<Packet>, k: nat)
    requires Pair(me, peer, outgoing, incoming) && First(me.tx) <= k < |me.tx.sent|
    ensures me.tx.bytesSent - MAXIMUM_FLIGHT <= Off(me.tx.sent, k) <= Off(me.tx.sent, k + 1) <= me.tx.bytesSent
  {
    hide ReceiverInv, AllData, AllAcks, AcksMiss, Scoreboard, Copies, Epochs;
    OffMonotone(me.tx.sent, First(me.tx), k);
    OffMonotone(me.tx.sent, k, k + 1);
    OffMonotone(me.tx.sent, k + 1, |me.tx.sent|);
  }

  /** Segment i of the queue before the acknowledgement is segment j after it, marked exactly when it was or a run contains it. */
  ghost predicate IsMarkedBy(iss: u32, sent: Chunks, k: nat, before: Pending<seq<u8>>, after: Pending<seq<u8>>, runs: seq<Run>)
    requires k < |sent|
  {
    after.buffer == before.buffer && (after.sacked <==> before.sacked || Contains(runs, iss + Off(sent, k), iss + Off(sent, k + 1)))
  }

  /** The scoreboard after a recent acknowledgement: exactly the segments in its reports are newly marked. */
  lemma BlocksArrive(me: Conn, peer: Conn, outgoing: set<Packet>, incoming: set<Packet>, p: Packet, now: u64, gate: Gate, i: nat)
    requires Pair(me, peer, outgoing, incoming) && p in incoming && Recent(me, peer, p) && IsRecentAck(me, p)
    ensures var tx := OnSegment(me, p.wire, now, gate).0.tx;
            && |tx.queue| <= |me.tx.queue| && |tx.sent| == |me.tx.sent| >= |me.tx.queue|
            && (i < |tx.queue| ==>
                  IsMarkedBy(me.cfg.iss, me.tx.sent, |tx.sent| - |tx.queue| + i,
                             me.tx.queue[|me.tx.queue| - |tx.queue| + i], tx.queue[i], p.meta.runs))
  {
    hide Pair, SenderInv, ProcessAck, OnSegment, Parse, Wrap, Tiled, Off, Recent, AckReadable, SenderRuns.MarkedAfter, Contains;
    var h, n := PacketMeans(me, peer, outgoing, incoming, p);
    PairIs(me, peer, outgoing, incoming);
    SenderRuns.SenderIs(me.cfg.iss, me.tx);
    SenderRuns.SegmentParts(me, p.wire, now, gate);
    SenderRuns.FlagIsBit(h.flags);
    RecentAck(me, peer, p, h);
    SenderRuns.AckExactly(me.cfg.iss, me.tx, h, now);
    AcksToCut(me.cfg.iss, me.tx, p.meta.acked, h.cumulativeAck);
    HeadIsCut(me, peer, outgoing, incoming);
    var tx, outs := ProcessAck(me.tx, h, now).0, ProcessAck(me.tx, h, now).1;
    var m := |me.tx.queue| - |tx.queue|;
    if i < |tx.queue| {
      TileAt(me.cfg.iss, me.tx, m + i);
      SegmentIsMarked(me, peer, outgoing, incoming, p, h, First(me.tx) + m + i, me.tx.queue[m + i]);
      MarkedAt(me.tx.queue[m..], h, now, tx.queue, outs, i);
    }
  }

  lemma TileAt(iss: u32, tx: Sender, i: nat)
    requires Tiled(iss, tx) && i < |tx.queue|
    ensures Tile(iss, tx.sent, First(tx) + i, tx.queue[i])
  {
  }

  lemma MarkedAt(queue: seq<Pending<seq<u8>>>, h: TransportHeader, now: u64, queue': seq<Pending<seq<u8>>>, outs: seq<Out>, i: nat)
    requires h.sackCount <= MAXIMUM_SACK_BLOCKS && i < |queue|
    requires SenderRuns.ResendsAtMost(SenderRuns.WithMarks(queue, h), now, queue', outs)
    ensures |queue'| == |queue| && queue'[i].buffer == queue[i].buffer && queue'[i].sacked == SenderRuns.MarkedAfter(queue[i], h)
  {
    hide SenderRuns.MarkedAfter;
  }
}
