/**
 How old an acknowledgement may be.  The safety theorems let a packet arrive when its acknowledgement is of the
 last 2^31 bytes or does nothing; this shows that any other may do harm.
 */
module Freshness {
  import opened Numbers
  import opened Sequence
  import opened Wire
  import opened RetransmissionQueue
  import opened ConnectionModel
  import opened Stream
  import opened SenderInvariant
  import opened ReceiverAgreement
  import opened Protocol
  import Congestion

  /** Nothing is taken for acknowledged, cumulatively or selectively, that the receiver does not have. */
  ghost predicate AcksAreTrue(iss: u32, tx: Sender, rx: Receiver) {
    tx.bytesAcked <= rx.bytesReceived && MarksReceived(iss, tx.sent, First(tx), tx.queue, rx)
  }

  lemma LinkedAcksAreTrue(iss: u32, tx: Sender, cfg: Config, rx: Receiver, data: set<Packet>, acks: set<Packet>)
    requires Linked(iss, tx, cfg, rx, data, acks)
    ensures AcksAreTrue(iss, tx, rx)
  {
    OffMonotone(tx.sent, First(tx), |rx.delivered|);
    MarksAreSound(iss, tx.sent, First(tx), tx.queue, cfg, MAXIMUM_FLIGHT, rx, acks);
  }

  lemma ProgressMoves(iss: u32, tx: Sender, h: TransportHeader, now: u64)
    requires Tiled(iss, tx) && Congestion.Bounded(tx.window) && h.sackCount <= MAXIMUM_SACK_BLOCKS
    requires !Greater(h.cumulativeAck, tx.next) && Greater(h.cumulativeAck, tx.oldest)
    ensures ProcessAck(tx, h, now).0.bytesAcked > tx.bytesAcked
  {
    AckLandsInFlight(iss, tx, h.cumulativeAck);
  }

  /** Without progress the marks are exactly those of the blocks. */
  lemma MarksOfBlocks(tx: Sender, h: TransportHeader, now: u64)
    requires Congestion.Bounded(tx.window) && h.sackCount <= MAXIMUM_SACK_BLOCKS
    requires !Greater(h.cumulativeAck, tx.next) && !Greater(h.cumulativeAck, tx.oldest)
    ensures var tx' := ProcessAck(tx, h, now).0;
            && tx'.sent == tx.sent && |tx'.queue| == |tx.queue|
            && forall i :: 0 <= i < |tx.queue| ==> (tx'.queue[i].sacked <==> MarkedBy(tx.queue[i], h.sacks[..h.sackCount]))
  {
  }

  /** The receiver has exactly what has been acknowledged. */
  ghost predicate NothingAhead(tx: Sender, rx: Receiver) {
    rx.bytesReceived == tx.bytesAcked && forall i :: 0 <= i < |rx.slots| ==> rx.slots[i].Free?
  }

  lemma NothingAheadKept(iss: u32, tx: Sender, cfg: Config, rx: Receiver, data: set<Packet>, acks: set<Packet>, k: nat)
    requires Linked(iss, tx, cfg, rx, data, acks) && NothingAhead(tx, rx) && k >= First(tx)
    ensures !ChunkKept(iss, tx.sent, k, rx)
  {
    if First(tx) < |rx.delivered| {
      OffMonotone(tx.sent, First(tx), |rx.delivered|);
    }
  }

  /**
   For every acknowledgement whatsoever, when the receiver has nothing beyond what is acknowledged: it leads the
   sender to no false belief exactly when it neither passes both tests of the cumulative point nor marks a segment.
   */
  lemma AckHarmlessExactly(
    iss: u32, tx: Sender, cfg: Config, rx: Receiver, data: set<Packet>, acks: set<Packet>, h: TransportHeader, now: u64)
    requires Dir(iss, tx, cfg, rx, data, acks) && NothingAhead(tx, rx) && h.sackCount <= MAXIMUM_SACK_BLOCKS
    ensures AcksAreTrue(iss, ProcessAck(tx, h, now).0, rx) <==> Inert(tx, h)
  {
    hide Linked, Tiled, Epochs, ProcessAck, MarkedBy, ChunkKept, Greater;
    if Inert(tx, h) {
      InertKeepsLinks(iss, tx, cfg, rx, data, acks, h, now);
      LinkedAcksAreTrue(iss, ProcessAck(tx, h, now).0, cfg, rx, data, acks);
    } else if Greater(h.cumulativeAck, tx.oldest) {
      ProgressMoves(iss, tx, h, now);
    } else {
      var i :| 0 <= i < |tx.queue| && MarkedBy(tx.queue[i], h.sacks[..h.sackCount]) && !tx.queue[i].sacked;
      MarksOfBlocks(tx, h, now);
      NothingAheadKept(iss, tx, cfg, rx, data, acks, First(tx) + i);
    }
  }
}
