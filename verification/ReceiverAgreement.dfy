/**
 The receiving half keeps two records of what has arrived: the range set, which
 decides what is acknowledged, and the payload slots, which decide what is
 delivered.  For segments of any fixed segmentation, in any order and repeated,
 the two agree after every step.
 */
module ReceiverAgreement {
  import opened Numbers
  import opened Sequence
  import opened Intervals
  import opened ReceiveRanges
  import opened ConnectionModel
  import opened Stream

  /** The first position not yet delivered. */
  function Delivered(irs: u32, rx: Receiver): int {
    irs + rx.bytesReceived
  }

  /** The slot holds chunk k, which is not before chunk `from` and ends at most at offset `limit`. */
  ghost predicate HoldsChunk(irs: u32, chunks: Chunks, from: nat, limit: nat, slot: Slot, k: nat) {
    && slot.Held? && from <= k < |chunks|
    && slot.at == irs + Off(chunks, k) && slot.bytes == chunks[k]
    && Off(chunks, k + 1) <= limit
  }

  ghost predicate HoldsSome(irs: u32, chunks: Chunks, from: nat, limit: nat, slot: Slot) {
    exists k: nat :: HoldsChunk(irs, chunks, from, limit, slot, k)
  }

  /** Every held slot holds a chunk, no two the same one. */
  ghost predicate SlotsHold(irs: u32, chunks: Chunks, from: nat, limit: nat, slots: seq<Slot>) {
    && (forall i :: 0 <= i < |slots| && slots[i].Held? ==> HoldsSome(irs, chunks, from, limit, slots[i]))
    && (forall i, j :: 0 <= i < j < |slots| && slots[i].Held? && slots[j].Held? ==> slots[i].at != slots[j].at)
  }

  ghost predicate SlotCovers(slot: Slot, x: int) {
    slot.Held? && slot.at <= x < slot.at + |slot.bytes|
  }

  /** Delivered chunks are a prefix, and the slots hold distinct later chunks. */
  ghost predicate HoldsChunks(irs: u32, chunks: Chunks, ahead: nat, rx: Receiver) {
    && NonEmpty(chunks)
    && rx.delivered <= chunks
    && rx.bytesReceived == Off(chunks, |rx.delivered|)
    && rx.delivery == Wrap(Delivered(irs, rx))
    && SlotsHold(irs, chunks, |rx.delivered|, rx.bytesReceived + ahead, rx.slots)
  }

  /** The range set has exactly the delivered bytes and the bytes in the slots. */
  ghost predicate SameBytes(irs: u32, rx: Receiver) {
    forall x :: Has(rx.ranges, x) <==>
      x < Delivered(irs, rx) || exists i :: 0 <= i < |rx.slots| && SlotCovers(rx.slots[i], x)
  }

  ghost predicate Adds(r: Ranges, r': Ranges, lo: int, hi: int) {
    forall x :: Has(r', x) <==> Has(r, x) || lo <= x < hi
  }

  ghost predicate Grows(r: Ranges, r': Ranges) {
    forall x :: Has(r, x) ==> Has(r', x)
  }

  /** The agreement that holds between steps. */
  ghost predicate ReceiverInv(cfg: Config, irs: u32, chunks: Chunks, ahead: nat, rx: Receiver) {
    && HoldsChunks(irs, chunks, ahead, rx)
    && SameBytes(irs, rx)
    && Canonical(rx.ranges) && |rx.ranges.runs| <= SlotCount(cfg)
    && rx.ranges.ack == Delivered(irs, rx)
    && |rx.slots| == SlotCount(cfg)
  }

  /** The agreement goes on, nothing is lost. */
  ghost predicate Agrees(cfg: Config, irs: u32, chunks: Chunks, ahead: nat, rx: Receiver, rx': Receiver) {
    ReceiverInv(cfg, irs, chunks, ahead, rx') && rx.delivered <= rx'.delivered && Grows(rx.ranges, rx'.ranges)
  }

  /** The slot holds chunk k. */
  ghost predicate SlotKeeps(iss: u32, chunks: Chunks, k: nat, slot: Slot) {
    slot.Held? && k < |chunks| && slot.at == iss + Off(chunks, k) && slot.bytes == chunks[k]
  }

  /** Chunk k has been delivered or is held in a slot. */
  ghost predicate ChunkKept(iss: u32, chunks: Chunks, k: nat, rx: Receiver) {
    k < |rx.delivered| || exists i :: 0 <= i < |rx.slots| && SlotKeeps(iss, chunks, k, rx.slots[i])
  }

  lemma InitialReceiverInv(cfg: Config, ahead: nat)
    ensures ReceiverInv(cfg, cfg.irs, [], ahead, InitialReceiver(cfg))
  {
  }

  /** Accepting more from the application does not disturb the receiver. */
  lemma LongerStream(cfg: Config, irs: u32, chunks: Chunks, longer: Chunks, ahead: nat, rx: Receiver)
    requires ReceiverInv(cfg, irs, chunks, ahead, rx) && chunks <= longer && NonEmpty(longer)
    ensures ReceiverInv(cfg, irs, longer, ahead, rx)
  {
    OffOfPrefix(chunks, longer, |rx.delivered|);
    forall i | 0 <= i < |rx.slots| && rx.slots[i].Held?
      ensures HoldsSome(irs, longer, |rx.delivered|, rx.bytesReceived + ahead, rx.slots[i])
    {
      var k: nat :| HoldsChunk(irs, chunks, |rx.delivered|, rx.bytesReceived + ahead, rx.slots[i], k);
      OffOfPrefix(chunks, longer, k);
      OffOfPrefix(chunks, longer, k + 1);
      assert HoldsChunk(irs, longer, |rx.delivered|, rx.bytesReceived + ahead, rx.slots[i], k);
    }
  }

  // ---- Delivery ----

  /** A held chunk starts at the delivery point only if it is the next chunk. */
  lemma NextChunk(irs: u32, chunks: Chunks, ahead: nat, rx: Receiver, i: nat, k: nat)
    requires HoldsChunks(irs, chunks, ahead, rx) && ahead < TWO_31
    requires i < |rx.slots| && HoldsChunk(irs, chunks, |rx.delivered|, rx.bytesReceived + ahead, rx.slots[i], k)
    ensures Delivered(irs, rx) <= rx.slots[i].at < Delivered(irs, rx) + TWO_31
    ensures Wrap(rx.slots[i].at) == rx.delivery <==> k == |rx.delivered|
    ensures rx.slots[i].at == Delivered(irs, rx) <==> k == |rx.delivered|
  {
    OffMonotone(chunks, |rx.delivered|, k);
    OffMonotone(chunks, k, k + 1);
    WrapInjective(rx.slots[i].at, Delivered(irs, rx));
  }

  lemma DeliverOneKeepsChunks(irs: u32, chunks: Chunks, ahead: nat, rx: Receiver, i: nat)
    requires HoldsChunks(irs, chunks, ahead, rx) && ahead < TWO_31
    requires i < |rx.slots| && rx.slots[i].Held? && Wrap(rx.slots[i].at) == rx.delivery
    ensures HoldsChunks(irs, chunks, ahead, DeliverOne(rx, i))
    ensures rx.slots[i].at == Delivered(irs, rx)
    ensures Delivered(irs, DeliverOne(rx, i)) == Delivered(irs, rx) + |rx.slots[i].bytes|
  {
    var rx' := DeliverOne(rx, i);
    var n: nat :| HoldsChunk(irs, chunks, |rx.delivered|, rx.bytesReceived + ahead, rx.slots[i], n);
    NextChunk(irs, chunks, ahead, rx, i, n);
    forall j | 0 <= j < |rx'.slots| && rx'.slots[j].Held?
      ensures HoldsSome(irs, chunks, |rx'.delivered|, rx'.bytesReceived + ahead, rx'.slots[j])
    {
      var k: nat :| HoldsChunk(irs, chunks, |rx.delivered|, rx.bytesReceived + ahead, rx.slots[j], k);
      NextChunk(irs, chunks, ahead, rx, j, k);
      assert HoldsChunk(irs, chunks, |rx'.delivered|, rx'.bytesReceived + ahead, rx'.slots[j], k);
    }
  }

  lemma DeliverOneKeepsBytes(irs: u32, rx: Receiver, i: nat)
    requires SameBytes(irs, rx) && i < |rx.slots| && rx.slots[i].Held? && rx.slots[i].at == Delivered(irs, rx)
    requires forall j :: 0 <= j < |rx.slots| && rx.slots[j].Held? ==> Delivered(irs, rx) <= rx.slots[j].at
    ensures SameBytes(irs, DeliverOne(rx, i))
  {
    var rx' := DeliverOne(rx, i);
    forall x ensures Has(rx'.ranges, x) <==>
      x < Delivered(irs, rx') || exists j :: 0 <= j < |rx'.slots| && SlotCovers(rx'.slots[j], x)
    {
      if j :| 0 <= j < |rx.slots| && SlotCovers(rx.slots[j], x) {
        if j != i { assert SlotCovers(rx'.slots[j], x); }
      }
      if j :| 0 <= j < |rx'.slots| && SlotCovers(rx'.slots[j], x) {
        assert SlotCovers(rx.slots[j], x);
      }
    }
  }

  lemma {:induction false} DeliverKeeps(irs: u32, chunks: Chunks, ahead: nat, rx: Receiver)
    requires HoldsChunks(irs, chunks, ahead, rx) && SameBytes(irs, rx) && ahead < TWO_31
    ensures var rx' := Deliver(rx);
            && HoldsChunks(irs, chunks, ahead, rx') && SameBytes(irs, rx') && rx'.ranges == rx.ranges
            && SlotAt(rx'.slots, rx'.delivery) == |rx'.slots| == |rx.slots|
            && rx.delivered <= rx'.delivered
    decreases HeldCount(rx.slots)
  {
    var i := SlotAt(rx.slots, rx.delivery);
    if i < |rx.slots| {
      forall j | 0 <= j < |rx.slots| && rx.slots[j].Held? ensures Delivered(irs, rx) <= rx.slots[j].at {
        var k: nat :| HoldsChunk(irs, chunks, |rx.delivered|, rx.bytesReceived + ahead, rx.slots[j], k);
        NextChunk(irs, chunks, ahead, rx, j, k);
      }
      DeliverOneKeepsChunks(irs, chunks, ahead, rx, i);
      DeliverOneKeepsBytes(irs, rx, i);
      DeliverKeeps(irs, chunks, ahead, DeliverOne(rx, i));
    }
  }

  /** When delivery stops, it stops at the first byte the range set is missing. */
  lemma DeliveryReachesAck(irs: u32, chunks: Chunks, ahead: nat, rx: Receiver)
    requires HoldsChunks(irs, chunks, ahead, rx) && SameBytes(irs, rx) && ahead < TWO_31
    requires Canonical(rx.ranges) && SlotAt(rx.slots, rx.delivery) == |rx.slots|
    ensures rx.ranges.ack == Delivered(irs, rx)
  {
    var d := Delivered(irs, rx);
    AckIsFirstMissing(rx.ranges);
    assert !Has(rx.ranges, d) by {
      if i :| 0 <= i < |rx.slots| && SlotCovers(rx.slots[i], d) {
        var k: nat :| HoldsChunk(irs, chunks, |rx.delivered|, rx.bytesReceived + ahead, rx.slots[i], k);
        NextChunk(irs, chunks, ahead, rx, i, k);
      }
    }
    assert d - 1 < d && Has(rx.ranges, d - 1);
  }

  // ---- Arrival ----

  /** The end of the chunk compares as not above the delivery point. */
  predicate ReadsAsOld(chunks: Chunks, rx: Receiver, k: nat)
    requires k < |chunks|
  {
    (rx.bytesReceived - Off(chunks, k + 1)) % TWO_32 <= TWO_31
  }

  /** A chunk that is at most `ahead` bytes above the delivery point, and that the receiver can tell to be old if it is. */
  ghost predicate InWindow(chunks: Chunks, ahead: nat, rx: Receiver, k: nat) {
    && k < |chunks|
    && Off(chunks, k + 1) <= rx.bytesReceived + ahead
    && (k < |rx.delivered| ==> ReadsAsOld(chunks, rx, k))
  }

  lemma OldTest(p: int, d: int)
    requires p <= d
    ensures LessEqual(Wrap(p), Wrap(d)) <==> (d - p) % TWO_32 <= TWO_31
  {
    DiffOfWraps(p, d);
  }

  lemma OldEndTest(irs: u32, chunks: Chunks, ahead: nat, rx: Receiver, k: nat, end: u32)
    requires HoldsChunks(irs, chunks, ahead, rx) && k < |rx.delivered| && end == Wrap(irs + Off(chunks, k + 1))
    ensures LessEqual(end, rx.delivery) <==> ReadsAsOld(chunks, rx, k)
  {
    OffMonotone(chunks, k + 1, |rx.delivered|);
    OldTest(irs + Off(chunks, k + 1), Delivered(irs, rx));
  }

  /** The range set reads the sequence number of a chunk in the window as the chunk's own position. */
  lemma ReadsPosition(irs: u32, chunks: Chunks, ahead: nat, rx: Receiver, k: nat)
    requires ahead < TWO_31 && InWindow(chunks, ahead, rx, k) && NonEmpty(chunks)
    requires rx.ranges.ack == Delivered(irs, rx) && rx.bytesReceived <= Off(chunks, k)
    ensures var start, end := Wrap(irs + Off(chunks, k)), Wrap(Wrap(irs + Off(chunks, k)) + |chunks[k]|);
            && Low(rx.ranges, start) == irs + Off(chunks, k)
            && High(rx.ranges, start, end) == irs + Off(chunks, k + 1)
  {
    hide Wrap, Near, Diff;
    RangeReads(rx.ranges.ack, irs + Off(chunks, k), |chunks[k]|);
  }

  lemma RangeReads(ack: int, p: int, n: nat)
    requires -TWO_31 <= p - ack < TWO_31 && n < TWO_32
    ensures Near(ack, Wrap(p)) == p && Diff(Wrap(Wrap(p) + n), Wrap(p)) == n
  {
    NearOfWrap(ack, p);
    WrapAdd(p, n);
    DiffOfWraps(p + n, p);
  }

  /** A chunk that is neither old nor overlaps a held one lies at or above the delivery point and is not held yet. */
  lemma UnseenIsNew(cfg: Config, irs: u32, chunks: Chunks, ahead: nat, rx: Receiver, k: nat, end: u32)
    requires ReceiverInv(cfg, irs, chunks, ahead, rx) && ahead < TWO_31 && InWindow(chunks, ahead, rx, k)
    requires end == Wrap(irs + Off(chunks, k + 1))
    requires !LessEqual(end, rx.delivery) && !Overlaps(rx.slots, Wrap(irs + Off(chunks, k)), end)
    ensures |rx.delivered| <= k
    ensures forall i :: 0 <= i < |rx.slots| && rx.slots[i].Held? ==> rx.slots[i].at != irs + Off(chunks, k)
  {
    if k < |rx.delivered| {
      OldEndTest(irs, chunks, ahead, rx, k, end);
    }
    forall i | 0 <= i < |rx.slots| && rx.slots[i].Held? && rx.slots[i].at == irs + Off(chunks, k) ensures false {
      HeldChunkOverlaps(irs, chunks, ahead, rx, k, i);
    }
  }

  /** A held chunk overlaps itself. */
  lemma HeldChunkOverlaps(irs: u32, chunks: Chunks, ahead: nat, rx: Receiver, k: nat, i: nat)
    requires HoldsChunks(irs, chunks, ahead, rx) && ahead < TWO_31 && InWindow(chunks, ahead, rx, k)
    requires i < |rx.slots| && rx.slots[i].Held? && rx.slots[i].at == irs + Off(chunks, k)
    ensures SlotOverlaps(rx.slots[i], Wrap(irs + Off(chunks, k)), Wrap(irs + Off(chunks, k + 1)))
  {
    var j: nat :| HoldsChunk(irs, chunks, |rx.delivered|, rx.bytesReceived + ahead, rx.slots[i], j);
    SameOffset(chunks, j, k);
    OffMonotone(chunks, |rx.delivered|, k);
    OffMonotone(chunks, k, k + 1);
    LessIsOrder(irs + Off(chunks, k), irs + Off(chunks, k + 1));
  }

  lemma SameOffset(chunks: Chunks, j: nat, k: nat)
    requires NonEmpty(chunks) && j < |chunks| && k < |chunks| && Off(chunks, j) == Off(chunks, k)
    ensures j == k
  {
    if j < k { OffMonotone(chunks, j, k); }
    if k < j { OffMonotone(chunks, k, j); }
  }

  /** Storing a new chunk keeps the slots distinct chunks. */
  lemma StoredSlotsHold(irs: u32, chunks: Chunks, from: nat, limit: nat, slots: seq<Slot>, k: nat, f: nat)
    requires SlotsHold(irs, chunks, from, limit, slots) && from <= k < |chunks| && Off(chunks, k + 1) <= limit && f < |slots|
    requires forall i :: 0 <= i < |slots| && slots[i].Held? ==> slots[i].at != irs + Off(chunks, k)
    ensures SlotsHold(irs, chunks, from, limit, slots[f := Held(irs + Off(chunks, k), chunks[k])])
  {
    var slots' := slots[f := Held(irs + Off(chunks, k), chunks[k])];
    forall i | 0 <= i < |slots'| && slots'[i].Held? ensures HoldsSome(irs, chunks, from, limit, slots'[i]) {
      if i == f {
        assert HoldsChunk(irs, chunks, from, limit, slots'[i], k);
      } else {
        assert HoldsSome(irs, chunks, from, limit, slots[i]);
      }
    }
  }

  lemma SlotsOnly(irs: u32, chunks: Chunks, ahead: nat, rx: Receiver, ranges: Ranges, slots: seq<Slot>)
    requires HoldsChunks(irs, chunks, ahead, rx) && SlotsHold(irs, chunks, |rx.delivered|, rx.bytesReceived + ahead, slots)
    ensures HoldsChunks(irs, chunks, ahead, rx.(ranges := ranges, slots := slots))
  {
  }

  /** Adding the same bytes to the range set and to a free slot keeps the two records the same. */
  lemma StoredSameBytes(irs: u32, rx: Receiver, rx': Receiver, f: nat, slot: Slot)
    requires SameBytes(irs, rx) && f < |rx.slots| && rx.slots[f].Free? && slot.Held?
    requires rx' == rx.(ranges := rx'.ranges, slots := rx.slots[f := slot])
    requires Adds(rx.ranges, rx'.ranges, slot.at, slot.at + |slot.bytes|)
    ensures SameBytes(irs, rx')
  {
    forall x ensures Has(rx'.ranges, x) <==>
      x < Delivered(irs, rx') || exists j :: 0 <= j < |rx'.slots| && SlotCovers(rx'.slots[j], x)
    {
      if SlotCovers(slot, x) { assert SlotCovers(rx'.slots[f], x); }
      if j :| 0 <= j < |rx.slots| && SlotCovers(rx.slots[j], x) {
        assert SlotCovers(rx'.slots[j], x);
      }
      if j :| 0 <= j < |rx'.slots| && SlotCovers(rx'.slots[j], x) {
        if j != f { assert SlotCovers(rx.slots[j], x); }
      }
    }
  }

  /** Storing a new chunk, with the bytes it adds to the range set, and delivering. */
  lemma StoreAgrees(cfg: Config, irs: u32, chunks: Chunks, ahead: nat, rx: Receiver, k: nat, at: int, ranges: Ranges, f: nat)
    requires ReceiverInv(cfg, irs, chunks, ahead, rx) && ahead < TWO_31 && InWindow(chunks, ahead, rx, k)
    requires |rx.delivered| <= k && f < |rx.slots| && rx.slots[f].Free?
    requires forall i :: 0 <= i < |rx.slots| && rx.slots[i].Held? ==> rx.slots[i].at != irs + Off(chunks, k)
    requires Canonical(ranges) && |ranges.runs| <= SlotCount(cfg)
    requires Adds(rx.ranges, ranges, irs + Off(chunks, k), irs + Off(chunks, k + 1))
    requires at == irs + Off(chunks, k)
    ensures var rx' := Deliver(rx.(ranges := ranges, slots := rx.slots[f := Held(at, chunks[k])]));
            Agrees(cfg, irs, chunks, ahead, rx, rx')
  {
    var slot := Held(at, chunks[k]);
    var rx' := rx.(ranges := ranges, slots := rx.slots[f := slot]);
    StoredSlotsHold(irs, chunks, |rx.delivered|, rx.bytesReceived + ahead, rx.slots, k, f);
    SlotsOnly(irs, chunks, ahead, rx, ranges, rx'.slots);
    StoredSameBytes(irs, rx, rx', f, slot);
    DeliverKeeps(irs, chunks, ahead, rx');
    DeliveryReachesAck(irs, chunks, ahead, Deliver(rx'));
  }

  /** A payload from `start` to `end` passes the tests. */
  predicate FitsTo(cfg: Config, rx: Receiver, start: u32, end: u32) {
    && !LessEqual(end, rx.delivery) && !Overlaps(rx.slots, start, end) && FreeSlot(rx.slots) < |rx.slots|
    && Inserted(rx.ranges, SlotCount(cfg), start, end).0 == Status.Accepted
  }

  /** What is done with a payload that passes. */
  function KeptTo(cfg: Config, rx: Receiver, start: u32, end: u32, payload: seq<u8>): Receiver
    requires FreeSlot(rx.slots) < |rx.slots|
  {
    Deliver(rx.(ranges := Inserted(rx.ranges, SlotCount(cfg), start, end).1,
                slots := rx.slots[FreeSlot(rx.slots) := Held(Low(rx.ranges, start), payload)]))
  }

  lemma TakenIsKept(cfg: Config, rx: Receiver, start: u32, payload: seq<u8>)
    requires PayloadResult(cfg, rx, start, payload) == Taken
    ensures FitsTo(cfg, rx, start, Wrap(start + |payload|))
    ensures ProcessPayload(cfg, rx, start, payload) == KeptTo(cfg, rx, start, Wrap(start + |payload|), payload)
  {
  }

  lemma ChunkInsertAdds(cfg: Config, irs: u32, chunks: Chunks, ahead: nat, rx: Receiver, k: nat, start: u32, end: u32)
    requires ahead < TWO_31 && InWindow(chunks, ahead, rx, k) && NonEmpty(chunks)
    requires Canonical(rx.ranges) && |rx.ranges.runs| <= SlotCount(cfg)
    requires rx.ranges.ack == Delivered(irs, rx) && rx.bytesReceived <= Off(chunks, k)
    requires start == Wrap(irs + Off(chunks, k)) && end == Wrap(start + |chunks[k]|)
    requires Inserted(rx.ranges, SlotCount(cfg), start, end).0 == Status.Accepted
    ensures Low(rx.ranges, start) == irs + Off(chunks, k)
    ensures var ranges := Inserted(rx.ranges, SlotCount(cfg), start, end).1;
            && Canonical(ranges) && |ranges.runs| <= SlotCount(cfg)
            && Adds(rx.ranges, ranges, irs + Off(chunks, k), irs + Off(chunks, k + 1))
  {
    ReadsPosition(irs, chunks, ahead, rx, k);
    InsertIsUnion(rx.ranges, SlotCount(cfg), start, end);
  }

  /** A chunk that passes the tests is new. */
  lemma PassesIsNew(cfg: Config, irs: u32, chunks: Chunks, ahead: nat, rx: Receiver, k: nat, start: u32, end: u32)
    requires ReceiverInv(cfg, irs, chunks, ahead, rx) && ahead < TWO_31 && InWindow(chunks, ahead, rx, k)
    requires start == Wrap(irs + Off(chunks, k)) && end == Wrap(irs + Off(chunks, k + 1))
    requires !LessEqual(end, rx.delivery) && !Overlaps(rx.slots, start, end)
    ensures |rx.delivered| <= k && rx.bytesReceived <= Off(chunks, k)
    ensures forall i :: 0 <= i < |rx.slots| && rx.slots[i].Held? ==> rx.slots[i].at != irs + Off(chunks, k)
  {
    UnseenIsNew(cfg, irs, chunks, ahead, rx, k, end);
    OffMonotone(chunks, |rx.delivered|, k);
  }

  lemma ChunkEnd(irs: u32, chunks: Chunks, k: nat, start: u32, end: u32)
    requires k < |chunks| && start == Wrap(irs + Off(chunks, k)) && end == Wrap(start + |chunks[k]|)
    ensures end == Wrap(irs + Off(chunks, k + 1))
  {
    WrapAdd(irs + Off(chunks, k), |chunks[k]|);
  }

  /** A chunk that is taken is new, adds exactly its own bytes to the range set, and is stored. */
  lemma TakenChunk(cfg: Config, irs: u32, chunks: Chunks, ahead: nat, rx: Receiver, k: nat, start: u32, end: u32) returns (ranges: Ranges)
    requires ReceiverInv(cfg, irs, chunks, ahead, rx) && ahead < TWO_31 && InWindow(chunks, ahead, rx, k)
    requires start == Wrap(irs + Off(chunks, k)) && end == Wrap(start + |chunks[k]|)
    requires !LessEqual(end, rx.delivery) && !Overlaps(rx.slots, start, end)
    requires Inserted(rx.ranges, SlotCount(cfg), start, end).0 == Status.Accepted
    ensures |rx.delivered| <= k && Low(rx.ranges, start) == irs + Off(chunks, k)
    ensures forall i :: 0 <= i < |rx.slots| && rx.slots[i].Held? ==> rx.slots[i].at != irs + Off(chunks, k)
    ensures ranges == Inserted(rx.ranges, SlotCount(cfg), start, end).1
    ensures Canonical(ranges) && |ranges.runs| <= SlotCount(cfg)
    ensures Adds(rx.ranges, ranges, irs + Off(chunks, k), irs + Off(chunks, k + 1))
  {
    ChunkEnd(irs, chunks, k, start, end);
    PassesIsNew(cfg, irs, chunks, ahead, rx, k, start, end);
    ChunkInsertAdds(cfg, irs, chunks, ahead, rx, k, start, end);
    ranges := Inserted(rx.ranges, SlotCount(cfg), start, end).1;
  }

  lemma KeptToAgrees(cfg: Config, irs: u32, chunks: Chunks, ahead: nat, rx: Receiver, k: nat, start: u32, end: u32)
    requires ReceiverInv(cfg, irs, chunks, ahead, rx) && ahead < TWO_31 && InWindow(chunks, ahead, rx, k)
    requires start == Wrap(irs + Off(chunks, k)) && end == Wrap(start + |chunks[k]|) && FitsTo(cfg, rx, start, end)
    ensures Agrees(cfg, irs, chunks, ahead, rx, KeptTo(cfg, rx, start, end, chunks[k]))
  {
    var ranges := TakenChunk(cfg, irs, chunks, ahead, rx, k, start, end);
    StoreAgrees(cfg, irs, chunks, ahead, rx, k, Low(rx.ranges, start), ranges, FreeSlot(rx.slots));
  }

  /**
   Whatever chunk of the stream arrives, new or old, in or out of order, and whether
   or not there is room for it: the acknowledged position is the delivery point, the
   slots hold distinct later chunks, they make up exactly the out-of-order ranges, and
   what has been delivered is a growing prefix of the stream.
   */
  lemma ReceiverAgrees(cfg: Config, irs: u32, chunks: Chunks, ahead: nat, rx: Receiver, k: nat, start: u32)
    requires ReceiverInv(cfg, irs, chunks, ahead, rx) && ahead < TWO_31 && InWindow(chunks, ahead, rx, k)
    requires start == Wrap(irs + Off(chunks, k))
    ensures Agrees(cfg, irs, chunks, ahead, rx, ProcessPayload(cfg, rx, start, chunks[k]))
  {
    hide PayloadResult, ReceiverInv, FitsTo, KeptTo, Wrap;
    if PayloadResult(cfg, rx, start, chunks[k]) == Taken {
      TakenIsKept(cfg, rx, start, chunks[k]);
      KeptToAgrees(cfg, irs, chunks, ahead, rx, k, start, Wrap(start + |chunks[k]|));
    }
  }

  /** Held segments never overlap. */
  lemma SlotsAreDisjoint(cfg: Config, irs: u32, chunks: Chunks, ahead: nat, rx: Receiver, i: nat, j: nat)
    requires ReceiverInv(cfg, irs, chunks, ahead, rx) && i < j < |rx.slots| && rx.slots[i].Held? && rx.slots[j].Held?
    ensures rx.slots[i].at + |rx.slots[i].bytes| <= rx.slots[j].at || rx.slots[j].at + |rx.slots[j].bytes| <= rx.slots[i].at
  {
    var m: nat :| HoldsChunk(irs, chunks, |rx.delivered|, rx.bytesReceived + ahead, rx.slots[i], m);
    var n: nat :| HoldsChunk(irs, chunks, |rx.delivered|, rx.bytesReceived + ahead, rx.slots[j], n);
    if m < n { OffMonotone(chunks, m + 1, n); } else if n < m { OffMonotone(chunks, n + 1, m); }
  }

  // ---- Which old chunks do harm ----

  /** No slot is taken and nothing is in the way of another segment. */
  predicate HasRoom(cfg: Config, rx: Receiver) {
    0 < |rx.slots| && FreeReceiveBuffers(cfg, rx) > 0 && forall i :: 0 <= i < |rx.slots| ==> rx.slots[i].Free?
  }

  lemma NoRuns(cfg: Config, irs: u32, chunks: Chunks, ahead: nat, rx: Receiver)
    requires ReceiverInv(cfg, irs, chunks, ahead, rx) && HasRoom(cfg, rx)
    ensures rx.ranges.runs == []
  {
    if rx.ranges.runs != [] {
      FirstIsIn(rx.ranges.runs);
      assert Has(rx.ranges, rx.ranges.runs[0].lo);
    }
  }

  lemma LengthOfRange(start: u32, bytes: nat)
    requires bytes < TWO_32
    ensures Diff(Wrap(start + bytes), start) == bytes
  {
  }

  /** With no runs stored, a range is accepted as soon as its end does not compare as old. */
  lemma NotOldIsAccepted(r: Ranges, capacity: nat, bytes: nat, start: u32, end: u32)
    requires end == Wrap(start + bytes) && 0 < bytes < TWO_31 && r.runs == [] && capacity > 0
    requires !LessEqual(end, Wrap(r.ack))
    ensures Inserted(r, capacity, start, end).0 == Status.Accepted
  {
    LengthOfRange(start, bytes);
    RangeTests(r, start, end);
  }

  /** Whether a payload that ends at `end` is refused or taken. */
  lemma EndDecides(cfg: Config, rx: Receiver, start: u32, end: u32, payload: seq<u8>)
    requires end == Wrap(start + |payload|) && payload != [] && rx.delivery == Wrap(rx.ranges.ack)
    ensures LessEqual(end, rx.delivery) ==>
              PayloadResult(cfg, rx, start, payload) == Refused && ProcessPayload(cfg, rx, start, payload) == rx
    ensures !LessEqual(end, rx.delivery) && rx.ranges.runs == [] && HasRoom(cfg, rx) && |payload| <= PacketPool.PACKET_BUFFER_BYTES ==>
              PayloadResult(cfg, rx, start, payload) == Taken
  {
    hide Wrap, LessEqual, Inserted;
    if !LessEqual(end, rx.delivery) && rx.ranges.runs == [] && HasRoom(cfg, rx) && |payload| <= PacketPool.PACKET_BUFFER_BYTES {
      NotOldIsAccepted(rx.ranges, SlotCount(cfg), |payload|, start, end);
    }
  }

  lemma DeliveredChunk(cfg: Config, irs: u32, chunks: Chunks, ahead: nat, rx: Receiver, k: nat)
    requires ReceiverInv(cfg, irs, chunks, ahead, rx) && k < |rx.delivered|
    ensures k < |chunks| && chunks[k] != [] && HoldsChunks(irs, chunks, ahead, rx) && rx.delivery == Wrap(rx.ranges.ack)
  {
  }

  /**
   A chunk that was delivered before changes nothing if its end is at most 2^31 behind the delivery point
   modulo 2^32, and is taken again otherwise, if there is room for it.
   */
  lemma OldChunkExactly(cfg: Config, irs: u32, chunks: Chunks, ahead: nat, rx: Receiver, k: nat, start: u32)
    requires ReceiverInv(cfg, irs, chunks, ahead, rx) && k < |rx.delivered| && start == Wrap(irs + Off(chunks, k))
    ensures ReadsAsOld(chunks, rx, k) ==>
              PayloadResult(cfg, rx, start, chunks[k]) == Refused && ProcessPayload(cfg, rx, start, chunks[k]) == rx
    ensures !ReadsAsOld(chunks, rx, k) && HasRoom(cfg, rx) && |chunks[k]| <= PacketPool.PACKET_BUFFER_BYTES ==>
              PayloadResult(cfg, rx, start, chunks[k]) == Taken
  {
    hide PayloadResult, ProcessPayload, Wrap, LessEqual, ReadsAsOld, ReceiverInv, HoldsChunks, HasRoom;
    DeliveredChunk(cfg, irs, chunks, ahead, rx, k);
    var end := Wrap(start + |chunks[k]|);
    ChunkEnd(irs, chunks, k, start, end);
    OldEndTest(irs, chunks, ahead, rx, k, end);
    EndDecides(cfg, rx, start, end, chunks[k]);
    if HasRoom(cfg, rx) {
      NoRuns(cfg, irs, chunks, ahead, rx);
    }
  }

  /**
   Once everything sent has been delivered and there is room, that is exactly when the copy does no harm: taken
   again, it stays in a slot or is delivered, and there is no such chunk in the stream.
   */
  lemma OldChunkHarmlessExactly(cfg: Config, irs: u32, chunks: Chunks, ahead: nat, rx: Receiver, k: nat, start: u32)
    requires ReceiverInv(cfg, irs, chunks, ahead, rx) && k < |rx.delivered| && start == Wrap(irs + Off(chunks, k))
    requires rx.delivered == chunks && HasRoom(cfg, rx) && |chunks[k]| <= PacketPool.PACKET_BUFFER_BYTES
    ensures ReceiverInv(cfg, irs, chunks, ahead, ProcessPayload(cfg, rx, start, chunks[k])) <==> ReadsAsOld(chunks, rx, k)
  {
    hide PayloadResult, ProcessPayload, Wrap, ReadsAsOld, KeptTo, FitsTo, ReceiverInv;
    OldChunkExactly(cfg, irs, chunks, ahead, rx, k, start);
    if !ReadsAsOld(chunks, rx, k) {
      TakenIsKept(cfg, rx, start, chunks[k]);
      KeptIsForeign(cfg, irs, chunks, ahead, rx, start, Wrap(start + |chunks[k]|), chunks[k]);
    }
  }

  /** What is kept when the whole stream has been delivered is not of the stream. */
  lemma KeptIsForeign(cfg: Config, irs: u32, chunks: Chunks, ahead: nat, rx: Receiver, start: u32, end: u32, payload: seq<u8>)
    requires rx.delivered == chunks && FreeSlot(rx.slots) < |rx.slots|
    ensures !ReceiverInv(cfg, irs, chunks, ahead, KeptTo(cfg, rx, start, end, payload))
  {
    var f := FreeSlot(rx.slots);
    var held := rx.(ranges := Inserted(rx.ranges, SlotCount(cfg), start, end).1,
                    slots := rx.slots[f := Held(Low(rx.ranges, start), payload)]);
    assert held.slots[f].Held?;
    HeldIsForeign(cfg, irs, chunks, ahead, held, f);
  }

  lemma HeldIsForeign(cfg: Config, irs: u32, chunks: Chunks, ahead: nat, rx: Receiver, f: nat)
    requires rx.delivered == chunks && f < |rx.slots| && rx.slots[f].Held?
    ensures !ReceiverInv(cfg, irs, chunks, ahead, Deliver(rx))
  {
    var i := SlotAt(rx.slots, rx.delivery);
    if i < |rx.slots| {
      DeliverGrows(DeliverOne(rx, i));
    }
  }

  lemma {:induction false} DeliverGrows(rx: Receiver)
    ensures rx.delivered <= Deliver(rx).delivered
    decreases HeldCount(rx.slots)
  {
    var i := SlotAt(rx.slots, rx.delivery);
    if i < |rx.slots| {
      DeliverGrows(DeliverOne(rx, i));
    }
  }

  // ---- Every run ----

  /** Arrivals of chunks, each in the window when it arrives. */
  ghost predicate Receives(cfg: Config, chunks: Chunks, ahead: nat, rx: Receiver, arrivals: seq<nat>, rx': Receiver)
    decreases |arrivals|
  {
    if arrivals == [] then rx == rx'
    else
      && InWindow(chunks, ahead, rx, arrivals[0])
      && Receives(cfg, chunks, ahead,
                  ProcessPayload(cfg, rx, Wrap(cfg.irs + Off(chunks, arrivals[0])), chunks[arrivals[0]]),
                  arrivals[1..], rx')
  }

  /** Over every sequence of arrivals the two records agree and only the stream, in order, is delivered. */
  lemma {:induction false} ReceiverSafety(cfg: Config, chunks: Chunks, ahead: nat, rx: Receiver, arrivals: seq<nat>, rx': Receiver)
    requires ReceiverInv(cfg, cfg.irs, chunks, ahead, rx) && ahead < TWO_31
    requires Receives(cfg, chunks, ahead, rx, arrivals, rx')
    ensures ReceiverInv(cfg, cfg.irs, chunks, ahead, rx')
    ensures rx.delivered <= rx'.delivered && Concat(rx'.delivered) <= Concat(chunks)
    decreases |arrivals|
  {
    if arrivals != [] {
      var start := Wrap(cfg.irs + Off(chunks, arrivals[0]));
      ReceiverAgrees(cfg, cfg.irs, chunks, ahead, rx, arrivals[0], start);
      var next := ProcessPayload(cfg, rx, start, chunks[arrivals[0]]);
      ReceiverSafety(cfg, chunks, ahead, next, arrivals[1..], rx');
    } else {
      ConcatOfPrefix(rx.delivered, chunks);
    }
  }
}
