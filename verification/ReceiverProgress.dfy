/**
 What the receiving half takes, exactly.  The chunks it has, delivered or held, are a set of numbers; a new chunk joins
 the set whenever a slot is free, and the chunks up to the first number missing from the set are delivered.
 */
module ReceiverProgress {
  import opened Numbers
  import opened Sequence
  import opened Intervals
  import opened ReceiveRanges
  import opened ConnectionModel
  import opened Stream
  import opened ReceiverAgreement

  /** The chunks the receiver has, delivered or held. */
  ghost function Kept(irs: u32, chunks: Chunks, rx: Receiver): set<nat> {
    set k: nat | k < |chunks| && ChunkKept(irs, chunks, k, rx)
  }

  /** The chunks in the slots. */
  ghost function HeldChunks(irs: u32, chunks: Chunks, slots: seq<Slot>): set<nat> {
    set k: nat | k < |chunks| && HeldIn(irs, chunks, k, slots)
  }

  ghost predicate HeldIn(irs: u32, chunks: Chunks, k: nat, slots: seq<Slot>) {
    exists i :: 0 <= i < |slots| && SlotKeeps(irs, chunks, k, slots[i])
  }

  // ---- Counting ----

  lemma HeldInInit(irs: u32, chunks: Chunks, k: nat, slots: seq<Slot>)
    requires slots != []
    ensures var n := |slots| - 1;
            HeldIn(irs, chunks, k, slots) <==> HeldIn(irs, chunks, k, slots[..n]) || SlotKeeps(irs, chunks, k, slots[n])
  {
    var n := |slots| - 1;
    if HeldIn(irs, chunks, k, slots[..n]) {
      var i :| 0 <= i < n && SlotKeeps(irs, chunks, k, slots[..n][i]);
      assert SlotKeeps(irs, chunks, k, slots[i]);
    }
    if HeldIn(irs, chunks, k, slots) && !SlotKeeps(irs, chunks, k, slots[n]) {
      var i :| 0 <= i < |slots| && SlotKeeps(irs, chunks, k, slots[i]);
      assert SlotKeeps(irs, chunks, k, slots[..n][i]);
    }
  }

  /** There are as many chunks in the slots as slots in use. */
  lemma {:induction false} HeldSize(irs: u32, chunks: Chunks, from: nat, limit: nat, slots: seq<Slot>)
    requires NonEmpty(chunks) && SlotsHold(irs, chunks, from, limit, slots)
    ensures |HeldChunks(irs, chunks, slots)| == HeldCount(slots)
    decreases |slots|
  {
    if slots == [] {
      assert HeldChunks(irs, chunks, slots) == {};
    } else {
      var n := |slots| - 1;
      var init := slots[..n];
      assert SlotsHold(irs, chunks, from, limit, init);
      HeldSize(irs, chunks, from, limit, init);
      if slots[n].Free? {
        forall k: nat ensures HeldIn(irs, chunks, k, slots) <==> HeldIn(irs, chunks, k, init) {
          HeldInInit(irs, chunks, k, slots);
        }
        assert HeldChunks(irs, chunks, slots) == HeldChunks(irs, chunks, init);
      } else {
        var k: nat :| HoldsChunk(irs, chunks, from, limit, slots[n], k);
        LastHeld(irs, chunks, from, limit, slots, k);
      }
    }
  }

  lemma LastHeld(irs: u32, chunks: Chunks, from: nat, limit: nat, slots: seq<Slot>, k: nat)
    requires NonEmpty(chunks) && SlotsHold(irs, chunks, from, limit, slots) && slots != []
    requires HoldsChunk(irs, chunks, from, limit, slots[|slots| - 1], k)
    ensures var init := slots[..|slots| - 1];
            HeldChunks(irs, chunks, slots) == HeldChunks(irs, chunks, init) + {k} && k !in HeldChunks(irs, chunks, init)
  {
    var n := |slots| - 1;
    var init := slots[..n];
    forall j: nat ensures HeldIn(irs, chunks, j, slots) <==> HeldIn(irs, chunks, j, init) || j == k {
      HeldInInit(irs, chunks, j, slots);
      if SlotKeeps(irs, chunks, j, slots[n]) {
        SameOffset(chunks, j, k);
      }
    }
  }

  lemma {:induction false} FreeIsCounted(slots: seq<Slot>)
    ensures HeldCount(slots) < |slots| <==> FreeSlot(slots) < |slots|
    decreases |slots|
  {
    if slots != [] {
      var n := |slots| - 1;
      FreeIsCounted(slots[..n]);
      var f, g := FreeSlot(slots), FreeSlot(slots[..n]);
      if f < n {
        assert slots[..n][f].Free?;
      }
      if g < n {
        assert slots[g].Free?;
      }
    }
  }

  // ---- The range set has room whenever a slot is free ----

  /** Every run of the range set starts in a slot, and every byte of a slot is in the range set. */
  ghost predicate RunsFromSlots(r: Ranges, slots: seq<Slot>) {
    && (forall i :: 0 <= i < |r.runs| ==> CoveredBySlot(slots, r.runs[i].lo))
    && (forall j, x :: 0 <= j < |slots| && SlotCovers(slots[j], x) ==> Has(r, x))
  }

  ghost predicate CoveredBySlot(slots: seq<Slot>, x: int) {
    exists j :: 0 <= j < |slots| && SlotCovers(slots[j], x)
  }

  ghost predicate StartsIn(r: Ranges, n: nat, slot: Slot) {
    exists i :: 0 <= i < n && i < |r.runs| && SlotCovers(slot, r.runs[i].lo)
  }

  /** A slot does not reach from one run into another. */
  lemma OneRunPerSlot(r: Ranges, slots: seq<Slot>, j: nat, a: nat, b: nat)
    requires Canonical(r) && RunsFromSlots(r, slots) && j < |slots| && a < b < |r.runs|
    ensures !(SlotCovers(slots[j], r.runs[a].lo) && SlotCovers(slots[j], r.runs[b].lo))
  {
    RunsAreMaximal(r, a);
    assert SlotCovers(slots[j], r.runs[a].lo) && SlotCovers(slots[j], r.runs[b].lo) ==> SlotCovers(slots[j], r.runs[a].hi);
  }

  lemma {:induction false} SlotsOfRuns(r: Ranges, slots: seq<Slot>, n: nat) returns (s: set<int>)
    requires Canonical(r) && RunsFromSlots(r, slots) && n <= |r.runs|
    ensures |s| == n && forall j :: j in s ==> 0 <= j < |slots| && slots[j].Held? && StartsIn(r, n, slots[j])
    decreases n
  {
    if n == 0 {
      s := {};
    } else {
      var s0 := SlotsOfRuns(r, slots, n - 1);
      assert CoveredBySlot(slots, r.runs[n - 1].lo);
      var j :| 0 <= j < |slots| && SlotCovers(slots[j], r.runs[n - 1].lo);
      if j in s0 {
        var i :| 0 <= i < n - 1 && SlotCovers(slots[j], r.runs[i].lo);
        OneRunPerSlot(r, slots, j, i, n - 1);
        assert false;
      }
      s := s0 + {j};
      forall k | k in s ensures StartsIn(r, n, slots[k]) {
        if k in s0 {
          var i :| 0 <= i < n - 1 && SlotCovers(slots[k], r.runs[i].lo);
          assert SlotCovers(slots[k], r.runs[i].lo);
        } else {
          assert SlotCovers(slots[k], r.runs[n - 1].lo);
        }
      }
    }
  }

  /** As many slots are in use as any set of slots in use has elements, at least. */
  lemma {:induction false} HeldAtLeast(slots: seq<Slot>, s: set<int>)
    requires forall j :: j in s ==> 0 <= j < |slots| && slots[j].Held?
    ensures |s| <= HeldCount(slots)
    decreases |slots|
  {
    if slots == [] {
      assert forall j :: j !in s;
      assert s == {};
    } else {
      var n := |slots| - 1;
      forall j | j in s - {n} ensures 0 <= j < n && slots[..n][j].Held? {
      }
      HeldAtLeast(slots[..n], s - {n});
      assert s == (s - {n}) + (if n in s then {n} else {});
    }
  }

  lemma RunsAreFew(r: Ranges, slots: seq<Slot>)
    requires Canonical(r) && RunsFromSlots(r, slots)
    ensures |r.runs| <= HeldCount(slots)
  {
    var s := SlotsOfRuns(r, slots, |r.runs|);
    HeldAtLeast(slots, s);
  }

  // ---- A new chunk is taken whenever a slot is free ----

  lemma ChunkPositions(irs: u32, chunks: Chunks, ahead: nat, rx: Receiver, k: nat)
    requires HoldsChunks(irs, chunks, ahead, rx) && InWindow(chunks, ahead, rx, k) && |rx.delivered| <= k
    ensures Delivered(irs, rx) <= irs + Off(chunks, k) < irs + Off(chunks, k + 1) <= Delivered(irs, rx) + ahead
  {
    OffMonotone(chunks, |rx.delivered|, k);
    OffMonotone(chunks, k, k + 1);
  }

  /** A held chunk does not overlap a different one. */
  lemma OtherIsClear(irs: u32, chunks: Chunks, ahead: nat, rx: Receiver, k: nat, i: nat, j: nat)
    requires HoldsChunks(irs, chunks, ahead, rx) && ahead < TWO_31 && InWindow(chunks, ahead, rx, k) && |rx.delivered| <= k
    requires i < |rx.slots| && HoldsChunk(irs, chunks, |rx.delivered|, rx.bytesReceived + ahead, rx.slots[i], j) && j != k
    ensures !SlotOverlaps(rx.slots[i], Wrap(irs + Off(chunks, k)), Wrap(irs + Off(chunks, k + 1)))
  {
    hide Wrap, Less, LessEqual;
    ChunkPositions(irs, chunks, ahead, rx, k);
    ChunkPositions(irs, chunks, ahead, rx, j);
    if j < k {
      OffMonotone(chunks, j + 1, k);
      LessIsOrder(irs + Off(chunks, k), irs + Off(chunks, j + 1));
    } else {
      OffMonotone(chunks, k + 1, j);
      LessIsOrder(irs + Off(chunks, j), irs + Off(chunks, k + 1));
    }
  }

  /** A chunk that is not kept passes the tests against what is. */
  lemma NewIsClear(cfg: Config, irs: u32, chunks: Chunks, ahead: nat, rx: Receiver, k: nat, start: u32, end: u32)
    requires ReceiverInv(cfg, irs, chunks, ahead, rx) && ahead < TWO_31 && InWindow(chunks, ahead, rx, k)
    requires !ChunkKept(irs, chunks, k, rx) && start == Wrap(irs + Off(chunks, k)) && end == Wrap(irs + Off(chunks, k + 1))
    ensures !LessEqual(end, rx.delivery) && !Overlaps(rx.slots, start, end)
  {
    hide Wrap, Less, LessEqual, SlotOverlaps;
    ChunkPositions(irs, chunks, ahead, rx, k);
    LessIsOrder(irs + Off(chunks, k + 1), Delivered(irs, rx));
    forall i | 0 <= i < |rx.slots| ensures !SlotOverlaps(rx.slots[i], start, end) {
      if rx.slots[i].Held? {
        var j: nat :| HoldsChunk(irs, chunks, |rx.delivered|, rx.bytesReceived + ahead, rx.slots[i], j);
        assert SlotKeeps(irs, chunks, j, rx.slots[i]);
        OtherIsClear(irs, chunks, ahead, rx, k, i, j);
      } else {
        FreeIsClear(rx.slots[i], start, end);
      }
    }
  }

  lemma FreeIsClear(slot: Slot, start: u32, end: u32)
    requires slot.Free?
    ensures !SlotOverlaps(slot, start, end)
  {
  }

  /** The range set with the chunk in it, were there room enough. */
  lemma UnionExists(r: Ranges, start: u32, end: u32) returns (union: Ranges)
    requires Canonical(r) && 0 < Diff(end, start) < TWO_31 && r.ack < High(r, start, end) < r.ack + TWO_31
    ensures Canonical(union) && r.ack <= union.ack && Adds(r, union, Low(r, start), High(r, start, end))
  {
    hide Canonical, Has, Add, Advance, Diff;
    InsertIsUnion(r, |r.runs| + 1, start, end);
    union := Inserted(r, |r.runs| + 1, start, end).1;
    DiffersFrom(start, end);
  }

  lemma DiffersFrom(start: u32, end: u32)
    requires 0 < Diff(end, start)
    ensures start != end
  {
  }

  lemma UnionFromSlots(irs: u32, rx: Receiver, f: nat, slot: Slot, union: Ranges)
    requires SameBytes(irs, rx) && rx.ranges.ack == Delivered(irs, rx) && f < |rx.slots| && rx.slots[f].Free? && slot.Held?
    requires Canonical(union) && rx.ranges.ack <= union.ack && Adds(rx.ranges, union, slot.at, slot.at + |slot.bytes|)
    ensures RunsFromSlots(union, rx.slots[f := slot])
  {
    var slots := rx.slots[f := slot];
    forall i | 0 <= i < |union.runs| ensures CoveredBySlot(slots, union.runs[i].lo) {
      var x := union.runs[i].lo;
      RunIn(union.runs, i, x);
      assert Has(union, x);
      if SlotCovers(slot, x) {
        assert SlotCovers(slots[f], x);
      } else {
        assert Has(rx.ranges, x);
        var j :| 0 <= j < |rx.slots| && SlotCovers(rx.slots[j], x);
        assert SlotCovers(slots[j], x);
      }
    }
    forall j, x | 0 <= j < |slots| && SlotCovers(slots[j], x) ensures Has(union, x) {
      if j != f {
        assert SlotCovers(rx.slots[j], x);
        assert Has(rx.ranges, x);
      }
    }
  }

  lemma InvParts(cfg: Config, irs: u32, chunks: Chunks, ahead: nat, rx: Receiver)
    requires ReceiverInv(cfg, irs, chunks, ahead, rx)
    ensures HoldsChunks(irs, chunks, ahead, rx) && NonEmpty(chunks) && SameBytes(irs, rx) && Canonical(rx.ranges)
    ensures rx.ranges.ack == Delivered(irs, rx) && |rx.ranges.runs| <= |rx.slots| == SlotCount(cfg)
    ensures SlotsHold(irs, chunks, |rx.delivered|, rx.bytesReceived + ahead, rx.slots)
    ensures rx.delivered <= chunks && rx.delivery == Wrap(Delivered(irs, rx))
  {
  }

  lemma NextOff(chunks: Chunks, k: nat)
    requires k < |chunks|
    ensures Off(chunks, k + 1) == Off(chunks, k) + |chunks[k]|
  {
  }

  lemma RoomInRanges(irs: u32, rx: Receiver, f: nat, slot: Slot, start: u32, end: u32)
    requires SameBytes(irs, rx) && Canonical(rx.ranges) && rx.ranges.ack == Delivered(irs, rx) && |rx.ranges.runs| <= |rx.slots|
    requires f < |rx.slots| && rx.slots[f].Free? && slot.Held? && 0 < Diff(end, start) < TWO_31
    requires Low(rx.ranges, start) == slot.at && High(rx.ranges, start, end) == slot.at + |slot.bytes|
    requires rx.ranges.ack < High(rx.ranges, start, end) < rx.ranges.ack + TWO_31
    ensures Inserted(rx.ranges, |rx.slots|, start, end).0 == Status.Accepted
  {
    hide Inserted, Canonical, SameBytes, Low, High, Diff, Adds, Has;
    var union := UnionExists(rx.ranges, start, end);
    UnionFromSlots(irs, rx, f, slot, union);
    RunsAreFew(union, rx.slots[f := slot]);
    UnionIs(rx.ranges, union, Low(rx.ranges, start), High(rx.ranges, start, end));
    AcceptsExactly(rx.ranges, |rx.slots|, start, end, union);
  }

  /** The range set takes every new chunk that a slot is free for. */
  lemma RoomForNew(cfg: Config, irs: u32, chunks: Chunks, ahead: nat, rx: Receiver, k: nat, start: u32, end: u32)
    requires ReceiverInv(cfg, irs, chunks, ahead, rx) && ahead < TWO_31 && InWindow(chunks, ahead, rx, k)
    requires |rx.delivered| <= k && FreeSlot(rx.slots) < |rx.slots|
    requires start == Wrap(irs + Off(chunks, k)) && end == Wrap(start + |chunks[k]|)
    ensures Inserted(rx.ranges, SlotCount(cfg), start, end).0 == Status.Accepted
  {
    hide Inserted, Canonical, Wrap, ReceiverInv, HoldsChunks, SameBytes, Low, High, Diff, Off, SlotCount;
    InvParts(cfg, irs, chunks, ahead, rx);
    ChunkPositions(irs, chunks, ahead, rx, k);
    NextOff(chunks, k);
    ReadsPosition(irs, chunks, ahead, rx, k);
    ChunkLength(rx.ranges, start, end, |chunks[k]|);
    RoomInRanges(irs, rx, FreeSlot(rx.slots), Held(irs + Off(chunks, k), chunks[k]), start, end);
  }

  lemma ChunkLength(r: Ranges, start: u32, end: u32, n: nat)
    requires end == Wrap(start + n) && 0 < n < TWO_31
    ensures Diff(end, start) == n
  {
  }

  lemma UnionIs(r: Ranges, union: Ranges, lo: int, hi: int)
    requires Adds(r, union, lo, hi)
    ensures forall x :: Has(union, x) <==> Has(r, x) || lo <= x < hi
  {
  }

  /** What becomes of a chunk: one that is kept already is refused, and a new one that fits a buffer is taken whenever a slot is free. */
  lemma ResultExactly(cfg: Config, irs: u32, chunks: Chunks, ahead: nat, rx: Receiver, k: nat, start: u32)
    requires ReceiverInv(cfg, irs, chunks, ahead, rx) && ahead < TWO_31 && InWindow(chunks, ahead, rx, k)
    requires start == Wrap(irs + Off(chunks, k))
    ensures PayloadResult(cfg, rx, start, chunks[k]) ==
            if ChunkKept(irs, chunks, k, rx) then Refused
            else if |chunks[k]| > 2048 then Oversized
            else if HeldCount(rx.slots) < |rx.slots| then Taken else Refused
  {
    hide Wrap, LessEqual, Overlaps, Inserted, ReceiverInv, ChunkKept, HeldCount, FreeSlot, Off;
    InvParts(cfg, irs, chunks, ahead, rx);
    var end := Wrap(start + |chunks[k]|);
    ChunkEnd(irs, chunks, k, start, end);
    FreeIsCounted(rx.slots);
    if ChunkKept(irs, chunks, k, rx) {
      KeptIsSeen(irs, chunks, ahead, rx, k, start, end);
    } else {
      NewIsClear(cfg, irs, chunks, ahead, rx, k, start, end);
      if FreeSlot(rx.slots) < |rx.slots| {
        NotKept(irs, chunks, k, rx);
        RoomForNew(cfg, irs, chunks, ahead, rx, k, start, end);
      }
    }
  }

  lemma NotKept(irs: u32, chunks: Chunks, k: nat, rx: Receiver)
    requires !ChunkKept(irs, chunks, k, rx)
    ensures |rx.delivered| <= k
  {
  }

  /** A chunk that is kept compares as old or overlaps itself. */
  lemma KeptIsSeen(irs: u32, chunks: Chunks, ahead: nat, rx: Receiver, k: nat, start: u32, end: u32)
    requires HoldsChunks(irs, chunks, ahead, rx) && ahead < TWO_31 && InWindow(chunks, ahead, rx, k) && ChunkKept(irs, chunks, k, rx)
    requires start == Wrap(irs + Off(chunks, k)) && end == Wrap(irs + Off(chunks, k + 1))
    ensures LessEqual(end, rx.delivery) || Overlaps(rx.slots, start, end)
  {
    hide Wrap, LessEqual, SlotOverlaps, Off;
    if k < |rx.delivered| {
      OldEndTest(irs, chunks, ahead, rx, k, end);
    } else {
      var i :| 0 <= i < |rx.slots| && SlotKeeps(irs, chunks, k, rx.slots[i]);
      HeldChunkOverlaps(irs, chunks, ahead, rx, k, i);
    }
  }

  // ---- The set of chunks ----

  lemma KeptIs(irs: u32, chunks: Chunks, rx: Receiver, k: nat)
    requires rx.delivered <= chunks
    ensures k in Kept(irs, chunks, rx) <==> k < |rx.delivered| || (k < |chunks| && HeldIn(irs, chunks, k, rx.slots))
  {
  }

  /** Delivering moves chunks from the slots to the application and loses none. */
  lemma DeliverOneKeepsSet(irs: u32, chunks: Chunks, ahead: nat, rx: Receiver, i: nat)
    requires HoldsChunks(irs, chunks, ahead, rx) && ahead < TWO_31
    requires i < |rx.slots| && rx.slots[i].Held? && Wrap(rx.slots[i].at) == rx.delivery
    ensures Kept(irs, chunks, DeliverOne(rx, i)) == Kept(irs, chunks, rx)
  {
    hide Wrap, HeldCount;
    var rx' := DeliverOne(rx, i);
    var n: nat :| HoldsChunk(irs, chunks, |rx.delivered|, rx.bytesReceived + ahead, rx.slots[i], n);
    NextChunk(irs, chunks, ahead, rx, i, n);
    forall k: nat | k < |chunks| ensures ChunkKept(irs, chunks, k, rx') <==> ChunkKept(irs, chunks, k, rx) {
      MovedChunk(irs, chunks, rx, rx', i, n, k);
    }
  }

  lemma MovedChunk(irs: u32, chunks: Chunks, rx: Receiver, rx': Receiver, i: nat, n: nat, k: nat)
    requires NonEmpty(chunks) && i < |rx.slots| && rx'.slots == rx.slots[i := Free] && n == |rx.delivered| < |chunks| && |rx'.delivered| == n + 1
    requires SlotKeeps(irs, chunks, n, rx.slots[i]) && k < |chunks|
    ensures ChunkKept(irs, chunks, k, rx') <==> ChunkKept(irs, chunks, k, rx)
  {
    if ChunkKept(irs, chunks, k, rx) && k > n {
      var j :| 0 <= j < |rx.slots| && SlotKeeps(irs, chunks, k, rx.slots[j]);
      if j == i {
        SameOffset(chunks, k, n);
      }
      assert SlotKeeps(irs, chunks, k, rx'.slots[j]);
    }
    if ChunkKept(irs, chunks, k, rx') && k > n {
      var j :| 0 <= j < |rx'.slots| && SlotKeeps(irs, chunks, k, rx'.slots[j]);
      assert SlotKeeps(irs, chunks, k, rx.slots[j]);
    }
  }

  lemma {:induction false} DeliverKeepsSet(irs: u32, chunks: Chunks, ahead: nat, rx: Receiver)
    requires HoldsChunks(irs, chunks, ahead, rx) && ahead < TWO_31
    ensures Kept(irs, chunks, Deliver(rx)) == Kept(irs, chunks, rx)
    decreases HeldCount(rx.slots)
  {
    hide HoldsChunks, Kept;
    var i := SlotAt(rx.slots, rx.delivery);
    if i < |rx.slots| {
      DeliverOneKeepsSet(irs, chunks, ahead, rx, i);
      DeliverOneKeepsChunks(irs, chunks, ahead, rx, i);
      DeliverKeepsSet(irs, chunks, ahead, DeliverOne(rx, i));
    }
  }

  lemma StoringAdds(irs: u32, chunks: Chunks, rx: Receiver, ranges: Ranges, f: nat, k: nat)
    requires NonEmpty(chunks) && f < |rx.slots| && rx.slots[f].Free? && k < |chunks|
    ensures Kept(irs, chunks, rx.(ranges := ranges, slots := rx.slots[f := Held(irs + Off(chunks, k), chunks[k])]))
         == Kept(irs, chunks, rx) + {k}
  {
    hide ChunkKept;
    var slot := Held(irs + Off(chunks, k), chunks[k]);
    var rx' := rx.(ranges := ranges, slots := rx.slots[f := slot]);
    forall j: nat | j < |chunks| ensures ChunkKept(irs, chunks, j, rx') <==> ChunkKept(irs, chunks, j, rx) || j == k {
      StoredChunk(irs, chunks, rx, rx', f, k, j);
    }
  }

  lemma StoredChunk(irs: u32, chunks: Chunks, rx: Receiver, rx': Receiver, f: nat, k: nat, j: nat)
    requires NonEmpty(chunks) && f < |rx.slots| && rx.slots[f].Free? && k < |chunks| && j < |chunks|
    requires rx'.delivered == rx.delivered && rx'.slots == rx.slots[f := Held(irs + Off(chunks, k), chunks[k])]
    ensures ChunkKept(irs, chunks, j, rx') <==> ChunkKept(irs, chunks, j, rx) || j == k
  {
    assert SlotKeeps(irs, chunks, k, rx'.slots[f]);
    if i :| 0 <= i < |rx.slots| && SlotKeeps(irs, chunks, j, rx.slots[i]) {
      assert SlotKeeps(irs, chunks, j, rx'.slots[i]);
    }
    if i :| 0 <= i < |rx'.slots| && SlotKeeps(irs, chunks, j, rx'.slots[i]) {
      if i == f {
        SameOffset(chunks, j, k);
      } else {
        assert SlotKeeps(irs, chunks, j, rx.slots[i]);
      }
    }
  }

  /** In every state of the receiver, what is delivered ends at the first chunk it does not have. */
  lemma DeliveredToFirstMissing(cfg: Config, irs: u32, chunks: Chunks, ahead: nat, rx: Receiver)
    requires ReceiverInv(cfg, irs, chunks, ahead, rx) && ahead < TWO_31
    ensures FirstMissing(Kept(irs, chunks, rx), |rx.delivered|) && rx.delivered <= chunks
  {
    hide SlotsHold, Canonical, Has;
    AckIsFirstMissing(rx.ranges);
    var n := |rx.delivered|;
    forall i | 0 <= i < |rx.slots| ensures !SlotKeeps(irs, chunks, n, rx.slots[i]) {
      assert !SlotCovers(rx.slots[i], rx.ranges.ack);
    }
  }

  ghost predicate FirstMissing(s: set<nat>, m: nat) {
    m !in s && forall j: nat :: j < m ==> j in s
  }

  function Below(n: nat): (s: set<nat>)
    ensures |s| == n && forall x: nat :: x in s <==> x < n
  {
    if n == 0 then {} else Below(n - 1) + {n - 1}
  }

  /** The slots in use are the chunks kept beyond those delivered. */
  lemma KeptSize(cfg: Config, irs: u32, chunks: Chunks, ahead: nat, rx: Receiver)
    requires ReceiverInv(cfg, irs, chunks, ahead, rx)
    ensures |Kept(irs, chunks, rx)| == |rx.delivered| + HeldCount(rx.slots)
  {
    hide SameBytes, Canonical, HeldIn, HeldCount;
    var n, held := |rx.delivered|, HeldChunks(irs, chunks, rx.slots);
    HeldSize(irs, chunks, n, rx.bytesReceived + ahead, rx.slots);
    forall k: nat ensures k in Kept(irs, chunks, rx) <==> k in Below(n) + held {
      KeptIs(irs, chunks, rx, k);
    }
    forall k: nat | k in held ensures k >= n {
      HeldIsLater(irs, chunks, n, rx.bytesReceived + ahead, rx.slots, k);
    }
    assert Kept(irs, chunks, rx) == Below(n) + held && Below(n) !! held;
  }

  lemma HeldIsLater(irs: u32, chunks: Chunks, from: nat, limit: nat, slots: seq<Slot>, k: nat)
    requires NonEmpty(chunks) && SlotsHold(irs, chunks, from, limit, slots) && HeldIn(irs, chunks, k, slots)
    ensures from <= k
  {
    var i :| 0 <= i < |slots| && SlotKeeps(irs, chunks, k, slots[i]);
    var j: nat :| HoldsChunk(irs, chunks, from, limit, slots[i], j);
    SameOffset(chunks, j, k);
  }

  // ---- The receiver as a set of numbers ----

  /** The first number from m on that is not in the set. */
  function FirstFrom(n: nat, kept: set<nat>, m: nat): nat
    decreases n - m
  {
    if m < n && m in kept then FirstFrom(n, kept, m + 1) else m
  }

  /** A receiver that keeps a set of chunks: what it has beyond the first missing one takes a slot each. */
  function Join(slots: nat, chunks: Chunks, kept: set<nat>, k: nat): set<nat>
    requires k < |chunks|
  {
    if k in kept || |chunks[k]| > 2048 || |kept| >= FirstFrom(|chunks|, kept, 0) + slots then kept else kept + {k}
  }

  lemma {:induction false} FirstFromIs(n: nat, kept: set<nat>, m: nat, first: nat)
    requires FirstMissing(kept, first) && m <= first <= n
    ensures FirstFrom(n, kept, m) == first
    decreases first - m
  {
    if m < first {
      FirstFromIs(n, kept, m + 1, first);
    }
  }

  /** One arrival: the set of chunks grows exactly as it does in the receiver that is nothing but that set. */
  lemma StepExactly(cfg: Config, irs: u32, chunks: Chunks, ahead: nat, rx: Receiver, k: nat, start: u32)
    requires ReceiverInv(cfg, irs, chunks, ahead, rx) && ahead < TWO_31 && InWindow(chunks, ahead, rx, k)
    requires start == Wrap(irs + Off(chunks, k))
    ensures var rx' := ProcessPayload(cfg, rx, start, chunks[k]);
            && Kept(irs, chunks, rx') == Join(|rx.slots|, chunks, Kept(irs, chunks, rx), k)
            && ReceiverInv(cfg, irs, chunks, ahead, rx') && |rx'.slots| == |rx.slots|
  {
    hide ReceiverInv, Kept, Wrap, PayloadResult, Deliver, HeldCount, ChunkKept;
    InvParts(cfg, irs, chunks, ahead, rx);
    ResultExactly(cfg, irs, chunks, ahead, rx, k, start);
    ReceiverAgrees(cfg, irs, chunks, ahead, rx, k, start);
    InvParts(cfg, irs, chunks, ahead, ProcessPayload(cfg, rx, start, chunks[k]));
    KeptSize(cfg, irs, chunks, ahead, rx);
    DeliveredToFirstMissing(cfg, irs, chunks, ahead, rx);
    FirstFromIs(|chunks|, Kept(irs, chunks, rx), 0, |rx.delivered|);
    KeptMeans(irs, chunks, rx, k);
    if PayloadResult(cfg, rx, start, chunks[k]) == Taken {
      TakingAdds(cfg, irs, chunks, ahead, rx, k, start);
    }
  }

  lemma KeptMeans(irs: u32, chunks: Chunks, rx: Receiver, k: nat)
    requires k < |chunks|
    ensures k in Kept(irs, chunks, rx) <==> ChunkKept(irs, chunks, k, rx)
  {
  }

  lemma StoredIsKept(cfg: Config, irs: u32, chunks: Chunks, ahead: nat, rx: Receiver, k: nat, at: int, ranges: Ranges, f: nat)
    requires HoldsChunks(irs, chunks, ahead, rx) && ahead < TWO_31 && InWindow(chunks, ahead, rx, k)
    requires |rx.delivered| <= k && f < |rx.slots| && rx.slots[f].Free? && at == irs + Off(chunks, k)
    requires forall i :: 0 <= i < |rx.slots| && rx.slots[i].Held? ==> rx.slots[i].at != irs + Off(chunks, k)
    ensures Kept(irs, chunks, Deliver(rx.(ranges := ranges, slots := rx.slots[f := Held(at, chunks[k])])))
         == Kept(irs, chunks, rx) + {k}
  {
    hide Kept, SlotsHold, Deliver;
    var held := rx.(ranges := ranges, slots := rx.slots[f := Held(at, chunks[k])]);
    StoredSlotsHold(irs, chunks, |rx.delivered|, rx.bytesReceived + ahead, rx.slots, k, f);
    SlotsOnly(irs, chunks, ahead, rx, ranges, held.slots);
    StoringAdds(irs, chunks, rx, ranges, f, k);
    DeliverKeepsSet(irs, chunks, ahead, held);
  }

  lemma KeptToAdds(cfg: Config, irs: u32, chunks: Chunks, ahead: nat, rx: Receiver, k: nat, start: u32, end: u32)
    requires ReceiverInv(cfg, irs, chunks, ahead, rx) && ahead < TWO_31 && InWindow(chunks, ahead, rx, k)
    requires start == Wrap(irs + Off(chunks, k)) && end == Wrap(start + |chunks[k]|) && FitsTo(cfg, rx, start, end)
    ensures Kept(irs, chunks, KeptTo(cfg, rx, start, end, chunks[k])) == Kept(irs, chunks, rx) + {k}
  {
    hide Kept, Deliver, Wrap, SlotsHold, SameBytes, Canonical, Inserted, Low, LessEqual, Overlaps;
    var ranges := TakenChunk(cfg, irs, chunks, ahead, rx, k, start, end);
    StoredIsKept(cfg, irs, chunks, ahead, rx, k, Low(rx.ranges, start), ranges, FreeSlot(rx.slots));
  }

  lemma TakingAdds(cfg: Config, irs: u32, chunks: Chunks, ahead: nat, rx: Receiver, k: nat, start: u32)
    requires ReceiverInv(cfg, irs, chunks, ahead, rx) && ahead < TWO_31 && InWindow(chunks, ahead, rx, k)
    requires start == Wrap(irs + Off(chunks, k)) && PayloadResult(cfg, rx, start, chunks[k]) == Taken
    ensures Kept(irs, chunks, ProcessPayload(cfg, rx, start, chunks[k])) == Kept(irs, chunks, rx) + {k}
  {
    hide ReceiverInv, Kept, Wrap, PayloadResult, ProcessPayload, FitsTo, KeptTo;
    TakenIsKept(cfg, rx, start, chunks[k]);
    KeptToAdds(cfg, irs, chunks, ahead, rx, k, start, Wrap(start + |chunks[k]|));
  }

  // ---- Every run ----

  /** The set of chunks after a sequence of arrivals. */
  function JoinAll(slots: nat, chunks: Chunks, kept: set<nat>, arrivals: seq<nat>): set<nat>
    requires forall i :: 0 <= i < |arrivals| ==> arrivals[i] < |chunks|
    decreases |arrivals|
  {
    if arrivals == [] then kept else JoinAll(slots, chunks, Join(slots, chunks, kept, arrivals[0]), arrivals[1..])
  }

  lemma {:induction false} ArrivalsAreChunks(cfg: Config, chunks: Chunks, ahead: nat, rx: Receiver, arrivals: seq<nat>, rx': Receiver)
    requires Receives(cfg, chunks, ahead, rx, arrivals, rx')
    ensures forall i :: 0 <= i < |arrivals| ==> arrivals[i] < |chunks|
    decreases |arrivals|
  {
    if arrivals != [] {
      ArrivalsAreChunks(cfg, chunks, ahead,
                        ProcessPayload(cfg, rx, Wrap(cfg.irs + Off(chunks, arrivals[0])), chunks[arrivals[0]]), arrivals[1..], rx');
      assert forall i :: 0 < i < |arrivals| ==> arrivals[i] == arrivals[1..][i - 1];
    }
  }

  /**
   Over every sequence of arrivals the receiver has exactly the chunks that the set of numbers would have, and has
   delivered exactly the chunks before the first one it does not have.
   */
  lemma {:induction false} ReceiverIsSet(cfg: Config, chunks: Chunks, ahead: nat, rx: Receiver, arrivals: seq<nat>, rx': Receiver)
    requires ReceiverInv(cfg, cfg.irs, chunks, ahead, rx) && ahead < TWO_31
    requires Receives(cfg, chunks, ahead, rx, arrivals, rx')
    ensures forall i :: 0 <= i < |arrivals| ==> arrivals[i] < |chunks|
    ensures Kept(cfg.irs, chunks, rx') == JoinAll(|rx.slots|, chunks, Kept(cfg.irs, chunks, rx), arrivals)
    ensures FirstMissing(Kept(cfg.irs, chunks, rx'), |rx'.delivered|) && rx'.delivered <= chunks
    decreases |arrivals|
  {
    hide ReceiverInv, Kept, Wrap, FirstMissing, ProcessPayload;
    ArrivalsAreChunks(cfg, chunks, ahead, rx, arrivals, rx');
    if arrivals == [] {
      DeliveredToFirstMissing(cfg, cfg.irs, chunks, ahead, rx);
    } else {
      var start := Wrap(cfg.irs + Off(chunks, arrivals[0]));
      StepExactly(cfg, cfg.irs, chunks, ahead, rx, arrivals[0], start);
      ReceiverIsSet(cfg, chunks, ahead, ProcessPayload(cfg, rx, start, chunks[arrivals[0]]), arrivals[1..], rx');
    }
  }

  /** Whenever a chunk arrives that is not there yet, a slot is free and the chunk fits a buffer. */
  predicate RoomThroughout(slots: nat, chunks: Chunks, kept: set<nat>, arrivals: seq<nat>)
    requires forall i :: 0 <= i < |arrivals| ==> arrivals[i] < |chunks|
    decreases |arrivals|
  {
    arrivals != [] ==>
      && (arrivals[0] !in kept ==> |chunks[arrivals[0]]| <= 2048 && |kept| < FirstFrom(|chunks|, kept, 0) + slots)
      && RoomThroughout(slots, chunks, kept + {arrivals[0]}, arrivals[1..])
  }

  function Elements(arrivals: seq<nat>): set<nat> {
    set i | 0 <= i < |arrivals| :: arrivals[i]
  }

  lemma {:induction false} RoomKeepsAll(slots: nat, chunks: Chunks, kept: set<nat>, arrivals: seq<nat>)
    requires forall i :: 0 <= i < |arrivals| ==> arrivals[i] < |chunks|
    requires RoomThroughout(slots, chunks, kept, arrivals)
    ensures JoinAll(slots, chunks, kept, arrivals) == kept + Elements(arrivals)
    decreases |arrivals|
  {
    if arrivals != [] {
      var k, rest := arrivals[0], arrivals[1..];
      assert Join(slots, chunks, kept, k) == kept + {k};
      RoomKeepsAll(slots, chunks, kept + {k}, rest);
      ElementsOfRest(arrivals);
    }
  }

  lemma ElementsOfRest(arrivals: seq<nat>)
    requires arrivals != []
    ensures Elements(arrivals) == {arrivals[0]} + Elements(arrivals[1..])
  {
    var rest := arrivals[1..];
    assert forall i :: 0 < i < |arrivals| ==> arrivals[i] == rest[i - 1];
    assert forall i :: 0 <= i < |rest| ==> rest[i] == arrivals[i + 1];
  }

  /** With room throughout, everything up to the first chunk that never arrived is delivered. */
  lemma EverythingIsDelivered(cfg: Config, chunks: Chunks, ahead: nat, arrivals: seq<nat>, rx: Receiver, missing: nat)
    requires NonEmpty(chunks) && ahead < TWO_31 && Receives(cfg, chunks, ahead, InitialReceiver(cfg), arrivals, rx)
    requires forall i :: 0 <= i < |arrivals| ==> arrivals[i] < |chunks|
    requires RoomThroughout(SlotCount(cfg), chunks, {}, arrivals)
    requires FirstMissing(Elements(arrivals), missing)
    ensures missing <= |chunks| && rx.delivered == chunks[..missing]
    ensures Kept(cfg.irs, chunks, rx) == Elements(arrivals)
  {
    hide RoomThroughout, Receives, JoinAll, HeldCount;
    InitialKept(cfg, chunks, ahead);
    ReceiverIsSet(cfg, chunks, ahead, InitialReceiver(cfg), arrivals, rx);
    RoomKeepsAll(SlotCount(cfg), chunks, {}, arrivals);
    SameFirst(Kept(cfg.irs, chunks, rx), |rx.delivered|, missing);
    assert rx.delivered == chunks[..|rx.delivered|];
  }

  lemma InitialKept(cfg: Config, chunks: Chunks, ahead: nat)
    requires NonEmpty(chunks)
    ensures ReceiverInv(cfg, cfg.irs, chunks, ahead, InitialReceiver(cfg))
    ensures Kept(cfg.irs, chunks, InitialReceiver(cfg)) == {} && |InitialReceiver(cfg).slots| == SlotCount(cfg)
  {
    InitialReceiverInv(cfg, ahead);
    LongerStream(cfg, cfg.irs, [], chunks, ahead, InitialReceiver(cfg));
  }

  lemma SameFirst(s: set<nat>, m: nat, n: nat)
    requires FirstMissing(s, m) && FirstMissing(s, n)
    ensures m == n
  {
  }

  /** The window an endpoint advertises is its free receive buffers, each of the largest payload, cut off at 65535. */
  lemma AdvertisesRoom(c: Conn, irs: u32, chunks: Chunks, ahead: nat, flags: u8)
    requires ReceiverInv(c.cfg, irs, chunks, ahead, c.rx)
    ensures var held := |Kept(irs, chunks, c.rx)| - |c.rx.delivered|;
            && 0 <= held <= c.cfg.rxCapacity
            && MakeHeader(c, flags).window
               == Min((c.cfg.rxCapacity - held) * (if 0 < c.cfg.mss <= 2004 then c.cfg.mss else 2004), 65535)
  {
    hide ReceiverInv, Kept, HeldCount;
    InvParts(c.cfg, irs, chunks, ahead, c.rx);
    KeptSize(c.cfg, irs, chunks, ahead, c.rx);
  }
}
