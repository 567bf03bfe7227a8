/** The receiving half of a connection: range set, payload slots and the pool their buffers come from. */
module ReceiveHalf {
  import opened Numbers
  import opened Sequence
  import opened PacketPool
  import opened ReceiveRanges
  import opened ConnectionModel

  datatype ReceiveSlot = ReceiveSlot(start: u32, end: u32, buffer: int, active: bool)

  const EMPTY_SLOT := ReceiveSlot(0, 0, NO_BUFFER, false)

  /** What a slot stands for, given the position it was stored for and the contents of the pool. */
  function SlotView(s: ReceiveSlot, at: int, storage: seq<seq<u8>>): Slot {
    if s.active && 0 <= s.buffer < |storage| then Held(at, storage[s.buffer]) else Free
  }

  function SlotViews(slots: seq<ReceiveSlot>, at: seq<int>, storage: seq<seq<u8>>): (r: seq<Slot>)
    requires |at| == |slots|
    ensures |r| == |slots|
  {
    seq(|slots|, i requires 0 <= i < |slots| => SlotView(slots[i], at[i], storage))
  }

  /** An active slot names a buffer in use and the sequence numbers of what is in it. */
  ghost predicate SlotOk(s: ReceiveSlot, at: int, storage: seq<seq<u8>>, used: set<int>) {
    s.active ==>
      && s.buffer in used && 0 <= s.buffer < |storage|
      && s.start == Wrap(at) && s.end == Wrap(at + |storage[s.buffer]|)
  }

  /** The buffers in use are exactly those of the active slots, each named by one slot. */
  ghost predicate OwnsSlots(slots: seq<ReceiveSlot>, used: set<int>) {
    && (forall i, j :: 0 <= i < j < |slots| && slots[i].active && slots[j].active ==> slots[i].buffer != slots[j].buffer)
    && (forall k :: k in used ==> exists i :: 0 <= i < |slots| && slots[i].active && slots[i].buffer == k)
  }

  lemma {:induction false} NoneHeld(slots: seq<Slot>)
    requires forall i :: 0 <= i < |slots| ==> slots[i].Free?
    ensures HeldCount(slots) == 0
    decreases |slots|
  {
    if slots != [] {
      NoneHeld(slots[..|slots| - 1]);
    }
  }

  lemma FreeSlotUnique(slots: seq<Slot>, n: nat)
    requires n <= |slots| && (forall i :: 0 <= i < n ==> slots[i].Held?) && (n < |slots| ==> slots[n].Free?)
    ensures FreeSlot(slots) == n
  {
  }

  lemma SlotAtUnique(slots: seq<Slot>, at: u32, n: nat)
    requires n <= |slots| && (forall i :: 0 <= i < n ==> !(slots[i].Held? && Wrap(slots[i].at) == at))
    requires n < |slots| ==> slots[n].Held? && Wrap(slots[n].at) == at
    ensures SlotAt(slots, at) == n
  {
  }

  /** Giving back the buffer of slot i and clearing the slot. */
  lemma ReleasedSlot(
    slots: seq<ReceiveSlot>, at: seq<int>, storage: seq<seq<u8>>, used: set<int>, i: nat, cleared: ReceiveSlot, storage': seq<seq<u8>>)
    requires |at| == |slots| && i < |slots| && slots[i].active && !cleared.active && |storage'| == |storage|
    requires forall j :: 0 <= j < |slots| ==> SlotOk(slots[j], at[j], storage, used)
    requires OwnsSlots(slots, used) && |used| == HeldCount(SlotViews(slots, at, storage))
    requires forall k :: k in used && k != slots[i].buffer && 0 <= k < |storage| ==> storage'[k] == storage[k]
    ensures var slots', used' := slots[i := cleared], used - {slots[i].buffer};
            && (forall j :: 0 <= j < |slots| ==> SlotOk(slots'[j], at[j], storage', used'))
            && OwnsSlots(slots', used')
            && SlotViews(slots', at, storage') == SlotViews(slots, at, storage)[i := Free]
            && |used'| == HeldCount(SlotViews(slots', at, storage'))
  {
    var slots', used' := slots[i := cleared], used - {slots[i].buffer};
    assert SlotOk(slots[i], at[i], storage, used);
    forall j | 0 <= j < |slots|
      ensures SlotOk(slots'[j], at[j], storage', used')
      ensures SlotView(slots'[j], at[j], storage') == SlotViews(slots, at, storage)[i := Free][j]
    {
      assert SlotOk(slots[j], at[j], storage, used);
    }
    forall k | k in used' ensures exists j :: 0 <= j < |slots'| && slots'[j].active && slots'[j].buffer == k {
      var j :| 0 <= j < |slots| && slots[j].active && slots[j].buffer == k;
      assert slots'[j].active;
    }
    HeldCountUpdate(SlotViews(slots, at, storage), i, Free);
  }

  /** What lies in buffers that no slot owns does not matter. */
  lemma SameOwned(slots: seq<ReceiveSlot>, at: seq<int>, storage: seq<seq<u8>>, storage': seq<seq<u8>>, used: set<int>)
    requires |at| == |slots| && |storage'| == |storage|
    requires forall j :: 0 <= j < |slots| ==> SlotOk(slots[j], at[j], storage, used)
    requires forall k :: k in used && 0 <= k < |storage| ==> storage'[k] == storage[k]
    ensures forall j :: 0 <= j < |slots| ==> SlotOk(slots[j], at[j], storage', used)
    ensures SlotViews(slots, at, storage') == SlotViews(slots, at, storage)
  {
    forall j | 0 <= j < |slots|
      ensures SlotOk(slots[j], at[j], storage', used) && SlotView(slots[j], at[j], storage') == SlotView(slots[j], at[j], storage)
    {
      assert SlotOk(slots[j], at[j], storage, used);
    }
  }

  lemma FilledOwns(slots: seq<ReceiveSlot>, used: set<int>, i: nat, filled: ReceiveSlot)
    requires OwnsSlots(slots, used) && i < |slots| && !slots[i].active && filled.active && filled.buffer !in used
    requires forall j :: 0 <= j < |slots| && slots[j].active ==> slots[j].buffer in used
    ensures OwnsSlots(slots[i := filled], used + {filled.buffer})
  {
    var slots' := slots[i := filled];
    forall k | k in used + {filled.buffer}
      ensures exists j :: 0 <= j < |slots'| && slots'[j].active && slots'[j].buffer == k
    {
      if k == filled.buffer {
        assert slots'[i].buffer == k;
      } else {
        var j :| 0 <= j < |slots| && slots[j].active && slots[j].buffer == k;
        assert slots'[j].active;
      }
    }
  }

  /** Filling a free slot with a buffer that has just been taken. */
  lemma FilledSlot(
    slots: seq<ReceiveSlot>, at: seq<int>, storage: seq<seq<u8>>, used: set<int>,
    i: nat, filled: ReceiveSlot, position: int, storage': seq<seq<u8>>)
    requires |at| == |slots| && i < |slots| && !slots[i].active && filled.active && |storage'| == |storage|
    requires forall j :: 0 <= j < |slots| ==> SlotOk(slots[j], at[j], storage, used)
    requires OwnsSlots(slots, used) && |used| == HeldCount(SlotViews(slots, at, storage))
    requires filled.buffer !in used && SlotOk(filled, position, storage', used + {filled.buffer})
    requires forall k :: k in used && 0 <= k < |storage| ==> storage'[k] == storage[k]
    ensures var slots', at', used' := slots[i := filled], at[i := position], used + {filled.buffer};
            && (forall j :: 0 <= j < |slots| ==> SlotOk(slots'[j], at'[j], storage', used'))
            && OwnsSlots(slots', used')
            && SlotViews(slots', at', storage') == SlotViews(slots, at, storage)[i := Held(position, storage'[filled.buffer])]
            && |used'| == HeldCount(SlotViews(slots', at', storage'))
  {
    hide OwnsSlots;
    var slots', at', used' := slots[i := filled], at[i := position], used + {filled.buffer};
    var held := Held(position, storage'[filled.buffer]);
    forall j | 0 <= j < |slots|
      ensures SlotOk(slots'[j], at'[j], storage', used')
      ensures SlotView(slots'[j], at'[j], storage') == SlotViews(slots, at, storage)[i := held][j]
      ensures slots[j].active ==> slots[j].buffer in used
    {
      assert SlotOk(slots[j], at[j], storage, used);
    }
    FilledOwns(slots, used, i, filled);
    HeldCountUpdate(SlotViews(slots, at, storage), i, held);
  }

  class ReceiveHalf {
    const cfg: Config
    const pool: PacketPool
    const ranges: ReceiveRangeSet
    const slots: array<ReceiveSlot>
    const capacity: nat
    var delivery: u32
    var bytesReceived: nat
    ghost var at: seq<int>
    ghost var delivered: seq<seq<u8>>
    ghost const Repr: set<object>

    /** The parts are in order and apart from each other. */
    ghost predicate Shape()
      reads this, Repr
    {
      && Repr == {this, ranges, ranges.ranges, slots} + pool.Repr
      && pool.Repr !! {this, ranges, ranges.ranges, slots}
      && pool in pool.Repr && pool.Valid() && ranges.Valid()
      && slots.Length == RECEIVE_RANGE_CAPACITY && capacity == ranges.capacity == SlotCount(cfg)
      && pool.capacity == cfg.rxCapacity
      && |at| == capacity
    }

    ghost function Views(): seq<Slot>
      requires Shape()
      reads this, Repr
    {
      SlotViews(slots[..capacity], at, pool.storage[..])
    }

    /** The active slots own exactly these buffers. */
    ghost predicate Owned(buffers: set<int>)
      requires Shape()
      reads this, Repr
    {
      && (forall i :: 0 <= i < capacity ==> SlotOk(slots[i], at[i], pool.storage[..], buffers))
      && OwnsSlots(slots[..capacity], buffers)
      && |buffers| == HeldCount(Views())
    }

    ghost predicate Valid()
      reads this, Repr
    {
      Shape() && Owned(pool.used)
    }

    ghost function View(): Receiver
      requires Valid()
      reads this, Repr
    {
      Receiver(delivery, ranges.view, Views(), bytesReceived, delivered)
    }

    constructor (cfg: Config, p: PacketPool)
      requires p.Valid() && p.capacity == cfg.rxCapacity && p.used == {}
      ensures Valid() && pool == p && fresh(Repr - p.Repr)
      ensures this.cfg == cfg && View() == InitialReceiver(cfg)
    {
      hide Canonical, ExactlyFree, HeldCount, WrapRun, Wrap;
      this.cfg := cfg;
      var r := new ReceiveRangeSet(cfg.irs, cfg.rxCapacity);
      var s := new ReceiveSlot[RECEIVE_RANGE_CAPACITY](_ => EMPTY_SLOT);
      pool, ranges, slots, capacity := p, r, s, Min(cfg.rxCapacity, RECEIVE_RANGE_CAPACITY);
      delivery, bytesReceived := cfg.irs, 0;
      at, delivered := seq(Min(cfg.rxCapacity, RECEIVE_RANGE_CAPACITY), _ => 0), [];
      Repr := {this, r, r.ranges, s} + p.Repr;
      new;
      ghost var views := SlotViews(slots[..capacity], at, pool.storage[..]);
      assert views == seq(capacity, _ => Free);
      NoneHeld(views);
    }

    static method Create(cfg: Config) returns (half: ReceiveHalf)
      ensures half.Valid() && half in half.Repr && fresh(half.Repr) && half.cfg == cfg && half.View() == InitialReceiver(cfg)
    {
      var p := new PacketPool(cfg.rxCapacity);
      half := new ReceiveHalf(cfg, p);
    }

    /** Whether the range shares a byte with a held segment. */
    method OverlapsReceived(start: u32, end: u32) returns (overlaps: bool)
      requires Valid()
      ensures overlaps == Overlaps(View().slots, start, end)
    {
      ghost var views := View().slots;
      for index := 0 to capacity
        invariant forall i :: 0 <= i < index ==> !SlotOverlaps(views[i], start, end)
      {
        assert SlotOk(slots[index], at[index], pool.storage[..], pool.used);
        if slots[index].active && Less(start, slots[index].end) && Less(slots[index].start, end) {
          assert SlotOverlaps(views[index], start, end);
          return true;
        }
      }
      return false;
    }

    method FreeReceiveSlot() returns (n: nat)
      requires Valid()
      ensures n == FreeSlot(View().slots)
    {
      ghost var views := View().slots;
      n := 0;
      while n < capacity && slots[n].active
        invariant n <= capacity && forall i :: 0 <= i < n ==> views[i].Held?
      {
        assert SlotOk(slots[n], at[n], pool.storage[..], pool.used);
        n := n + 1;
      }
      FreeSlotUnique(views, n);
    }

    method FindSlot() returns (n: nat)
      requires Valid()
      ensures n == SlotAt(View().slots, delivery)
    {
      ghost var views := View().slots;
      n := 0;
      while n < capacity && !(slots[n].active && slots[n].start == delivery)
        invariant n <= capacity && forall i :: 0 <= i < n ==> !(views[i].Held? && Wrap(views[i].at) == delivery)
      {
        assert SlotOk(slots[n], at[n], pool.storage[..], pool.used);
        n := n + 1;
      }
      if n < capacity {
        assert SlotOk(slots[n], at[n], pool.storage[..], pool.used);
      }
      SlotAtUnique(views, delivery, n);
    }

    /** Gives the buffer of slot i back and frees the slot. */
    method ClearSlot(i: nat)
      requires Valid() && i < capacity && slots[i].active
      modifies slots, pool.Repr
      ensures Valid() && View() == old(View()).(slots := old(View()).slots[i := Free])
    {
      ghost var before, storage, used := slots[..capacity], pool.storage[..], pool.used;
      var slot := slots[i];
      assert SlotOk(slot, at[i], storage, used);
      var ok := pool.Release(slot.buffer);
      if !ok {
        assert false;  // the slot owns a buffer in use, so the pool never refuses it
      }
      slots[i] := slot.(active := false);
      assert slots[..capacity] == before[i := slot.(active := false)];
      ReleasedSlot(before, at, storage, used, i, slot.(active := false), pool.storage[..]);
    }

    /** Hands over the segment in slot i. */
    method DeliverSlot(i: nat)
      requires Valid() && i < capacity && slots[i].active
      modifies Repr
      ensures Valid() && View() == DeliverOne(old(View()), i)
    {
      hide PacketPool.Valid, OwnsSlots, Canonical;
      assert SlotOk(slots[i], at[i], pool.storage[..], pool.used);
      var bytes := pool.storage[slots[i].buffer];
      var end := slots[i].end;
      ClearSlot(i);
      delivered := delivered + [bytes];
      bytesReceived := bytesReceived + |bytes|;
      delivery := end;
    }

    method DeliverContiguous()
      requires Valid()
      modifies Repr
      ensures Valid() && View() == Deliver(old(View()))
    {
      hide PacketPool.Valid, OwnsSlots, Canonical;
      ghost var goal := Deliver(View());
      var i := FindSlot();
      while i < capacity
        invariant Valid() && i == SlotAt(View().slots, delivery) && Deliver(View()) == goal
        decreases HeldCount(View().slots)
      {
        DeliverSlot(i);
        i := FindSlot();
      }
    }

    /** Puts a payload into a free slot, in a buffer that was just taken from the pool. */
    method FillSlot(f: nat, start: u32, end: u32, payload: seq<u8>, buffer: int, ghost position: int, ghost owned: set<int>)
      requires Shape() && Owned(owned) && pool.used == owned + {buffer} && buffer !in owned
      requires f < capacity && !slots[f].active
      requires start == Wrap(position) && end == Wrap(position + |payload|)
      modifies this`at, slots, pool.storage
      ensures Valid() && Views() == old(Views())[f := Held(position, payload)]
    {
      hide ExactlyFree, OwnsSlots;
      ghost var before, storage := slots[..capacity], pool.storage[..];
      pool.Fill(buffer, payload);
      var filled := ReceiveSlot(start, end, buffer, true);
      FilledSlot(before, at, storage, owned, f, filled, position, pool.storage[..]);
      slots[f] := filled;
      assert slots[..capacity] == before[f := filled];
      at := at[f := position];
    }

    method TakeBuffer() returns (buffer: int)
      requires Valid()
      modifies pool.Repr
      ensures Shape() && Owned(old(pool.used)) && Views() == old(Views())
      ensures buffer == NO_BUFFER <==> old(pool.available) == 0
      ensures buffer == NO_BUFFER ==> pool.used == old(pool.used)
      ensures buffer != NO_BUFFER ==> pool.used == old(pool.used) + {buffer} && buffer !in old(pool.used)
    {
      ghost var storage := pool.storage[..];
      buffer := pool.Acquire();
      SameOwned(slots[..capacity], at, storage, pool.storage[..], old(pool.used));
    }

    method ReturnBuffer(buffer: int, ghost owned: set<int>)
      requires Shape() && Owned(owned) && pool.used == owned + {buffer} && buffer !in owned
      modifies pool.Repr
      ensures Valid() && Views() == old(Views())
    {
      ghost var storage := pool.storage[..];
      var ok := pool.Release(buffer);
      assert pool.used == owned;
      SameOwned(slots[..capacity], at, storage, pool.storage[..], owned);
    }

    method ReturnIfTaken(buffer: int, ghost owned: set<int>)
      requires Shape() && Owned(owned)
      requires if buffer == NO_BUFFER then pool.used == owned else pool.used == owned + {buffer} && buffer !in owned
      modifies pool.Repr
      ensures Valid() && Views() == old(Views())
    {
      if buffer != NO_BUFFER {
        ReturnBuffer(buffer, owned);
      }
    }

    /** Takes a buffer, records the range, and stores the payload; undoes what it took if any of this fails. */
    method Store(f: nat, start: u32, end: u32, payload: seq<u8>) returns (stored: bool)
      requires Valid() && f == FreeSlot(View().slots) && end == Wrap(start + |payload|)
      modifies Repr
      ensures Valid()
      ensures stored == (f < capacity && FreeReceiveBuffers(cfg, old(View())) != 0
                         && Inserted(old(View()).ranges, capacity, start, end).0 == Accepted)
      ensures View() == if stored then ConnectionModel.Stored(old(View()), Inserted(old(View()).ranges, capacity, start, end).1, start, payload)
                        else old(View())
    {
      stored := Attempt(f, start, end, payload);
    }

    /** The same, told field by field. */
    method Attempt(f: nat, start: u32, end: u32, payload: seq<u8>) returns (stored: bool)
      requires Valid() && f <= capacity && (f < capacity ==> !slots[f].active) && end == Wrap(start + |payload|)
      modifies Repr
      ensures Valid() && delivery == old(delivery) && bytesReceived == old(bytesReceived) && delivered == old(delivered)
      ensures stored == (f < capacity && old(pool.available) != 0 && Inserted(old(ranges.view), capacity, start, end).0 == Accepted)
      ensures ranges.view == if stored then Inserted(old(ranges.view), capacity, start, end).1 else old(ranges.view)
      ensures Views() == if stored then old(Views())[f := Held(Low(old(ranges.view), start), payload)] else old(Views())
    {
      hide OwnsSlots, ExactlyFree, Low;
      ghost var owned := pool.used;
      var buffer := TakeBuffer();
      if f == capacity || buffer == NO_BUFFER {
        ReturnIfTaken(buffer, owned);
        return false;
      }
      stored := Record(f, start, end, payload, buffer, owned);
    }

    /** Records the range, and stores the payload in the buffer or gives the buffer back. */
    method Record(f: nat, start: u32, end: u32, payload: seq<u8>, buffer: int, ghost owned: set<int>) returns (stored: bool)
      requires Shape() && Owned(owned) && pool.used == owned + {buffer} && buffer !in owned
      requires f < capacity && !slots[f].active && end == Wrap(start + |payload|)
      modifies Repr
      ensures Valid() && delivery == old(delivery) && bytesReceived == old(bytesReceived) && delivered == old(delivered)
      ensures (if stored then Accepted else Inserted(old(ranges.view), capacity, start, end).0, ranges.view)
           == Inserted(old(ranges.view), capacity, start, end)
      ensures stored == (Inserted(old(ranges.view), capacity, start, end).0 == Accepted)
      ensures Views() == if stored then old(Views())[f := Held(Low(old(ranges.view), start), payload)] else old(Views())
    {
      hide OwnsSlots, SlotOk, ExactlyFree;
      ghost var position := Low(ranges.view, start);
      WrapAdd(position, |payload|);
      var result := ranges.Insert(start, end);
      assert Shape() && Owned(owned);
      if result.status != Accepted {
        ReturnBuffer(buffer, owned);
        return false;
      }
      FillSlot(f, start, end, payload, buffer, position, owned);
      return true;
    }

    method ProcessPayload(start: u32, payload: seq<u8>) returns (result: PayloadOutcome)
      requires Valid()
      modifies Repr
      ensures Valid()
      ensures result == PayloadResult(cfg, old(View()), start, payload)
      ensures View() == ConnectionModel.ProcessPayload(cfg, old(View()), start, payload)
    {
      if payload == [] {
        return Ignored;
      }
      var end := Wrap(start + |payload|);
      var overlaps := OverlapsReceived(start, end);
      if LessEqual(end, delivery) || overlaps {
        return Refused;
      }
      if |payload| > PACKET_BUFFER_BYTES {
        return Oversized;
      }
      var f := FreeReceiveSlot();
      var stored := Store(f, start, end, payload);
      if !stored {
        return Refused;
      }
      DeliverContiguous();
      return Taken;
    }

    /** The bytes there is still buffer space for, as far as the header field goes. */
    method AdvertisedWindow() returns (window: u16)
      requires Valid()
      ensures window == ConnectionModel.AdvertisedWindow(cfg, View())
    {
      var bytes := pool.available * SegmentLimit(cfg);
      window := Min(bytes, TWO_16 - 1);
    }

    /** Teardown: every buffer goes back to the pool. */
    method TearDown()
      requires Valid()
      modifies Repr
      ensures Valid() && pool.used == {} && pool.available == pool.capacity
    {
      for index := 0 to capacity
        invariant Valid()
        invariant forall i :: 0 <= i < index ==> Views()[i].Free?
      {
        if slots[index].active {
          ghost var views := View().slots;
          ClearSlot(index);
          assert View().slots == views[index := Free];
        }
      }
      NoneHeld(Views());
    }
  }
}
