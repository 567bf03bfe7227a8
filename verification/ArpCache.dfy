/** The ARP cache: a fixed array of entries that behaves like a map from addresses to bindings. */
module ArpCache {
  import opened Numbers
  import opened SlotMap

  type Mac = m: seq<u8> | |m| == 6 witness [0, 0, 0, 0, 0, 0]

  datatype CacheEntry = CacheEntry(address: u32, hardware: Mac, expiresAt: u64, valid: bool, refreshRequested: bool)

  datatype Binding = Binding(hardware: Mac, expiresAt: u64, refreshRequested: bool)

  /** A point in time after an interval, at most the last one. */
  function Later(now: u64, interval: u64): u64 {
    Min(now + interval, TWO_64 - 1)
  }

  /** The bindings that have not expired. */
  function Live(t: map<u32, Binding>, now: u64): map<u32, Binding> {
    map address | address in t && now < t[address].expiresAt :: t[address]
  }

  function LookedUp(t: map<u32, Binding>, address: u32, now: u64): (Option<Mac>, map<u32, Binding>) {
    if address !in t then (None, t)
    else if now >= t[address].expiresAt then (None, t - {address})
    else (Some(t[address].hardware), t)
  }

  function Learned(t: map<u32, Binding>, capacity: nat, address: u32, hardware: Mac, now: u64, ttl: u64): (bool, map<u32, Binding>) {
    var live := Live(t, now);
    if address in live || |live| < capacity
    then (true, live[address := Binding(hardware, Later(now, ttl), false)])
    else (false, live)
  }

  /** A binding that was learned is found until it expires, and no longer. */
  lemma LearnedIsFound(t: map<u32, Binding>, capacity: nat, address: u32, hardware: Mac, now: u64, ttl: u64, later: u64)
    requires Learned(t, capacity, address, hardware, now, ttl).0
    ensures var t' := Learned(t, capacity, address, hardware, now, ttl).1;
            && LookedUp(t', address, later).0 == (if later < Min(now + ttl, TWO_64 - 1) then Some(hardware) else None)
            && forall other :: other != address ==> LookedUp(t', other, now) == (LookedUp(t, other, now).0, t')
  {
    var t' := Learned(t, capacity, address, hardware, now, ttl).1;
    forall other | other != address ensures LookedUp(t', other, now) == (LookedUp(t, other, now).0, t') {
      assert other in t' <==> other in Live(t, now);
    }
  }

  // ---- The entries ----

  function EntryOf(e: CacheEntry): Option<Entry<u32, Binding>> {
    if e.valid then Some(Entry(e.address, Binding(e.hardware, e.expiresAt, e.refreshRequested))) else None
  }

  function View(entries: seq<CacheEntry>): (view: SlotView<u32, Binding>)
    ensures |view| == |entries| && forall i :: 0 <= i < |entries| ==> view[i] == EntryOf(entries[i])
  {
    seq(|entries|, i requires 0 <= i < |entries| => EntryOf(entries[i]))
  }

  function Refreshed(e: CacheEntry, now: u64): CacheEntry {
    if e.valid && now >= e.expiresAt then e.(valid := false) else e
  }

  lemma ExpiredView(entries: seq<CacheEntry>, after: seq<CacheEntry>, t: map<u32, Binding>, now: u64)
    requires Indexed(View(entries), t)
    requires |after| == |entries| && forall i :: 0 <= i < |entries| ==> after[i] == Refreshed(entries[i], now)
    ensures Indexed(View(after), Live(t, now))
  {
    IndexedFiltered(View(entries), View(after), t, Live(t, now));
  }

  class Cache {
    var entries: seq<CacheEntry>
    const ttl: u64
    ghost var table: map<u32, Binding>

    ghost predicate Valid()
      reads this
    {
      Indexed(View(entries), table)
    }

    constructor (capacity: nat, ttl: u64)
      ensures Valid() && table == map[] && |entries| == capacity && this.ttl == ttl
    {
      entries := seq(capacity, _ => CacheEntry(0, [0, 0, 0, 0, 0, 0], 0, false, false));
      this.ttl := ttl;
      table := map[];
    }

    method Expire(now: u64)
      requires Valid()
      modifies this
      ensures Valid() && |entries| == |old(entries)| && table == Live(old(table), now)
    {
      for i := 0 to |entries|
        invariant |entries| == |old(entries)| && table == old(table)
        invariant forall k :: 0 <= k < i ==> entries[k] == Refreshed(old(entries)[k], now)
        invariant forall k :: i <= k < |entries| ==> entries[k] == old(entries)[k]
      {
        if entries[i].valid && now >= entries[i].expiresAt {
          entries := entries[i := entries[i].(valid := false)];
        }
      }
      ExpiredView(old(entries), entries, table, now);
      table := Live(table, now);
    }

    method Lookup(address: u32, now: u64) returns (hardware: Option<Mac>)
      requires Valid()
      modifies this
      ensures Valid() && |entries| == |old(entries)| && (hardware, table) == LookedUp(old(table), address, now)
    {
      for i := 0 to |entries|
        invariant entries == old(entries) && table == old(table)
        invariant forall k :: 0 <= k < i ==> !HeldAt(View(entries), k, address)
      {
        if !entries[i].valid || entries[i].address != address {
          continue;
        }
        assert View(entries)[i] == EntryOf(entries[i]);
        if now >= entries[i].expiresAt {
          IndexedFreed(View(entries), table, i);
          ghost var view := View(entries)[i := None];
          entries := entries[i := entries[i].(valid := false)];
          assert View(entries) == view;
          table := table - {address};
          return None;
        }
        return Some(entries[i].hardware);
      }
      assert address in table ==> Held(View(entries), address);
      return None;
    }

    method Insert(address: u32, hardware: Mac, now: u64) returns (ok: bool)
      requires Valid()
      modifies this
      ensures Valid() && |entries| == |old(entries)| && (ok, table) == Learned(old(table), |entries|, address, hardware, now, ttl)
    {
      Expire(now);
      var available, index := Place(address);
      if !available {
        return false;
      }
      ghost var e := Entry(address, Binding(hardware, Later(now, ttl), false));
      IndexedSet(View(entries), table, index, e);
      ghost var view := View(entries)[index := Some(e)];
      entries := entries[index := CacheEntry(address, hardware, Later(now, ttl), true, false)];
      assert View(entries) == view;
      table := table[address := e.value];
      return true;
    }

    /** The entry of the address, or else the first free one. */
    method Place(address: u32) returns (available: bool, index: nat)
      requires Valid()
      ensures available == (address in table || |table| < |entries|)
      ensures available ==> index < |entries|
      ensures available ==> if entries[index].valid then entries[index].address == address else address !in table
    {
      FullIsNoFreeSlot(View(entries), table);
      available, index := false, 0;
      for i := 0 to |entries|
        invariant forall k :: 0 <= k < i ==> !HeldAt(View(entries), k, address)
        invariant if available then index < |entries| && !entries[index].valid else forall k :: 0 <= k < i ==> entries[k].valid
      {
        assert View(entries)[i] == EntryOf(entries[i]);
        if entries[i].valid && entries[i].address == address {
          return true, i;
        }
        if !entries[i].valid && !available {
          available, index := true, i;
        }
      }
      assert address in table ==> Held(View(entries), address);
      assert available ==> View(entries)[index].None?;
    }

    /** Notes that a refresh of the binding has been asked for. */
    method MarkRefresh(index: nat)
      requires Valid() && index < |entries| && entries[index].valid
      modifies this
      ensures Valid() && |entries| == |old(entries)|
      ensures entries == old(entries)[index := old(entries)[index].(refreshRequested := true)]
      ensures var address := old(entries)[index].address;
              address in old(table) && table == old(table)[address := old(table)[address].(refreshRequested := true)]
    {
      ghost var address := entries[index].address;
      ghost var binding := Binding(entries[index].hardware, entries[index].expiresAt, true);
      assert View(entries)[index] == EntryOf(entries[index]);
      IndexedSet(View(entries), table, index, Entry(address, binding));
      ghost var view := View(entries)[index := Some(Entry(address, binding))];
      entries := entries[index := entries[index].(refreshRequested := true)];
      assert View(entries) == view;
      table := table[address := binding];
    }
  }
}
