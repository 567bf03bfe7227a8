/** The reassembly table: a fixed array of slots that behaves like a map from datagram keys to datagrams. */
module ReassemblyTable {
  import opened Numbers
  import opened Ipv4
  import opened ReassemblyModel
  import opened SlotMap
  import opened ReassemblySlot

  type View = SlotView<Key, Datagram>

  /** A datagram that was started for the fragment leaves no other trace. */
  lemma InsertAtNew(t: map<Key, Datagram>, key: Key, d: Datagram, f: Fragment, callback: Callback, start: Datagram)
    requires callback.Callback?
    ensures InsertAt(t[key := start], key, d, f, callback) == InsertAt(t, key, d, f, callback)
  {
    assert t[key := start] - {key} == t - {key};
    assert t[key := start][key := Merged(d, f)] == t[key := Merged(d, f)];
  }

  /** The first `n` slots have been swept. */
  ghost predicate SweptTo(before: map<Key, Datagram>, table: map<Key, Datagram>, view: View, n: nat, timeout: u64, now: u64) {
    && (forall key :: key in table ==> key in before && table[key] == before[key])
    && (forall key :: key in before && key !in table ==> TimedOut(before[key], timeout, now))
    && (forall i :: 0 <= i < n && i < |view| && view[i].Some? ==> !TimedOut(view[i].value.value, timeout, now))
  }

  ghost predicate Expired(entry: Option<Entry<Key, Datagram>>, timeout: u64, now: u64) {
    entry.Some? && TimedOut(entry.value.value, timeout, now)
  }

  lemma SweptStep(before: map<Key, Datagram>, table: map<Key, Datagram>, view: View, i: nat, timeout: u64, now: u64)
    requires SweptTo(before, table, view, i, timeout, now) && i < |view|
    requires view[i].Some? ==> view[i].value.key in table && table[view[i].value.key] == view[i].value.value
    ensures if Expired(view[i], timeout, now)
            then SweptTo(before, table - {view[i].value.key}, view[i := None], i + 1, timeout, now) && |table - {view[i].value.key}| == |table| - 1
            else SweptTo(before, table, view, i + 1, timeout, now)
  {
    if Expired(view[i], timeout, now) {
      var key := view[i].value.key;
      var table', view' := table - {key}, view[i := None];
      assert key in table && table[key] == view[i].value.value && before[key] == table[key];
      assert table.Keys == table'.Keys + {key};
      forall k | k in before && k !in table' ensures TimedOut(before[k], timeout, now) {
        assert k !in table || k == key;
      }
      forall j | 0 <= j < i + 1 && view'[j].Some? ensures !TimedOut(view'[j].value.value, timeout, now) {
        assert j < i && view'[j] == view[j];
      }
    }
  }

  lemma SweptAll(before: map<Key, Datagram>, table: map<Key, Datagram>, view: View, timeout: u64, now: u64)
    requires SweptTo(before, table, view, |view|, timeout, now) && Indexed(view, table)
    ensures table == Swept(before, timeout, now)
  {
    forall key | key in table ensures !TimedOut(table[key], timeout, now) {
      assert Held(view, key);
      var i :| HeldAt(view, i, key);
    }
  }

  ghost function EntryOf(s: Slot): Option<Entry<Key, Datagram>>
    reads s
  {
    if s.active then Some(Entry(s.key, s.datagram)) else None
  }

  twostate lemma StillValid(s: Slot)
    requires old(s.Valid()) && unchanged(s, s.data, s.holes)
    ensures s.Valid() && EntryOf(s) == old(EntryOf(s))
  {
  }

  class Table {
    const slots: seq<Slot>
    const timeout: u64
    ghost var table: map<Key, Datagram>

    /** The slots share nothing. */
    ghost predicate Separate() {
      forall i, j :: 0 <= i < |slots| && 0 <= j < |slots| && i != j ==> Apart(slots[i], slots[j])
    }

    static ghost predicate Apart(a: Slot, b: Slot) {
      a != b && a.data != b.data && a.holes != b.holes
    }

    ghost function Arrays(): set<object> {
      (set s | s in slots :: s.data as object) + (set s | s in slots :: s.holes as object)
    }

    ghost function View(): (view: View)
      reads slots
      ensures |view| == |slots|
      ensures forall i :: 0 <= i < |slots| ==> view[i] == EntryOf(slots[i])
    {
      seq(|slots|, i requires 0 <= i < |slots| reads slots => EntryOf(slots[i]))
    }

    ghost predicate AllValid()
      reads slots, Arrays()
    {
      forall i :: 0 <= i < |slots| ==> slots[i].Valid()
    }

    ghost predicate Valid()
      reads this, slots, Arrays()
    {
      Separate() && AllValid() && Indexed(View(), table)
    }

    /** One slot changed and is valid; all the others are as they were. */
    twostate lemma OneChanged(index: nat)
      requires index < |slots| && Separate() && old(AllValid()) && slots[index].Valid()
      requires forall i :: 0 <= i < |slots| && i != index ==> unchanged(slots[i], slots[i].data, slots[i].holes)
      ensures AllValid() && View() == old(View())[index := EntryOf(slots[index])]
    {
      forall i | 0 <= i < |slots| && i != index ensures slots[i].Valid() && EntryOf(slots[i]) == old(EntryOf(slots[i])) {
        StillValid(slots[i]);
      }
    }

    constructor (capacity: nat, timeout: u64)
      ensures Valid() && table == map[] && |slots| == capacity && this.timeout == timeout
      ensures fresh(slots) && fresh(Arrays())
    {
      var made: seq<Slot> := [];
      while |made| < capacity
        invariant |made| <= capacity && fresh(made)
        invariant forall i :: 0 <= i < |made| ==> made[i].Valid() && !made[i].active && fresh(made[i].data) && fresh(made[i].holes)
        invariant forall i, j :: 0 <= i < |made| && 0 <= j < |made| && i != j ==> Apart(made[i], made[j])
      {
        var slot := new Slot();
        made := made + [slot];
      }
      slots := made;
      this.timeout := timeout;
      table := map[];
    }

    /** The slot of the key, or the first free one, or neither. */
    method Find(key: Key) returns (found: bool, available: bool, index: nat)
      ensures found ==> HeldAt(View(), index, key)
      ensures !found ==> forall i :: !HeldAt(View(), i, key)
      ensures !found && available ==>
                index < |slots| && View()[index].None? && forall i :: 0 <= i < index ==> View()[i].Some?
      ensures !found && !available ==> forall i :: 0 <= i < |slots| ==> View()[i].Some?
    {
      found, available, index := false, false, 0;
      for i := 0 to |slots|
        invariant !found
        invariant forall k :: 0 <= k < i ==> !HeldAt(View(), k, key)
        invariant available ==> index < |slots| && View()[index].None? && forall k :: 0 <= k < index ==> View()[k].Some?
        invariant !available ==> forall k :: 0 <= k < i ==> View()[k].Some?
      {
        if slots[i].active && slots[i].key == key {
          return true, false, i;
        }
        if !slots[i].active && !available {
          available, index := true, i;
        }
      }
    }

    /** Frees a slot, whatever state its datagram is in. */
    method Free(index: nat)
      requires index < |slots| && slots[index].active && Valid()
      modifies this`table, slots[index]
      ensures Valid() && View() == old(View())[index := None] && table == old(table) - {old(slots[index].key)}
    {
      IndexedFreed(View(), table, index);
      slots[index].Release();
      table := table - {slots[index].key};
      OneChanged(index);
    }

    /** Takes a free slot for a new datagram. */
    method StartAt(index: nat, key: Key, now: u64)
      requires Valid() && index < |slots| && !slots[index].active && key !in table
      modifies this`table, slots[index], slots[index].holes
      ensures Valid() && HeldAt(View(), index, key) && table == old(table)[key := NewDatagram(now)]
    {
      IndexedSet(View(), table, index, Entry(key, NewDatagram(now)));
      slots[index].Start(key, now);
      table := table[key := NewDatagram(now)];
      OneChanged(index);
    }

    /** Receives a fragment in a slot. */
    method AcceptAt(index: nat, f: Fragment) returns (ok: bool)
      requires Valid() && index < |slots| && slots[index].active && FragmentOk(f) && f.payload != [] && f.offset % 8 == 0
      modifies this`table, slots[index], slots[index].data, slots[index].holes
      ensures Valid() && slots[index].active && slots[index].key == old(slots[index].key)
      ensures table == old(table)[slots[index].key := slots[index].datagram]
      ensures ok == Consistent(old(slots[index].datagram), f)
      ensures slots[index].datagram == if ok then Merged(old(slots[index].datagram), f) else old(slots[index].datagram)
    {
      var copied;
      ok, copied := slots[index].Accept(f);
      ghost var e := Entry(slots[index].key, slots[index].datagram);
      IndexedSet(old(View()), table, index, e);
      table := table[e.key := e.value];
      OneChanged(index);
    }

    /** Delivers the datagram of a slot if it is complete. */
    method TakeComplete(index: nat) returns (done: bool, payload: seq<u8>)
      requires Valid() && index < |slots| && slots[index].active
      modifies this`table, slots[index]
      ensures Valid() && done == IsComplete(old(slots[index].datagram))
      ensures done ==> payload == Payload(old(slots[index].datagram))
      ensures table == if done then old(table) - {old(slots[index].key)} else old(table)
    {
      payload := [];
      done := slots[index].IsDone();
      if done {
        payload := slots[index].Bytes();
        Free(index);
      }
    }

    /** A fragment arrives for the datagram of a slot. */
    method InsertInto(index: nat, f: Fragment, callback: Callback) returns (outcome: Outcome)
      requires Valid() && index < |slots| && slots[index].active && FragmentOk(f) && f.payload != [] && f.offset % 8 == 0
      requires callback.Callback?
      modifies this`table, slots[index], slots[index].data, slots[index].holes
      ensures Valid()
      ensures (outcome, table) == InsertAt(old(table), old(slots[index].key), old(slots[index].datagram), f, callback)
    {
      hide Merged, Consistent, FragmentOk, Payload, IsComplete, Delivered;
      ghost var key := slots[index].key;
      var ok := AcceptAt(index, f);
      ghost var d' := slots[index].datagram;
      assert old(table)[key := d'] - {key} == old(table) - {key};
      if !ok {
        Free(index);
        return Malformed;
      }
      var done, payload := TakeComplete(index);
      return if done then Delivered(callback, payload) else Pending;
    }

    /** A fragment arrives. */
    method Insert(header: Ipv4Header, payload: seq<u8>, now: u64, callback: Callback) returns (outcome: Outcome)
      requires Valid()
      modifies this`table, slots, Arrays()
      ensures Valid()
      ensures (outcome, table)
           == ReassemblyModel.Insert(old(table), |slots|, KeyOf(header), FragmentOf(header, payload), now, callback)
    {
      if callback.NoCallback? {
        return Malformed;
      }
      var f := FragmentOf(header, payload);
      if !FragmentOk(f) {
        return Malformed;
      }
      if f.offset == 0 && !f.more {
        return Delivered(callback, payload);
      }
      outcome := InsertFragment(KeyOf(header), f, now, callback);
    }

    /** A proper fragment arrives, not a whole datagram. */
    method InsertFragment(key: Key, f: Fragment, now: u64, callback: Callback) returns (outcome: Outcome)
      requires Valid() && callback.Callback? && FragmentOk(f) && f.offset % 8 == 0 && !(f.offset == 0 && !f.more)
      modifies this`table, slots, Arrays()
      ensures Valid() && (outcome, table) == ReassemblyModel.Insert(old(table), |slots|, key, f, now, callback)
    {
      var ok, index := FindOrCreate(key, now);
      if !ok {
        return TableFull;
      }
      InsertAtNew(old(table), key, slots[index].datagram, f, callback, NewDatagram(now));
      outcome := InsertInto(index, f, callback);
    }

    /** The slot of the key; a free one is taken if there is none. */
    method FindOrCreate(key: Key, now: u64) returns (ok: bool, index: nat)
      requires Valid()
      modifies this`table, slots, Arrays()
      ensures Valid() && ok == (key in old(table) || |old(table)| < |slots|)
      ensures ok ==> HeldAt(View(), index, key) && slots[index].datagram == Found(old(table), key, now)
      ensures table == if ok && key !in old(table) then old(table)[key := NewDatagram(now)] else old(table)
    {
      var found, available;
      found, available, index := Find(key);
      FullIsNoFreeSlot(View(), table);
      assert key in table ==> Held(View(), key);
      if found {
        return true, index;
      }
      if !available {
        return false, 0;
      }
      StartAt(index, key, now);
      return true, index;
    }

    method SweepSlot(i: nat, now: u64, ghost before: map<Key, Datagram>) returns (expired: bool)
      requires Valid() && i < |slots| && SweptTo(before, table, View(), i, timeout, now)
      modifies this`table, slots[i]
      ensures Valid() && SweptTo(before, table, View(), i + 1, timeout, now)
      ensures |table| == |old(table)| - if expired then 1 else 0
    {
      var slot := slots[i];
      SweptStep(before, table, View(), i, timeout, now);
      expired := slot.active && now >= slot.createdAt && now - slot.createdAt >= timeout;
      assert expired == Expired(View()[i], timeout, now);
      if expired {
        Free(i);
      }
    }

    /** Forgets the datagrams that have been waiting too long. */
    method Sweep(now: u64) returns (expired: nat)
      requires Valid()
      modifies this`table, slots
      ensures Valid() && table == Swept(old(table), timeout, now) && expired == |old(table)| - |table|
    {
      expired := 0;
      for i := 0 to |slots|
        invariant Valid() && SweptTo(old(table), table, View(), i, timeout, now)
        invariant expired == |old(table)| - |table|
      {
        var gone := SweepSlot(i, now, old(table));
        if gone {
          expired := expired + 1;
        }
      }
      SweptAll(old(table), table, View(), timeout, now);
    }
  }
}
