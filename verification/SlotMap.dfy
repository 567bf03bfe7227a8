/** Fixed arrays of slots that serve as maps: every key in use has exactly one slot. */
module SlotMap {

  datatype Option<T> = None | Some(value: T)

  datatype Entry<K, V> = Entry(key: K, value: V)

  /** What the slots hold; a free slot holds nothing. */
  type SlotView<K, V> = seq<Option<Entry<K, V>>>

  /** Where the first free slot is, or the number of slots if there is none. */
  function FirstFree<T>(slots: seq<T>, used: T -> bool): (i: nat)
    ensures i <= |slots| && (i < |slots| ==> !used(slots[i])) && forall j :: 0 <= j < i ==> used(slots[j])
  {
    if slots == [] || !used(slots[0]) then 0 else 1 + FirstFree(slots[1..], used)
  }

  predicate HeldAt<K(==), V>(view: SlotView<K, V>, i: int, key: K) {
    0 <= i < |view| && view[i].Some? && view[i].value.key == key
  }

  ghost predicate Held<K, V>(view: SlotView<K, V>, key: K) {
    exists i :: HeldAt(view, i, key)
  }

  /** The slots in use are the entries of the table, one each. */
  ghost predicate Indexed<K, V>(view: SlotView<K, V>, table: map<K, V>) {
    && (forall i :: 0 <= i < |view| && view[i].Some? ==> view[i].value.key in table && table[view[i].value.key] == view[i].value.value)
    && (forall i, j :: 0 <= i < j < |view| && view[i].Some? && view[j].Some? ==> view[i].value.key != view[j].value.key)
    && (forall key :: key in table ==> Held(view, key))
  }

  /** Freeing exactly the slots whose keys leave the table. */
  lemma IndexedFiltered<K, V>(view: SlotView<K, V>, after: SlotView<K, V>, table: map<K, V>, rest: map<K, V>)
    requires Indexed(view, table) && |after| == |view|
    requires forall i :: 0 <= i < |view| ==>
               after[i] == if view[i].Some? && view[i].value.key in rest then view[i] else None
    requires forall key :: key in rest ==> key in table && rest[key] == table[key]
    ensures Indexed(after, rest)
  {
    forall key | key in rest ensures Held(after, key) {
      var i :| HeldAt(view, i, key);
      assert HeldAt(after, i, key);
    }
  }

  lemma IndexedFreed<K, V>(view: SlotView<K, V>, table: map<K, V>, i: nat)
    requires Indexed(view, table) && i < |view| && view[i].Some?
    ensures Indexed(view[i := None], table - {view[i].value.key})
  {
    var view' := view[i := None];
    forall key | key in table - {view[i].value.key} ensures Held(view', key) {
      assert Held(view, key);
      var j :| HeldAt(view, j, key);
      assert HeldAt(view', j, key);
    }
  }

  lemma IndexedSet<K, V>(view: SlotView<K, V>, table: map<K, V>, i: nat, e: Entry<K, V>)
    requires Indexed(view, table) && i < |view|
    requires if view[i].Some? then view[i].value.key == e.key else e.key !in table
    ensures Indexed(view[i := Some(e)], table[e.key := e.value])
  {
    var view' := view[i := Some(e)];
    forall key | key in table[e.key := e.value] ensures Held(view', key) {
      if key == e.key {
        assert HeldAt(view', i, key);
      } else {
        assert Held(view, key);
        var j :| HeldAt(view, j, key);
        assert HeldAt(view', j, key);
      }
    }
  }

  function KeysOf<K, V>(view: SlotView<K, V>): set<K> {
    if view == [] then {}
    else
      var last := view[|view| - 1];
      KeysOf(view[..|view| - 1]) + if last.Some? then {last.value.key} else {}
  }

  lemma {:induction false} KeysAreHeld<K, V>(view: SlotView<K, V>, key: K)
    ensures key in KeysOf(view) <==> Held(view, key)
    decreases |view|
  {
    if view != [] {
      var init, n := view[..|view| - 1], |view| - 1;
      KeysAreHeld(init, key);
      assert forall i :: HeldAt(init, i, key) <==> HeldAt(view, i, key) && i < n;
      assert HeldAt(view, n, key) <==> view[n].Some? && view[n].value.key == key;
    }
  }

  lemma {:induction false} KeyCount<K, V>(view: SlotView<K, V>)
    requires forall i, j :: 0 <= i < j < |view| && view[i].Some? && view[j].Some? ==> view[i].value.key != view[j].value.key
    ensures |KeysOf(view)| <= |view|
    ensures |KeysOf(view)| == |view| <==> forall i :: 0 <= i < |view| ==> view[i].Some?
    decreases |view|
  {
    if view != [] {
      var init, last := view[..|view| - 1], view[|view| - 1];
      KeyCount(init);
      if last.Some? {
        KeysAreHeld(init, last.value.key);
      }
    }
  }

  /** The table is full exactly when no slot is free. */
  lemma FullIsNoFreeSlot<K, V>(view: SlotView<K, V>, table: map<K, V>)
    requires Indexed(view, table)
    ensures |table| <= |view|
    ensures |table| == |view| <==> forall i :: 0 <= i < |view| ==> view[i].Some?
  {
    KeyCount(view);
    forall key | key in KeysOf(view) ensures key in table.Keys {
      KeysAreHeld(view, key);
      var i :| HeldAt(view, i, key);
    }
    forall key | key in table.Keys ensures key in KeysOf(view) {
      KeysAreHeld(view, key);
    }
    assert KeysOf(view) == table.Keys;
  }
}
