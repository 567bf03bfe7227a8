/**
 The fixed pool of packet buffers.  A buffer is named by its index in the
 storage; a handle that is no index stands for a null or foreign pointer.
 */
module PacketPool {
  import opened Numbers

  const PACKET_BUFFER_BYTES: nat := 2048

  /** The null pointer. */
  const NO_BUFFER: int := -1

  ghost predicate Distinct<T(!new)>(s: seq<T>) {
    forall i, j :: 0 <= i < j < |s| ==> s[i] != s[j]
  }

  /** The stack holds every buffer that is not in use, once, and nothing else. */
  ghost predicate ExactlyFree(free: seq<nat>, inUse: seq<bool>) {
    && Distinct(free)
    && (forall k :: k in free ==> k < |inUse|)
    && (forall k :: 0 <= k < |inUse| ==> (inUse[k] <==> k !in free))
  }

  lemma PopFree(free: seq<nat>, inUse: seq<bool>)
    requires ExactlyFree(free, inUse) && free != []
    ensures var top := free[|free| - 1];
            top < |inUse| && !inUse[top] && ExactlyFree(free[..|free| - 1], inUse[top := true])
  {
    var top, rest := free[|free| - 1], free[..|free| - 1];
    assert top in free && free == rest + [top];
    assert forall k :: k in free <==> k in rest || k == top;
  }

  lemma PushFree(free: seq<nat>, inUse: seq<bool>, buffer: nat)
    requires ExactlyFree(free, inUse) && buffer < |inUse| && inUse[buffer]
    ensures ExactlyFree(free + [buffer], inUse[buffer := false])
  {
    assert forall k :: k in free + [buffer] <==> k in free || k == buffer;
  }

  class PacketPool {
    /** The filled part of every buffer. */
    const storage: array<seq<u8>>
    const freelist: array<nat>
    const inUse: array<bool>
    const capacity: nat
    var available: nat
    var acquired: nat
    var released: nat
    var exhausted: nat
    var invalidRelease: nat
    /** The buffers that are out. */
    ghost var used: set<int>

    ghost const Repr: set<object>

    ghost predicate Valid()
      reads this, Repr
    {
      && Repr == {this, storage, freelist, inUse}
      && storage.Length == freelist.Length == inUse.Length == capacity
      && available <= capacity
      && ExactlyFree(freelist[..available], inUse[..])
      && (forall k :: k in used <==> 0 <= k < capacity && inUse[k])
      && |used| + available == capacity
      && released + |used| == acquired
    }

    constructor (size: nat)
      ensures Valid() && fresh(Repr)
      ensures capacity == available == size && used == {}
    {
      var s := new seq<u8>[size](_ => []);
      var f := new nat[size](i => if i < size then size - i - 1 else 0);
      var u := new bool[size](_ => false);
      storage, freelist, inUse := s, f, u;
      capacity, available := size, size;
      acquired, released, exhausted, invalidRelease, used := 0, 0, 0, 0, {};
      Repr := {this, s, f, u};
      new;
      forall k | 0 <= k < size ensures k in freelist[..size] {
        assert freelist[..size][size - k - 1] == k;
      }
    }

    method Acquire() returns (buffer: int)
      requires Valid()
      modifies Repr
      ensures Valid() && invalidRelease == old(invalidRelease)
      ensures old(available) == 0 ==> buffer == NO_BUFFER && used == old(used) && available == 0
      ensures old(available) > 0 ==> 0 <= buffer < capacity && buffer !in old(used) && used == old(used) + {buffer}
                                     && storage[buffer] == [] && available == old(available) - 1
      ensures forall k :: k in old(used) ==> storage[k] == old(storage[k])
    {
      if available == 0 {
        exhausted := exhausted + 1;
        return NO_BUFFER;
      }
      ghost var before := freelist[..available];
      available := available - 1;
      var index := freelist[available];
      PopFree(before, inUse[..]);
      assert freelist[..available] == before[..available];
      ghost var marks := inUse[..][index := true];
      inUse[index] := true;
      assert inUse[..] == marks;
      storage[index] := [];
      acquired := acquired + 1;
      used := used + {index};
      return index;
    }

    /** Takes a buffer back; a handle that names no buffer in use is refused and changes nothing. */
    method Release(buffer: int) returns (ok: bool)
      requires Valid()
      modifies Repr
      ensures Valid() && ok == (buffer in old(used))
      ensures ok ==> used == old(used) - {buffer} && available == old(available) + 1 && invalidRelease == old(invalidRelease)
      ensures !ok ==> used == old(used) && available == old(available) && invalidRelease == old(invalidRelease) + 1
      ensures forall k :: k in used ==> storage[k] == old(storage[k])
    {
      if !(0 <= buffer < capacity) || !inUse[buffer] {
        invalidRelease := invalidRelease + 1;
        return false;
      }
      assert |used - {buffer}| == |used| - 1;
      ghost var before := freelist[..available];
      ghost var marks := inUse[..][buffer := false];
      PushFree(before, inUse[..], buffer);
      storage[buffer] := [];
      inUse[buffer] := false;
      assert inUse[..] == marks;
      freelist[available] := buffer;
      assert freelist[..available + 1] == before + [buffer];
      available := available + 1;
      released := released + 1;
      used := used - {buffer};
      return true;
    }

    /** Fills a buffer that is out. */
    method Fill(buffer: nat, bytes: seq<u8>)
      requires Valid() && buffer in used
      modifies storage
      ensures Valid() && used == old(used) && available == old(available)
      ensures storage[buffer] == bytes
      ensures forall k :: k in used && k != buffer ==> storage[k] == old(storage[k])
    {
      storage[buffer] := bytes;
    }
  }
}
