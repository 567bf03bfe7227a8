/** One slot of the reassembly table: a data buffer and the holes in it, edited in place. */
module ReassemblySlot {
  import opened Numbers
  import opened Intervals
  import opened Ipv4
  import opened Holes
  import opened ReassemblyModel
  import opened SlotMap

  function Limit(d: Datagram): nat {
    if d.total.Some? then d.total.value else MAXIMUM_PAYLOAD_BYTES
  }

  /** The holes are exactly the bytes below the limit that have not been received. */
  ghost predicate HolesOk(holes: seq<Run>, bytes: map<int, u8>, limit: nat) {
    && limit <= MAXIMUM_PAYLOAD_BYTES
    && Sorted(-1, holes) && Aligned(holes)
    && (forall x :: In(holes, x) <==> 0 <= x < limit && x !in bytes)
  }

  ghost predicate HighestIs(highest: nat, bytes: map<int, u8>) {
    (forall x :: x in bytes ==> x < highest) && (highest == 0 || highest - 1 in bytes)
  }

  lemma HolesBelowLimit(holes: seq<Run>, bytes: map<int, u8>, limit: nat)
    requires HolesOk(holes, bytes, limit)
    ensures forall i :: 0 <= i < |holes| ==> holes[i].hi <= limit
    ensures |holes| <= 4095 < MAXIMUM_HOLES
  {
    forall i | 0 <= i < |holes| ensures holes[i].hi <= limit {
      RunIn(holes, i, holes[i].hi - 1);
    }
    HoleBound(holes);
  }

  /** Cutting a received range out of the holes. */
  lemma CutKeepsHoles(holes: seq<Run>, bytes: map<int, u8>, limit: nat, f: Fragment)
    requires HolesOk(holes, bytes, limit) && f.payload != [] && f.offset % 8 == 0 && End(f) <= limit
    requires End(f) % 8 == 0 || End(f) == limit
    ensures HolesOk(Cut(holes, f.offset, End(f)), FragmentBytes(f) + bytes, limit)
  {
    HolesBelowLimit(holes, bytes, limit);
    CutSorted(-1, holes, f.offset, End(f));
    CutAligned(-1, holes, f.offset, End(f));
    forall x ensures In(Cut(holes, f.offset, End(f)), x) <==> 0 <= x < limit && x !in FragmentBytes(f) + bytes {
      CutIsDifference(holes, f.offset, End(f), x);
      UnionAt(bytes, f, x);
    }
  }

  /** Learning the length of the datagram. */
  lemma ShortenKeepsHoles(holes: seq<Run>, bytes: map<int, u8>, limit: nat, total: nat)
    requires HolesOk(holes, bytes, limit) && total <= limit
    ensures HolesOk(Shortened(holes, total), bytes, total)
  {
    ShortenedSorted(-1, holes, total);
    ShortenedAligned(-1, holes, total);
    forall x ensures In(Shortened(holes, total), x) <==> 0 <= x < total && x !in bytes {
      ShortenedIs(holes, total, x);
    }
  }

  /** The datagram is complete exactly when no hole is left. */
  lemma CompleteIsNoHole(holes: seq<Run>, d: Datagram)
    requires HolesOk(holes, d.bytes, Limit(d))
    ensures IsComplete(d) <==> d.total.Some? && holes == []
  {
    if holes != [] {
      RunIn(holes, 0, holes[0].lo);
    }
  }

  /** What the copy loop counts is the number of new bytes. */
  lemma OverlapIsNew(holes: seq<Run>, d: Datagram, f: Fragment)
    requires HolesOk(holes, d.bytes, Limit(d)) && End(f) <= Limit(d)
    ensures Overlap(holes, f.offset, End(f)) == NewBytes(d, f)
  {
    OverlapIsMissing(-1, holes, f.offset, End(f));
    assert Missing(holes, f.offset, End(f)) == FragmentBytes(f).Keys - d.bytes.Keys;
  }

  /** The buffer holds the received bytes. */
  ghost predicate Holds(data: seq<u8>, bytes: map<int, u8>) {
    forall x :: x in bytes ==> 0 <= x < |data| && data[x] == bytes[x]
  }

  /** Bytes of the payload have been written where there are holes, and nowhere else. */
  ghost predicate Copied(before: seq<u8>, after: seq<u8>, holes: seq<Run>, begin: nat, payload: seq<u8>) {
    && |after| == |before|
    && (forall x :: 0 <= x < |after| ==>
          after[x] == if begin <= x < begin + |payload| && In(holes, x) then payload[x - begin] else before[x])
  }

  /** One more hole: its part of the range is written as well. */
  lemma CopiedOne(before: seq<u8>, mid: seq<u8>, after: seq<u8>, holes: seq<Run>, hole: Run, begin: nat, payload: seq<u8>)
    requires Copied(before, mid, holes, begin, payload)
    requires Written(mid, after, Max(begin, hole.lo), Min(begin + |payload|, hole.hi), begin, payload)
    ensures Copied(before, after, holes + [hole], begin, payload)
  {
    hide In;
    forall x | 0 <= x < |after| ensures In(holes + [hole], x) <==> In(holes, x) || hole.lo <= x < hole.hi {
      InConcat(holes, [hole], x);
      InOne(hole, x);
    }
  }

  lemma InOne(hole: Run, x: int)
    ensures In([hole], x) <==> hole.lo <= x < hole.hi
  {
    if hole.lo <= x < hole.hi {
      assert [hole][0] == hole;
    }
  }

  /** [from, to) holds bytes of the payload, and the rest is as before. */
  ghost predicate Written(before: seq<u8>, after: seq<u8>, from: int, to: int, begin: nat, payload: seq<u8>)
    requires begin <= from && to <= begin + |payload|
  {
    && |after| == |before|
    && (forall x :: 0 <= x < |after| ==> after[x] == if from <= x < to then payload[x - begin] else before[x])
  }

  lemma ShortenStep(kept: seq<Run>, rest: seq<Run>, total: nat)
    requires rest != []
    ensures kept + Shortened(rest, total)
         == (if rest[0].lo < total then kept + [Run(rest[0].lo, Min(rest[0].hi, total))] else kept) + Shortened(rest[1..], total)
  {
  }

  lemma ShortenedNone(total: nat)
    ensures Shortened([], total) == []
  {
  }

  /** The element at `index` is gone, and those behind it up to `count` have moved one place down. */
  lemma MovedDown<T>(before: seq<T>, after: seq<T>, index: nat, count: nat)
    requires index < count <= |before| == |after|
    requires forall i :: 0 <= i < index ==> after[i] == before[i]
    requires forall i :: index <= i < count - 1 ==> after[i] == before[i + 1]
    ensures after[..count - 1] == before[..index] + before[index + 1..count]
  {
  }

  /** The elements from `index` to `count` have moved one place up. */
  lemma MovedUp<T>(before: seq<T>, after: seq<T>, index: nat, count: nat)
    requires index <= count < |before| == |after|
    requires forall i :: 0 <= i < index ==> after[i] == before[i]
    requires forall i :: index < i <= count ==> after[i] == before[i - 1]
    ensures after[..index] == before[..index] && after[index + 1..count + 1] == before[index..count]
  {
    forall i | 0 <= i < count - index ensures after[index + 1..count + 1][i] == before[index..count][i] {
      assert after[index + 1 + i] == before[index + 1 + i - 1];
    }
  }

  /** The fields of a slot are those of the datagram. */
  ghost predicate Shows(d: Datagram, data: seq<u8>, holes: seq<Run>, highest: nat, totalKnown: bool, totalLength: nat, createdAt: u64) {
    && HolesOk(holes, d.bytes, Limit(d))
    && Within(d) && d.arrived == |d.bytes| + d.ignored
    && HighestIs(highest, d.bytes)
    && totalKnown == d.total.Some? && (totalKnown ==> totalLength == d.total.value)
    && createdAt == d.createdAt
    && Holds(data, d.bytes)
  }

  lemma ShowsNew(now: u64, data: seq<u8>)
    ensures Shows(NewDatagram(now), data, [Run(0, MAXIMUM_PAYLOAD_BYTES)], 0, false, 0, now)
  {
    var d, all := NewDatagram(now), [Run(0, MAXIMUM_PAYLOAD_BYTES)];
    assert |d.bytes| == 0 && Within(d) && HighestIs(0, d.bytes) && Holds(data, d.bytes);
    assert all[1..] == [];
    assert HolesOk(all, d.bytes, MAXIMUM_PAYLOAD_BYTES);
  }

  lemma CopiedHolds(before: seq<u8>, after: seq<u8>, holes: seq<Run>, d: Datagram, f: Fragment)
    requires HolesOk(holes, d.bytes, Limit(d)) && End(f) <= Limit(d) && |before| == MAXIMUM_PAYLOAD_BYTES
    requires Holds(before, d.bytes) && Copied(before, after, holes, f.offset, f.payload)
    ensures Holds(after, Merged(d, f).bytes)
  {
    forall x | x in Merged(d, f).bytes ensures 0 <= x < |after| && after[x] == Merged(d, f).bytes[x] {
      MergedAt(d, f, x);
    }
  }

  lemma HighestOfMerged(highest: nat, d: Datagram, f: Fragment)
    requires HighestIs(highest, d.bytes) && f.payload != []
    ensures HighestIs(Max(highest, End(f)), Merged(d, f).bytes)
  {
    hide Merged, FragmentBytes;
    var top := Max(highest, End(f));
    forall x | x in Merged(d, f).bytes ensures x < top {
      MergedAt(d, f, x);
    }
    MergedAt(d, f, top - 1);
  }

  lemma EndIsAligned(f: Fragment, limit: nat)
    requires FragmentOk(f) && f.offset % 8 == 0 && (f.more || End(f) == limit)
    ensures End(f) % 8 == 0 || End(f) == limit
  {
  }

  /** What receiving a fragment does to the holes. */
  lemma MergedHoles(holes: seq<Run>, d: Datagram, f: Fragment)
    requires HolesOk(holes, d.bytes, Limit(d)) && End(f) <= Limit(d)
    requires FragmentOk(f) && f.payload != [] && f.offset % 8 == 0 && (!f.more ==> d.total == Some(End(f)))
    ensures HolesOk(Cut(holes, f.offset, End(f)), Merged(d, f).bytes, Limit(Merged(d, f)))
  {
    EndIsAligned(f, Limit(d));
    CutKeepsHoles(holes, d.bytes, Limit(d), f);
  }

  /** What it does to the counts. */
  lemma MergedCounts(d: Datagram, f: Fragment)
    requires Within(d) && d.arrived == |d.bytes| + d.ignored && FragmentOk(f) && End(f) <= Limit(d)
    requires !f.more ==> d.total == Some(End(f))
    ensures var d' := Merged(d, f);
            Within(d') && d'.arrived == |d'.bytes| + d'.ignored
  {
    NewAndOldBytes(d, f);
    MergedSize(d, f);
    MergeKeepsWithin(d, f);
  }

  /** What receiving a fragment does to a slot. */
  lemma ShowsMerged(d: Datagram, f: Fragment, data: seq<u8>, after: seq<u8>, holes: seq<Run>,
                    highest: nat, totalKnown: bool, totalLength: nat, createdAt: u64)
    requires Shows(d, data, holes, highest, totalKnown, totalLength, createdAt) && |data| == MAXIMUM_PAYLOAD_BYTES
    requires FragmentOk(f) && f.payload != [] && f.offset % 8 == 0 && End(f) <= Limit(d)
    requires (!f.more ==> d.total == Some(End(f))) && Copied(data, after, holes, f.offset, f.payload)
    ensures Shows(Merged(d, f), after, Cut(holes, f.offset, End(f)), Max(highest, End(f)), totalKnown, totalLength, createdAt)
  {
    MergedHoles(holes, d, f);
    MergedCounts(d, f);
    CopiedHolds(data, after, holes, d, f);
    HighestOfMerged(highest, d, f);
  }

  /** However the bytes of the fragment are copied into the holes, the slot shows the datagram once the range is cut out. */
  ghost predicate CopyLeadsTo(d: Datagram, f: Fragment, data: seq<u8>, holes: seq<Run>,
                              highest: nat, totalKnown: bool, totalLength: nat, createdAt: u64) {
    forall after | Copied(data, after, holes, f.offset, f.payload) ::
      Shows(d, after, Cut(holes, f.offset, End(f)), highest, totalKnown, totalLength, createdAt)
  }

  lemma ShowsAnyCopied(d: Datagram, f: Fragment, data: seq<u8>, holes: seq<Run>,
                       highest: nat, totalKnown: bool, totalLength: nat, createdAt: u64)
    requires Shows(d, data, holes, highest, totalKnown, totalLength, createdAt) && |data| == MAXIMUM_PAYLOAD_BYTES
    requires FragmentOk(f) && f.payload != [] && f.offset % 8 == 0 && End(f) <= Limit(d)
    requires !f.more ==> d.total == Some(End(f))
    ensures |holes| < MAXIMUM_HOLES && Sorted(-1, holes) && Overlap(holes, f.offset, End(f)) == NewBytes(d, f)
    ensures CopyLeadsTo(Merged(d, f), f, data, holes, Max(highest, End(f)), totalKnown, totalLength, createdAt)
  {
    HolesBelowLimit(holes, d.bytes, Limit(d));
    OverlapIsNew(holes, d, f);
    forall after | Copied(data, after, holes, f.offset, f.payload)
      ensures Shows(Merged(d, f), after, Cut(holes, f.offset, End(f)), Max(highest, End(f)), totalKnown, totalLength, createdAt)
    {
      ShowsMerged(d, f, data, after, holes, highest, totalKnown, totalLength, createdAt);
    }
  }

  lemma CutStep(done: seq<Run>, hole: Run, rest: seq<Run>, begin: int, end: int)
    ensures done + Cut([hole] + rest, begin, end) == done + CutOne(hole, begin, end) + Cut(rest, begin, end)
  {
    assert ([hole] + rest)[1..] == rest;
  }

  lemma SortedParts(holes: seq<Run>, hole: Run, rest: seq<Run>)
    requires Sorted(-1, holes) && holes != [] && hole == holes[0] && rest == holes[1..]
    ensures holes == [hole] + rest && hole.lo < hole.hi && Sorted(-1, rest)
    ensures forall i :: 0 <= i < |rest| ==> hole.hi < rest[i].lo < rest[i].hi
  {
  }

  lemma SplitGoal(holes: seq<Run>, done: seq<Run>, hole: Run, rest: seq<Run>, begin: int, end: int)
    requires holes == [hole] + rest && hole.lo < begin < end < hole.hi
    requires forall i :: 0 <= i < |rest| ==> hole.hi < rest[i].lo < rest[i].hi
    ensures done + Cut(holes, begin, end) == done + [Run(hole.lo, begin), Run(end, hole.hi)] + rest
  {
    CutStep(done, hole, rest, begin, end);
    CutAbove(rest, begin, end);
    assert CutOne(hole, begin, end) == [Run(hole.lo, begin), Run(end, hole.hi)];
  }

  class Slot {
    const data: array<u8>
    const holes: array<Run>
    var key: Key
    var holeCount: nat
    var highest: nat
    var totalLength: nat
    var totalKnown: bool
    var createdAt: u64
    var active: bool
    ghost var datagram: Datagram

    ghost predicate Shape()
      reads this
    {
      data.Length == MAXIMUM_PAYLOAD_BYTES && holes.Length == MAXIMUM_HOLES && holeCount <= MAXIMUM_HOLES
    }

    /** The buffer, the holes and the lengths are those of the datagram. */
    ghost predicate Represents(d: Datagram)
      requires Shape()
      reads this, data, holes
    {
      Shows(d, data[..], holes[..holeCount], highest, totalKnown, totalLength, createdAt)
    }

    ghost predicate Valid()
      reads this, data, holes
    {
      Shape() && (active ==> Represents(datagram))
    }

    constructor ()
      ensures Valid() && !active && fresh(data) && fresh(holes)
    {
      data := new u8[MAXIMUM_PAYLOAD_BYTES];
      holes := new Run[MAXIMUM_HOLES](_ => Run(0, 0));
      key, createdAt := Key(0, 0, 0, 0), 0;
      holeCount, highest, totalLength, totalKnown, active := 0, 0, 0, false, false;
      datagram := NewDatagram(0);
    }

    /** Takes the slot for a new datagram: one hole, nothing received. */
    method Start(newKey: Key, now: u64)
      requires Shape()
      modifies this, holes
      ensures Valid() && active && key == newKey && datagram == NewDatagram(now)
    {
      key := newKey;
      holeCount := 1;
      holes[0] := Run(0, MAXIMUM_PAYLOAD_BYTES);
      highest, totalLength, totalKnown := 0, 0, false;
      createdAt := now;
      active := true;
      datagram := NewDatagram(now);
      assert holes[..1] == [Run(0, MAXIMUM_PAYLOAD_BYTES)];
      ShowsNew(now, data[..]);
    }

    method Release()
      requires Shape()
      modifies this
      ensures Valid() && !active && key == old(key)
    {
      active := false;
      holeCount, highest, totalLength, totalKnown := 0, 0, 0, false;
    }

    /** Cuts every hole off at the length; the holes that are left move to the front of the array. */
    method ShortenHoles(total: nat)
      requires Shape()
      modifies this`holeCount, holes
      ensures Shape() && holes[..holeCount] == Shortened(old(holes[..holeCount]), total)
    {
      hide Shortened;
      ghost var before, kept := holes[..holeCount], [];
      var write := 0;
      for read := 0 to holeCount
        modifies holes
        invariant write <= read && holes[read..holeCount] == before[read..] && holes[..write] == kept
        invariant Shortened(before, total) == kept + Shortened(before[read..], total)
      {
        var hole := holes[read];
        assert hole == before[read..][0] && before[read..][1..] == before[read + 1..];
        ShortenStep(kept, before[read..], total);
        if hole.lo < total {
          hole := Run(hole.lo, Min(hole.hi, total));
          kept := kept + [hole];
          holes[write] := hole;
          write := write + 1;
        }
      }
      ShortenedNone(total);
      holeCount := write;
    }

    /** The final fragment fixes the length of the datagram, unless that contradicts what is known. */
    method EstablishTotal(total: nat) returns (ok: bool)
      requires Valid() && active && total <= MAXIMUM_PAYLOAD_BYTES
      modifies this, holes
      ensures Valid() && active && key == old(key)
      ensures ok == ((old(datagram).total.Some? ==> old(datagram).total.value == total)
                     && forall x :: x in old(datagram).bytes ==> x < total)
      ensures datagram == if ok then old(datagram).(total := Some(total)) else old(datagram)
    {
      if (totalKnown && totalLength != total) || highest > total {
        return false;
      }
      ShortenKeepsHoles(holes[..holeCount], datagram.bytes, Limit(datagram), total);
      totalLength := total;
      totalKnown := true;
      ShortenHoles(total);
      datagram := datagram.(total := Some(total));
      return true;
    }

    /** Removes hole `index`, shifting the ones behind it down. */
    method RemoveHole(index: nat)
      requires Shape() && index < holeCount
      modifies this`holeCount, holes
      ensures Shape() && holes[..holeCount] == old(holes[..index]) + old(holes[index + 1..holeCount])
    {
      var move := index + 1;
      while move < holeCount
        modifies holes
        invariant index + 1 <= move <= holeCount
        invariant forall i :: 0 <= i < index ==> holes[i] == old(holes[i])
        invariant forall i :: index <= i < move - 1 ==> holes[i] == old(holes[i + 1])
        invariant forall i :: move <= i < holeCount ==> holes[i] == old(holes[i])
      {
        holes[move - 1] := holes[move];
        move := move + 1;
      }
      MovedDown(old(holes[..]), holes[..], index, holeCount);
      holeCount := holeCount - 1;
    }

    /** Moves the holes from `index` on one place up. */
    method ShiftUp(index: nat)
      requires Shape() && index <= holeCount < MAXIMUM_HOLES
      modifies holes
      ensures holes[..index] == old(holes[..index]) && holes[index + 1..holeCount + 1] == old(holes[index..holeCount])
    {
      var move := holeCount;
      while move > index
        invariant index <= move <= holeCount
        invariant forall i :: 0 <= i < move ==> holes[i] == old(holes[i])
        invariant forall i :: move < i <= holeCount ==> holes[i] == old(holes[i - 1])
      {
        holes[move] := holes[move - 1];
        move := move - 1;
      }
      MovedUp(old(holes[..]), holes[..], index, holeCount);
    }

    /** Splits hole `index` around [begin, end), shifting the ones behind it up. */
    method SplitHole(index: nat, begin: int, end: int)
      requires Shape() && index < holeCount < MAXIMUM_HOLES
      modifies this`holeCount, holes
      ensures Shape()
      ensures holes[..holeCount] == old(holes[..index]) + [Run(old(holes[index]).lo, begin), Run(end, old(holes[index]).hi)]
                                    + old(holes[index + 1..holeCount])
    {
      ShiftUp(index + 1);
      var originalEnd := holes[index].hi;
      holes[index] := Run(holes[index].lo, begin);
      holes[index + 1] := Run(end, originalEnd);
      holeCount := holeCount + 1;
    }

    /** What one turn of the loop does to the hole it looks at. */
    method SubtractStep(index: nat, begin: int, end: int) returns (next: nat)
      requires Shape() && index < holeCount && begin < end && holes[index].lo < holes[index].hi
      requires !(holes[index].lo < begin && end < holes[index].hi)
      modifies this`holeCount, holes
      ensures Shape() && holeCount <= old(holeCount) && index <= next <= holeCount && holeCount - next == old(holeCount) - index - 1
      ensures holes[..next] == old(holes[..index]) + CutOne(old(holes[index]), begin, end)
      ensures holes[next..holeCount] == old(holes[index + 1..holeCount])
    {
      var hole := holes[index];
      ghost var rest := holes[index + 1..holeCount];
      if end <= hole.lo || begin >= hole.hi {
        next := index + 1;
      } else if begin <= hole.lo && end >= hole.hi {
        RemoveHole(index);
        next := index;
      } else if begin <= hole.lo {
        holes[index] := Run(end, hole.hi);
        next := index + 1;
      } else {
        holes[index] := Run(hole.lo, begin);
        next := index + 1;
      }
    }

    /** Works through the holes, up to one that must be split or to the end. */
    method SubtractUpToSplit(begin: int, end: int) returns (index: nat)
      requires Shape() && begin < end && Sorted(-1, holes[..holeCount])
      modifies this`holeCount, holes
      ensures Shape() && index <= holeCount <= old(holeCount) && Sorted(-1, holes[index..holeCount])
      ensures Cut(old(holes[..holeCount]), begin, end) == holes[..index] + Cut(holes[index..holeCount], begin, end)
      ensures index < holeCount ==> holes[index].lo < begin && end < holes[index].hi
    {
      ghost var goal := Cut(holes[..holeCount], begin, end);
      index := 0;
      while index < holeCount && !(holes[index].lo < begin && end < holes[index].hi)
        modifies this`holeCount, holes
        invariant Shape() && index <= holeCount <= old(holeCount) && Sorted(-1, holes[index..holeCount])
        invariant goal == holes[..index] + Cut(holes[index..holeCount], begin, end)
        decreases holeCount - index
      {
        ghost var done, hole, rest := holes[..index], holes[index], holes[index + 1..holeCount];
        SortedParts(holes[index..holeCount], hole, rest);
        CutStep(done, hole, rest, begin, end);
        index := SubtractStep(index, begin, end);
      }
    }

    /** Takes [begin, end) out of the holes; fails only when a hole must be split and the array is full. */
    method SubtractRange(begin: int, end: int) returns (ok: bool)
      requires Shape() && begin <= end && Sorted(-1, holes[..holeCount])
      modifies this`holeCount, holes
      ensures Shape()
      ensures ok ==> holes[..holeCount] == if begin == end then old(holes[..holeCount]) else Cut(old(holes[..holeCount]), begin, end)
      ensures !ok ==> old(holeCount) >= MAXIMUM_HOLES
    {
      if begin == end {
        return true;
      }
      var index := SubtractUpToSplit(begin, end);
      if index == holeCount {
        return true;
      }
      if holeCount >= MAXIMUM_HOLES {
        return false;
      }
      ghost var done, hole, rest := holes[..index], holes[index], holes[index + 1..holeCount];
      SortedParts(holes[index..holeCount], hole, rest);
      SplitGoal(holes[index..holeCount], done, hole, rest, begin, end);
      SplitHole(index, begin, end);
      return true;
    }

    method CopyRange(from: nat, to: nat, payload: seq<u8>, begin: nat)
      requires data.Length == MAXIMUM_PAYLOAD_BYTES && begin <= from <= to <= begin + |payload| <= MAXIMUM_PAYLOAD_BYTES
      modifies data
      ensures Written(old(data[..]), data[..], from, to, begin, payload)
    {
      for at := from to to
        invariant Written(old(data[..]), data[..], from, at, begin, payload)
      {
        data[at] := payload[at - begin];
      }
    }

    /** Copies the part of the payload that falls into holes, and counts it. */
    method CopyUnreceived(begin: nat, payload: seq<u8>) returns (copied: nat)
      requires Shape() && begin + |payload| <= MAXIMUM_PAYLOAD_BYTES
      modifies data
      ensures copied == Overlap(holes[..holeCount], begin, begin + |payload|)
      ensures Copied(old(data[..]), data[..], holes[..holeCount], begin, payload)
    {
      var end := begin + |payload|;
      copied := 0;
      for index := 0 to holeCount
        invariant copied == Overlap(holes[..index], begin, end)
        invariant Copied(old(data[..]), data[..], holes[..index], begin, payload)
      {
        var hole := holes[index];
        ghost var mid := data[..];
        assert holes[..index + 1] == holes[..index] + [hole] && holes[..index + 1][..index] == holes[..index];
        var copyBegin := Max(begin, hole.lo);
        var copyEnd := Min(end, hole.hi);
        if copyBegin < copyEnd {
          CopyRange(copyBegin, copyEnd, payload, begin);
          copied := copied + (copyEnd - copyBegin);
        }
        CopiedOne(old(data[..]), mid, data[..], holes[..index], hole, begin, payload);
      }
    }

    /** Receives a fragment: only bytes that are still missing are taken from it. */
    method Accept(f: Fragment) returns (ok: bool, copied: nat)
      requires Valid() && active && FragmentOk(f) && f.payload != [] && f.offset % 8 == 0
      modifies this, data, holes
      ensures Valid() && active && key == old(key)
      ensures ok == Consistent(old(datagram), f)
      ensures datagram == if ok then Merged(old(datagram), f) else old(datagram)
      ensures ok ==> copied == NewBytes(old(datagram), f)
    {
      copied := 0;
      if totalKnown && End(f) > totalLength {
        return false, 0;
      }
      if !f.more {
        var established := EstablishTotal(End(f));
        if !established {
          return false, 0;
        }
      }
      ghost var d := datagram;
      assert d.bytes == old(datagram).bytes && Merged(d, f) == Merged(old(datagram), f);
      copied := Receive(f);
      return true, copied;
    }

    /** Receives a fragment that agrees with what is known of the length. */
    method Receive(f: Fragment) returns (copied: nat)
      requires Valid() && active && FragmentOk(f) && f.payload != [] && f.offset % 8 == 0 && End(f) <= Limit(datagram)
      requires !f.more ==> datagram.total == Some(End(f))
      modifies this, data, holes
      ensures Valid() && active && key == old(key)
      ensures datagram == Merged(old(datagram), f) && copied == NewBytes(old(datagram), f)
    {
      ghost var d, runs := datagram, holes[..holeCount];
      ShowsAnyCopied(d, f, data[..], runs, highest, totalKnown, totalLength, createdAt);
      copied := ReceiveInto(f, Merged(d, f));
    }

    method ReceiveInto(f: Fragment, ghost d: Datagram) returns (copied: nat)
      requires Shape() && End(f) <= MAXIMUM_PAYLOAD_BYTES && f.payload != []
      requires Sorted(-1, holes[..holeCount]) && holeCount < MAXIMUM_HOLES
      requires CopyLeadsTo(d, f, data[..], holes[..holeCount], Max(highest, End(f)), totalKnown, totalLength, createdAt)
      modifies this`holeCount, this`highest, this`datagram, data, holes
      ensures Valid() && datagram == d && copied == old(Overlap(holes[..holeCount], f.offset, End(f)))
    {
      copied := ReceiveBytes(f, d);
      highest := Max(highest, End(f));
      CloseHoles(f, d);
    }

    method CloseHoles(f: Fragment, ghost d: Datagram)
      requires Shape() && f.payload != [] && Sorted(-1, holes[..holeCount]) && holeCount < MAXIMUM_HOLES
      requires Shows(d, data[..], Cut(holes[..holeCount], f.offset, End(f)), highest, totalKnown, totalLength, createdAt)
      modifies this`holeCount, this`datagram, holes
      ensures Valid() && datagram == d
    {
      ghost var bytes := data[..];
      var ok := SubtractRange(f.offset, End(f));
      if !ok {
        assert false;  // there are fewer holes than there is room for
      }
      assert data[..] == bytes;
      Show(d);
    }

    method ReceiveBytes(f: Fragment, ghost d: Datagram) returns (copied: nat)
      requires Shape() && End(f) <= MAXIMUM_PAYLOAD_BYTES
      requires CopyLeadsTo(d, f, data[..], holes[..holeCount], Max(highest, End(f)), totalKnown, totalLength, createdAt)
      modifies data
      ensures copied == Overlap(holes[..holeCount], f.offset, End(f))
      ensures Shows(d, data[..], Cut(holes[..holeCount], f.offset, End(f)), Max(highest, End(f)), totalKnown, totalLength, createdAt)
    {
      copied := CopyUnreceived(f.offset, f.payload);
    }

    method IsDone() returns (done: bool)
      requires Valid() && active
      ensures done == IsComplete(datagram)
    {
      CompleteIsNoHole(holes[..holeCount], datagram);
      done := totalKnown && holeCount == 0;
    }

    method Bytes() returns (payload: seq<u8>)
      requires Valid() && active && IsComplete(datagram)
      ensures payload == Payload(datagram)
    {
      payload := data[..totalLength];
    }

    ghost method Show(d: Datagram)
      requires Shape() && Shows(d, data[..], holes[..holeCount], highest, totalKnown, totalLength, createdAt)
      modifies this`datagram
      ensures Valid() && datagram == d
    {
      datagram := d;
    }
  }
}
