/**
 The receiver's range set: a bounded sorted array of wrapped half-open ranges,
 merged in place.  The specification works on unbounded positions: everything
 below `ack` has been received, and above it exactly the bytes of `runs`.
 */
module ReceiveRanges {
  import opened Numbers
  import opened Sequence
  import opened Wire
  import opened Intervals

  const RECEIVE_RANGE_CAPACITY: nat := 1024

  datatype Status = Accepted | Duplicate | Full | InvalidRange | OutsideWindow

  datatype InsertResult = InsertResult(status: Status, cumulativeAck: u32, newlyContiguous: u32)

  datatype Ranges = Ranges(ack: int, runs: seq<Run>)

  /** The set of bytes a range set stands for. */
  predicate Has(r: Ranges, x: int) {
    x < r.ack || In(r.runs, x)
  }

  /** The normal form: the runs are sorted and end less than 2^31 above the ACK. */
  ghost predicate Canonical(r: Ranges) {
    && Sorted(r.ack, r.runs)
    && (forall i :: 0 <= i < |r.runs| ==> r.runs[i].hi - r.ack < TWO_31)
  }

  /** Adds [lo, hi) to a list of runs, merging it with every run it overlaps or touches. */
  function Add(runs: seq<Run>, lo: int, hi: int): seq<Run> {
    if runs == [] then [Run(lo, hi)]
    else if hi < runs[0].lo then [Run(lo, hi)] + runs
    else if runs[0].hi < lo then [runs[0]] + Add(runs[1..], lo, hi)
    else Add(runs[1..], Min(lo, runs[0].lo), Max(hi, runs[0].hi))
  }

  /** Moves the ACK over every run it has reached. */
  function Advance(ack: int, runs: seq<Run>): Ranges
    decreases |runs|
  {
    if runs == [] || ack < runs[0].lo then Ranges(ack, runs)
    else Advance(Max(ack, runs[0].hi), runs[1..])
  }

  /** The position a 32-bit range start is read as, and the position its end then has. */
  function Low(r: Ranges, start: u32): int {
    Near(r.ack, start)
  }

  function High(r: Ranges, start: u32, end: u32): int {
    Near(r.ack, start) + Diff(end, start)
  }

  /** What inserting the 32-bit range [start, end) does. */
  function Inserted(r: Ranges, capacity: nat, start: u32, end: u32): (Status, Ranges) {
    var lo, hi := Low(r, start), High(r, start, end);
    if start == end then (InvalidRange, r)
    else if Diff(end, start) >= TWO_31 then (OutsideWindow, r)
    else if hi <= r.ack || r.ack + TWO_31 <= hi then (Duplicate, r)
    else if lo <= r.ack then (Accepted, Advance(hi, r.runs))
    else
      var runs := Add(r.runs, lo, hi);
      if |runs| == |r.runs| + 1 && |r.runs| == capacity then (Full, r)
      else (Accepted, Ranges(r.ack, runs))
  }

  /** The first four runs, as they go into an acknowledgement. */
  function Nearest(runs: seq<Run>): (s: seq<Run>)
    ensures s <= runs && |s| == Min(|runs|, MAXIMUM_SACK_BLOCKS)
  {
    runs[..Min(|runs|, MAXIMUM_SACK_BLOCKS)]
  }

  function WrapRun(run: Run): SackBlock {
    SackBlock(Wrap(run.lo), Wrap(run.hi))
  }

  // ---- The specification refines set union ----

  lemma {:induction false} AddKeepsOrder(floor: int, runs: seq<Run>, lo: int, hi: int)
    requires Sorted(floor, runs) && floor < lo < hi
    ensures Sorted(floor, Add(runs, lo, hi))
    ensures 1 <= |Add(runs, lo, hi)| <= |runs| + 1
    decreases |runs|
  {
    if runs != [] && !(hi < runs[0].lo) {
      if runs[0].hi < lo {
        AddKeepsOrder(runs[0].hi, runs[1..], lo, hi);
      } else {
        AddKeepsOrder(floor, runs[1..], Min(lo, runs[0].lo), Max(hi, runs[0].hi));
      }
    }
  }

  lemma {:induction false} AddIsUnion(runs: seq<Run>, lo: int, hi: int, x: int)
    requires lo < hi && forall i :: 0 <= i < |runs| ==> runs[i].lo < runs[i].hi
    ensures In(Add(runs, lo, hi), x) <==> In(runs, x) || lo <= x < hi
    decreases |runs|
  {
    if runs == [] {
    } else if hi < runs[0].lo {
      assert ([Run(lo, hi)] + runs)[1..] == runs;
    } else if runs[0].hi < lo {
      AddIsUnion(runs[1..], lo, hi, x);
      assert ([runs[0]] + Add(runs[1..], lo, hi))[1..] == Add(runs[1..], lo, hi);
    } else {
      AddIsUnion(runs[1..], Min(lo, runs[0].lo), Max(hi, runs[0].hi), x);
    }
  }

  lemma {:induction false} AddBound(runs: seq<Run>, lo: int, hi: int, top: int)
    requires hi < top && forall i :: 0 <= i < |runs| ==> runs[i].hi < top
    ensures forall i :: 0 <= i < |Add(runs, lo, hi)| ==> Add(runs, lo, hi)[i].hi < top
    decreases |runs|
  {
    if runs != [] && !(hi < runs[0].lo) {
      if runs[0].hi < lo {
        AddBound(runs[1..], lo, hi, top);
      } else {
        AddBound(runs[1..], Min(lo, runs[0].lo), Max(hi, runs[0].hi), top);
      }
    }
  }

  lemma {:induction false} AdvanceIsUnion(floor: int, ack: int, runs: seq<Run>, x: int)
    requires Sorted(floor, runs)
    ensures Has(Advance(ack, runs), x) <==> x < ack || In(runs, x)
    decreases |runs|
  {
    if runs != [] && runs[0].lo <= ack {
      AdvanceIsUnion(runs[0].hi, Max(ack, runs[0].hi), runs[1..], x);
    }
  }

  lemma {:induction false} AdvanceCanonical(floor: int, ack: int, runs: seq<Run>, top: int)
    requires Sorted(floor, runs)
    requires forall i :: 0 <= i < |runs| ==> runs[i].hi < top
    ensures ack <= Advance(ack, runs).ack && |Advance(ack, runs).runs| <= |runs|
    ensures Sorted(Advance(ack, runs).ack, Advance(ack, runs).runs)
    ensures forall i :: 0 <= i < |Advance(ack, runs).runs| ==> Advance(ack, runs).runs[i].hi < top
    ensures ack < top ==> Advance(ack, runs).ack < top
    decreases |runs|
  {
    if runs != [] && runs[0].lo <= ack {
      AdvanceCanonical(runs[0].hi, Max(ack, runs[0].hi), runs[1..], top);
    }
  }

  /** The ACK of a canonical set is its first missing byte. */
  lemma AckIsFirstMissing(r: Ranges)
    requires Canonical(r)
    ensures !Has(r, r.ack) && forall x :: x < r.ack ==> Has(r, x)
  {
    if In(r.runs, r.ack) {
      InAboveFloor(r.ack, r.runs, r.ack);
    }
  }

  /** The bytes on either side of a run of a canonical set are missing: the run is maximal. */
  lemma RunsAreMaximal(r: Ranges, i: nat)
    requires Canonical(r) && i < |r.runs|
    ensures !Has(r, r.runs[i].lo - 1) && !Has(r, r.runs[i].hi)
  {
    if In(r.runs, r.runs[i].lo - 1) {
      var j := InRun(r.runs, r.runs[i].lo - 1);
    }
    if In(r.runs, r.runs[i].hi) {
      var j := InRun(r.runs, r.runs[i].hi);
    }
  }

  /**
   An insert of any two 32-bit values either leaves the set unchanged or is
   exactly set union with the positions [Low, High), and it keeps the normal form.
   */
  lemma InsertIsUnion(r: Ranges, capacity: nat, start: u32, end: u32)
    requires Canonical(r) && |r.runs| <= capacity
    ensures var (status, r') := Inserted(r, capacity, start, end);
            && Canonical(r') && |r'.runs| <= capacity && r.ack <= r'.ack < r.ack + TWO_31
            && (status != Accepted ==> r' == r)
            && (status == Accepted ==> forall x :: Has(r', x) <==> Has(r, x) || Low(r, start) <= x < High(r, start, end))
  {
    var (status, r') := Inserted(r, capacity, start, end);
    var lo, hi := Low(r, start), High(r, start, end);
    if status == Accepted && lo <= r.ack {
      AdvanceCanonical(r.ack, hi, r.runs, r.ack + TWO_31);
      forall x ensures Has(r', x) <==> Has(r, x) || lo <= x < hi {
        AdvanceIsUnion(r.ack, hi, r.runs, x);
      }
    } else if status == Accepted {
      AddKeepsOrder(r.ack, r.runs, lo, hi);
      AddBound(r.runs, lo, hi, r.ack + TWO_31);
      forall x ensures Has(r', x) <==> Has(r, x) || lo <= x < hi {
        AddIsUnion(r.runs, lo, hi, x);
      }
    }
  }

  /**
   When an insert is accepted: exactly when it reaches above the ACK, less than 2^31, and the normal form of the union
   fits the capacity.
   */
  lemma AcceptsExactly(r: Ranges, capacity: nat, start: u32, end: u32, union: Ranges)
    requires Canonical(r) && |r.runs| <= capacity && 0 < Diff(end, start) < TWO_31
    requires Canonical(union) && forall x :: Has(union, x) <==> Has(r, x) || Low(r, start) <= x < High(r, start, end)
    ensures Inserted(r, capacity, start, end).0 == Accepted <==>
            r.ack < High(r, start, end) < r.ack + TWO_31 && |union.runs| <= capacity
    ensures Inserted(r, capacity, start, end).0 == Accepted ==> Inserted(r, capacity, start, end).1 == union
  {
    hide Has, Canonical, Add, Advance;
    var lo, hi := Low(r, start), High(r, start, end);
    InsertIsUnion(r, capacity, start, end);
    if Inserted(r, capacity, start, end).0 == Accepted {
      CanonicalIsUnique(Inserted(r, capacity, start, end).1, union);
    } else if r.ack < lo && hi < r.ack + TWO_31 {
      MergedIsUnion(r, lo, hi, union);
    }
  }

  lemma MergedIsUnion(r: Ranges, lo: int, hi: int, union: Ranges)
    requires Canonical(r) && r.ack < lo < hi < r.ack + TWO_31
    requires Canonical(union) && forall x :: Has(union, x) <==> Has(r, x) || lo <= x < hi
    ensures union == Ranges(r.ack, Add(r.runs, lo, hi))
  {
    var merged := Ranges(r.ack, Add(r.runs, lo, hi));
    MergedIsCanonical(r, lo, hi);
    forall x ensures Has(merged, x) <==> Has(union, x) {
      AddIsUnion(r.runs, lo, hi, x);
    }
    CanonicalIsUnique(merged, union);
  }

  /** Why a range is not accepted: it is empty, 2^31 bytes or longer, brings nothing new in the window, or finds no room. */
  lemma RefusesExactly(r: Ranges, capacity: nat, start: u32, end: u32)
    ensures var status, d, ahead := Inserted(r, capacity, start, end).0, (end - start) % TWO_32, (end - r.ack) % TWO_32;
            && (status == InvalidRange <==> d == 0)
            && (status == OutsideWindow <==> d >= TWO_31)
            && (status == Duplicate <==> 0 < d < TWO_31 && (ahead == 0 || TWO_31 <= ahead))
  {
    hide Add, Advance;
    if 0 < Diff(end, start) < TWO_31 {
      RangeTests(r, start, end);
      AheadTest(r.ack, end);
    }
  }

  lemma AheadTest(ack: int, end: u32)
    ensures LessEqual(end, Wrap(ack)) <==> (end - ack) % TWO_32 == 0 || TWO_31 <= (end - ack) % TWO_32
  {
  }

  /** A set of bytes has one normal form only, so `Has` determines every stored range. */
  lemma {:induction false} CanonicalIsUnique(r: Ranges, s: Ranges)
    requires Canonical(r) && Canonical(s)
    requires forall x :: Has(r, x) <==> Has(s, x)
    ensures r == s
  {
    AckIsFirstMissing(r);
    AckIsFirstMissing(s);
    assert !Has(s, r.ack) && !Has(r, s.ack);
    forall x ensures In(r.runs, x) <==> In(s.runs, x) {
      assert Has(r, x) <==> Has(s, x);
      if In(r.runs, x) { InAboveFloor(r.ack, r.runs, x); }
      if In(s.runs, x) { InAboveFloor(s.ack, s.runs, x); }
    }
    RunsAreUnique(r.ack, r.runs, s.runs);
  }

  /** The runs that are reported are the ones nearest to the ACK. */
  lemma SacksAreNearest(r: Ranges, x: int)
    requires Canonical(r) && Has(r, x) && r.ack <= x && !In(Nearest(r.runs), x)
    ensures |Nearest(r.runs)| == MAXIMUM_SACK_BLOCKS
    ensures forall i :: 0 <= i < MAXIMUM_SACK_BLOCKS ==> Nearest(r.runs)[i].hi < x
  {
    var k := InRun(r.runs, x);
    if k < |Nearest(r.runs)| {
      RunIn(Nearest(r.runs), k, x);
    }
  }

  // ---- Whole runs of inserts ----

  /** The set after a sequence of inserts. */
  function InsertAll(r: Ranges, capacity: nat, inserts: seq<(u32, u32)>): Ranges
    decreases |inserts|
  {
    if inserts == [] then r
    else InsertAll(Inserted(r, capacity, inserts[0].0, inserts[0].1).1, capacity, inserts[1..])
  }

  /** The positions received by a sequence of inserts: those of the accepted ones, and no others. */
  ghost predicate ReceivedBy(r: Ranges, capacity: nat, inserts: seq<(u32, u32)>, x: int)
    decreases |inserts|
  {
    inserts != [] &&
    var (start, end) := inserts[0];
    var (status, r') := Inserted(r, capacity, start, end);
    || (status == Accepted && Low(r, start) <= x < High(r, start, end))
    || ReceivedBy(r', capacity, inserts[1..], x)
  }

  /** Over every sequence of inserts, the set holds exactly what was accepted, in its normal form. */
  lemma {:induction false} RangeSetRefinesByteSet(r: Ranges, capacity: nat, inserts: seq<(u32, u32)>)
    requires Canonical(r) && |r.runs| <= capacity
    ensures var final := InsertAll(r, capacity, inserts);
            && Canonical(final) && |final.runs| <= capacity && r.ack <= final.ack
            && (forall x :: Has(final, x) <==> Has(r, x) || ReceivedBy(r, capacity, inserts, x))
    decreases |inserts|
  {
    if inserts != [] {
      InsertIsUnion(r, capacity, inserts[0].0, inserts[0].1);
      RangeSetRefinesByteSet(Inserted(r, capacity, inserts[0].0, inserts[0].1).1, capacity, inserts[1..]);
    }
  }

  // ---- The 32-bit implementation ----

  /** Splitting off the runs that end below the new range. */
  lemma {:induction false} AddSkips(runs: seq<Run>, lo: int, hi: int, k: nat)
    requires k < |runs| && runs[k].hi < lo < hi
    requires runs[k].lo < runs[k].hi
    requires Add(runs, lo, hi) == runs[..k] + Add(runs[k..], lo, hi)
    ensures Add(runs, lo, hi) == runs[..k + 1] + Add(runs[k + 1..], lo, hi)
  {
    assert runs[k..][1..] == runs[k + 1..];
    assert runs[..k + 1] == runs[..k] + [runs[k]];
  }

  lemma MergedIsCanonical(r: Ranges, lo: int, hi: int)
    requires Canonical(r) && r.ack < lo < hi < r.ack + TWO_31
    ensures Canonical(Ranges(r.ack, Add(r.runs, lo, hi)))
  {
    AddKeepsOrder(r.ack, r.runs, lo, hi);
    AddBound(r.runs, lo, hi, r.ack + TWO_31);
  }

  /** How the 32-bit tests on the whole range read as tests on positions. */
  lemma RangeTests(r: Ranges, start: u32, end: u32)
    requires 0 < Diff(end, start) < TWO_31
    ensures Wrap(High(r, start, end)) == end
    ensures LessEqual(end, Wrap(r.ack)) <==> High(r, start, end) <= r.ack || r.ack + TWO_31 <= High(r, start, end)
    ensures Less(start, Wrap(r.ack)) <==> Low(r, start) < r.ack
    ensures start == Wrap(r.ack) <==> Low(r, start) == r.ack
    ensures Diff(start, Wrap(r.ack)) >= TWO_31 <==> Low(r, start) < r.ack
  {
    EndOfRange(Low(r, start), start, end);
    PositionTests(r.ack, Low(r, start));
    HighTest(r.ack, High(r, start, end));
  }

  lemma EndOfRange(low: int, start: u32, end: u32)
    requires Wrap(low) == start
    ensures Wrap(low + Diff(end, start)) == end
  {
    WrapAdd(low, Diff(end, start));
    AddDiff(start, end);
  }

  lemma PositionTests(ack: int, low: int)
    requires -TWO_31 <= low - ack < TWO_31
    ensures Less(Wrap(low), Wrap(ack)) <==> low < ack
    ensures Wrap(low) == Wrap(ack) <==> low == ack
    ensures Diff(Wrap(low), Wrap(ack)) >= TWO_31 <==> low < ack
  {
    LessIsOrder(low, ack);
    WrapInjective(low, ack);
  }

  /** An end that is too far ahead compares like one that is behind. */
  lemma HighTest(ack: int, high: int)
    requires -TWO_31 <= high - ack < TWO_32
    ensures LessEqual(Wrap(high), Wrap(ack)) <==> high <= ack || ack + TWO_31 <= high
  {
    DiffOfWraps(high, ack);
    WrapInjective(high, ack);
  }

  ghost predicate EndBelow(runs: seq<Run>, limit: int) {
    forall i :: 0 <= i < |runs| ==> runs[i].hi < limit
  }

  lemma RestSorted(floor: int, runs: seq<Run>)
    requires Sorted(floor, runs) && runs != []
    ensures Sorted(floor, runs[1..])
  {
  }

  /** How a position in the window compares with the first run. */
  lemma FirstTests(base: int, runs: seq<Run>, ack: int)
    requires Sorted(base, runs) && EndBelow(runs, base + TWO_31) && runs != [] && base < ack < base + TWO_31
    ensures LessEqual(Wrap(runs[0].lo), Wrap(ack)) <==> runs[0].lo <= ack
    ensures Less(Wrap(ack), Wrap(runs[0].hi)) <==> ack < runs[0].hi
    ensures runs[0].hi < base + TWO_31
  {
    hide Wrap, Less, LessEqual;
    LessIsOrder(runs[0].lo, ack);
    LessIsOrder(ack, runs[0].hi);
  }

  lemma AboveAck(base: int, runs: seq<Run>, ack: int)
    requires Sorted(base, runs) && EndBelow(runs, base + TWO_31) && base < ack && (runs == [] || ack < runs[0].lo)
    ensures Canonical(Ranges(ack, runs))
  {
  }

  class ReceiveRangeSet {
    const ranges: array<SackBlock>
    const capacity: nat
    var size: nat
    var cumulativeAck: u32
    /** The positions the 32-bit fields stand for. */
    ghost var view: Ranges

    ghost predicate Valid()
      reads this, ranges
    {
      && ranges.Length == RECEIVE_RANGE_CAPACITY
      && size <= capacity <= RECEIVE_RANGE_CAPACITY
      && Canonical(view)
      && Wrap(view.ack) == cumulativeAck
      && |view.runs| == size
      && (forall i :: 0 <= i < size ==> ranges[i] == WrapRun(view.runs[i]))
    }

    constructor (initialSequence: u32, requested: nat)
      ensures Valid() && fresh(ranges)
      ensures capacity == Min(requested, RECEIVE_RANGE_CAPACITY)
      ensures view == Ranges(initialSequence, [])
    {
      ranges := new SackBlock[RECEIVE_RANGE_CAPACITY];
      capacity := Min(requested, RECEIVE_RANGE_CAPACITY);
      size, cumulativeAck := 0, initialSequence;
      view := Ranges(initialSequence, []);
    }

    method Insert(start: u32, end: u32) returns (result: InsertResult)
      requires Valid()
      modifies this, ranges
      ensures Valid()
      ensures (result.status, view) == Inserted(old(view), capacity, start, end)
      ensures result.cumulativeAck == Wrap(view.ack)
      ensures result.newlyContiguous == view.ack - old(view.ack)
    {
      ghost var r := view;
      if start == end {
        return InsertResult(InvalidRange, cumulativeAck, 0);
      }
      if Diff(end, start) >= TWO_31 {
        return InsertResult(OutsideWindow, cumulativeAck, 0);
      }
      RangeTests(r, start, end);
      if LessEqual(end, cumulativeAck) {
        return InsertResult(Duplicate, cumulativeAck, 0);
      }
      var from := start;
      if Less(from, cumulativeAck) {
        from := cumulativeAck;
      }
      if Diff(from, cumulativeAck) >= TWO_31 {
        assert false;  // the clip above leaves no start behind the ACK
      }
      if from == cumulativeAck {
        result := InsertAtAck(end, High(r, start, end));
        return;
      }
      var status := Merge(from, end, Low(r, start), High(r, start, end));
      return InsertResult(status, cumulativeAck, 0);
    }

    /** The range continues the stream: the ACK moves to its end and over what it reaches. */
    method InsertAtAck(end: u32, ghost high: int) returns (result: InsertResult)
      requires Valid() && end == Wrap(high) && view.ack < high < view.ack + TWO_31
      modifies this, ranges
      ensures Valid() && view == Advance(high, old(view).runs)
      ensures result.status == Accepted && result.cumulativeAck == Wrap(view.ack)
      ensures result.newlyContiguous == view.ack - old(view.ack)
    {
      hide Wrap, Advance;
      ghost var r := view;
      var previousAck := cumulativeAck;
      cumulativeAck := end;
      AdvanceContiguous(high);
      DiffOfWraps(view.ack, r.ack);
      return InsertResult(Accepted, cumulativeAck, Diff(cumulativeAck, previousAck));
    }

    /** Inserts a range that starts above the ACK: merges it into the array, or refuses it. */
    method Merge(start: u32, end: u32, ghost lo: int, ghost hi: int) returns (status: Status)
      requires Valid()
      requires view.ack < lo < hi < view.ack + TWO_31 && start == Wrap(lo) && end == Wrap(hi)
      modifies this, ranges
      ensures Valid() && cumulativeAck == old(cumulativeAck)
      ensures status == if |Add(old(view.runs), lo, hi)| == |old(view.runs)| + 1 && |old(view.runs)| == capacity
                        then Full else Accepted
      ensures view == if status == Full then old(view) else Ranges(old(view.ack), Add(old(view.runs), lo, hi))
    {
      ghost var runs := view.runs;
      var first := FirstReaching(start, lo, hi);
      var last, mergedStart, mergedEnd, mlo, mhi := Absorb(start, end, first, lo, hi);
      ghost var merged := Add(runs, lo, hi);
      assert merged == runs[..first] + [Run(mlo, mhi)] + runs[last..];
      if first == last && size == capacity {
        return Full;
      }
      MergedIsCanonical(view, lo, hi);
      Replace(first, last, SackBlock(mergedStart, mergedEnd), Run(mlo, mhi));
      return Accepted;
    }

    /** Replaces the stored ranges first..last by one, in the array and in the view. */
    method Replace(first: nat, last: nat, block: SackBlock, ghost run: Run)
      requires Valid() && first <= last <= size && (first == last ==> size < capacity) && block == WrapRun(run)
      requires Canonical(Ranges(view.ack, view.runs[..first] + [run] + view.runs[last..]))
      modifies this, ranges
      ensures Valid() && cumulativeAck == old(cumulativeAck)
      ensures view == Ranges(old(view.ack), old(view.runs[..first] + [run] + view.runs[last..]))
    {
      Splice(first, last, block);
      view := Ranges(view.ack, view.runs[..first] + [run] + view.runs[last..]);
    }

    /** The first scan: skips the stored ranges that end below the new one. */
    method FirstReaching(start: u32, ghost lo: int, ghost hi: int) returns (first: nat)
      requires Valid()
      requires view.ack < lo < hi < view.ack + TWO_31 && start == Wrap(lo)
      ensures first <= size && (first < size ==> lo <= view.runs[first].hi)
      ensures Add(view.runs, lo, hi) == view.runs[..first] + Add(view.runs[first..], lo, hi)
    {
      ghost var runs := view.runs;
      first := 0;
      while first < size && Less(ranges[first].end, start)
        invariant first <= size
        invariant Add(runs, lo, hi) == runs[..first] + Add(runs[first..], lo, hi)
      {
        LessIsOrder(runs[first].hi, lo);
        AddSkips(runs, lo, hi, first);
        first := first + 1;
      }
      if first < size { LessIsOrder(runs[first].hi, lo); }
    }

    /** The second scan: widens the new range over every stored range it reaches. */
    method Absorb(start: u32, end: u32, first: nat, ghost lo: int, ghost hi: int)
      returns (last: nat, mergedStart: u32, mergedEnd: u32, ghost mlo: int, ghost mhi: int)
      requires Valid()
      requires view.ack < lo < hi < view.ack + TWO_31 && start == Wrap(lo) && end == Wrap(hi)
      requires first <= size && (first < size ==> lo <= view.runs[first].hi)
      ensures first <= last <= size
      ensures mergedStart == Wrap(mlo) && mergedEnd == Wrap(mhi)
      ensures Add(view.runs[first..], lo, hi) == [Run(mlo, mhi)] + view.runs[last..]
    {
      hide Wrap, Less, LessEqual;
      ghost var runs := view.runs;
      mergedStart, mergedEnd, last := start, end, first;
      mlo, mhi := lo, hi;
      while last < size && LessEqual(ranges[last].start, mergedEnd)
        invariant first <= last <= size
        invariant view.ack < mlo <= lo < mhi < view.ack + TWO_31
        invariant mergedStart == Wrap(mlo) && mergedEnd == Wrap(mhi)
        invariant Add(runs[first..], lo, hi) == Add(runs[last..], mlo, mhi)
      {
        LessIsOrder(runs[last].lo, mhi);
        LessIsOrder(runs[last].lo, mlo);
        LessIsOrder(mhi, runs[last].hi);
        assert runs[last..][1..] == runs[last + 1..];
        if Less(ranges[last].start, mergedStart) {
          mergedStart := ranges[last].start;
        }
        if Less(mergedEnd, ranges[last].end) {
          mergedEnd := ranges[last].end;
        }
        mlo, mhi := Min(mlo, runs[last].lo), Max(mhi, runs[last].hi);
        last := last + 1;
      }
      if last < size { LessIsOrder(runs[last].lo, mhi); }
    }

    /** Replaces the stored ranges first..last by one block, shifting the tail left or right. */
    method Splice(first: nat, last: nat, block: SackBlock)
      requires first <= last <= size <= capacity <= ranges.Length
      requires first == last ==> size < capacity
      modifies this`size, ranges
      ensures size == old(size) - (last - first) + 1
      ensures forall i :: 0 <= i < first ==> ranges[i] == old(ranges[i])
      ensures ranges[first] == block
      ensures forall i :: first < i < size ==> ranges[i] == old(ranges[i - 1 + last - first])
    {
      if first < last {
        SpliceOver(first, last, block);
        forall i | first < i < size ensures ranges[i] == old(ranges[i - 1 + last - first]) {
          assert ranges[i] == ranges[first + 1..size][i - first - 1];
        }
      } else {
        SpliceIn(first, block);
      }
    }

    /** Puts the block in place of several ranges; those behind move down. */
    method SpliceOver(first: nat, last: nat, block: SackBlock)
      requires first < last <= size <= capacity <= ranges.Length
      modifies this`size, ranges
      ensures size == old(size) - (last - first) + 1
      ensures forall i :: 0 <= i < first ==> ranges[i] == old(ranges[i])
      ensures ranges[first] == block
      ensures ranges[first + 1..size] == old(ranges[last..size])
    {
      ranges[first] := block;
      var write, index := first + 1, last;
      while index < size
        modifies ranges
        invariant last <= index <= size && write == first + 1 + index - last
        invariant forall i :: 0 <= i < first ==> ranges[i] == old(ranges[i])
        invariant ranges[first] == block && ranges[first + 1..write] == old(ranges[last..index])
        invariant forall i :: index <= i < size ==> ranges[i] == old(ranges[i])
      {
        ghost var moved := ranges[first + 1..write];
        ranges[write] := ranges[index];
        assert ranges[first + 1..write + 1] == moved + [old(ranges[index])];
        write, index := write + 1, index + 1;
      }
      size := write;
    }

    /** Puts the block between two ranges; those behind move up. */
    method SpliceIn(first: nat, block: SackBlock)
      requires first <= size < capacity <= ranges.Length
      modifies this`size, ranges
      ensures size == old(size) + 1
      ensures forall i :: 0 <= i < first ==> ranges[i] == old(ranges[i])
      ensures ranges[first] == block
      ensures forall i :: first < i < size ==> ranges[i] == old(ranges[i - 1])
    {
      var index := size;
      while index > first
        modifies ranges
        invariant first <= index <= size
        invariant forall i :: 0 <= i < index ==> ranges[i] == old(ranges[i])
        invariant forall i :: index < i <= size ==> ranges[i] == old(ranges[i - 1])
      {
        ranges[index] := ranges[index - 1];
        index := index - 1;
      }
      ranges[first] := block;
      size := size + 1;
    }

    /** Drops the first stored range, shifting the others down. */
    method RemoveFirst()
      requires 0 < size <= ranges.Length
      modifies this`size, ranges
      ensures size == old(size) - 1
      ensures forall i :: 0 <= i < size ==> ranges[i] == old(ranges[i + 1])
    {
      var move := 1;
      while move < size
        modifies ranges
        invariant 1 <= move <= size
        invariant forall i :: 0 <= i < move - 1 ==> ranges[i] == old(ranges[i + 1])
        invariant forall i :: move <= i < size ==> ranges[i] == old(ranges[i])
      {
        ranges[move - 1] := ranges[move];
        move := move + 1;
      }
      size := size - 1;
    }

    /** Consumes every stored range the (already moved) ACK has reached. */
    method AdvanceContiguous(ghost position: int)
      requires ranges.Length == RECEIVE_RANGE_CAPACITY && size <= capacity <= RECEIVE_RANGE_CAPACITY
      requires Canonical(view) && |view.runs| == size
      requires forall i :: 0 <= i < size ==> ranges[i] == WrapRun(view.runs[i])
      requires view.ack < position < view.ack + TWO_31 && cumulativeAck == Wrap(position)
      modifies this, ranges
      ensures Valid() && view == Advance(position, old(view.runs))
      ensures old(view.ack) < view.ack < old(view.ack) + TWO_31
    {
      hide Wrap, Less, LessEqual, Sorted;
      ghost var base, runs, ack := view.ack, view.runs, position;
      while size != 0 && LessEqual(ranges[0].start, cumulativeAck)
        invariant size <= capacity && |runs| == size
        invariant Sorted(base, runs) && EndBelow(runs, base + TWO_31)
        invariant base < ack < base + TWO_31 && cumulativeAck == Wrap(ack)
        invariant forall i :: 0 <= i < size ==> ranges[i] == WrapRun(runs[i])
        invariant Advance(position, old(view.runs)) == Advance(ack, runs)
        decreases size
      {
        FirstTests(base, runs, ack);
        RestSorted(base, runs);
        if Less(cumulativeAck, ranges[0].end) {
          cumulativeAck := ranges[0].end;
        }
        RemoveFirst();
        ack, runs := Max(ack, runs[0].hi), runs[1..];
      }
      if size != 0 { FirstTests(base, runs, ack); }
      AboveAck(base, runs, ack);
      view := Ranges(ack, runs);
    }

    /** Copies the first stored ranges, at most four and at most `room`, into an acknowledgement. */
    method GenerateSacks(room: nat) returns (blocks: seq<SackBlock>)
      requires Valid()
      ensures |blocks| == Min(Min(size, room), MAXIMUM_SACK_BLOCKS)
      ensures forall i :: 0 <= i < |blocks| ==> blocks[i] == WrapRun(view.runs[i])
    {
      var count := Min(Min(size, room), MAXIMUM_SACK_BLOCKS);
      blocks := [];
      for index := 0 to count
        invariant |blocks| == index
        invariant forall i :: 0 <= i < index ==> blocks[i] == WrapRun(view.runs[i])
      {
        blocks := blocks + [ranges[index]];
      }
    }
  }
}
