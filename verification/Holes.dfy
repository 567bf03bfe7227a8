/** The list of missing ranges of a datagram, and what receiving a range does to it. */
module Holes {
  import opened Numbers
  import opened Intervals
  import opened Ipv4

  const MAXIMUM_HOLES: nat := 8192

  /** What is left of one hole: a part below the range, a part above it, both or none. */
  function CutOne(h: Run, lo: int, hi: int): seq<Run> {
    (if h.lo < Min(h.hi, lo) then [Run(h.lo, Min(h.hi, lo))] else []) +
    (if Max(h.lo, hi) < h.hi then [Run(Max(h.lo, hi), h.hi)] else [])
  }

  /** Takes [lo, hi) out of every hole. */
  function Cut(holes: seq<Run>, lo: int, hi: int): seq<Run> {
    if holes == [] then [] else CutOne(holes[0], lo, hi) + Cut(holes[1..], lo, hi)
  }

  /** Forgets everything from `limit` on. */
  function Shortened(holes: seq<Run>, limit: int): seq<Run> {
    if holes == [] then []
    else if holes[0].lo >= limit then Shortened(holes[1..], limit)
    else [Run(holes[0].lo, Min(holes[0].hi, limit))] + Shortened(holes[1..], limit)
  }

  lemma {:induction false} InConcat(a: seq<Run>, b: seq<Run>, x: int)
    ensures In(a + b, x) <==> In(a, x) || In(b, x)
    decreases |a|
  {
    if a == [] {
      assert a + b == b;
    } else {
      InConcat(a[1..], b, x);
      assert (a + b)[1..] == a[1..] + b;
    }
  }

  lemma InCutOne(h: Run, lo: int, hi: int, x: int)
    requires h.lo < h.hi && lo < hi
    ensures In(CutOne(h, lo, hi), x) <==> h.lo <= x < h.hi && !(lo <= x < hi)
  {
    InConcat(if h.lo < Min(h.hi, lo) then [Run(h.lo, Min(h.hi, lo))] else [],
             if Max(h.lo, hi) < h.hi then [Run(Max(h.lo, hi), h.hi)] else [], x);
  }

  /** Cutting is set difference. */
  lemma {:induction false} CutIsDifference(holes: seq<Run>, lo: int, hi: int, x: int)
    requires lo < hi && forall i :: 0 <= i < |holes| ==> holes[i].lo < holes[i].hi
    ensures In(Cut(holes, lo, hi), x) <==> In(holes, x) && !(lo <= x < hi)
    decreases |holes|
  {
    if holes != [] {
      CutIsDifference(holes[1..], lo, hi, x);
      InCutOne(holes[0], lo, hi, x);
      InConcat(CutOne(holes[0], lo, hi), Cut(holes[1..], lo, hi), x);
    }
  }

  lemma {:induction false} SortedConcat(floor: int, a: seq<Run>, middle: int, b: seq<Run>)
    requires Sorted(floor, a) && Sorted(middle, b) && floor <= middle && forall i :: 0 <= i < |a| ==> a[i].hi <= middle
    ensures Sorted(floor, a + b)
  {
  }

  lemma {:induction false} CutSorted(floor: int, holes: seq<Run>, lo: int, hi: int)
    requires Sorted(floor, holes) && lo < hi
    ensures Sorted(floor, Cut(holes, lo, hi))
    decreases |holes|
  {
    if holes != [] {
      var h := holes[0];
      CutSorted(h.hi, holes[1..], lo, hi);
      SortedConcat(floor, CutOne(h, lo, hi), h.hi, Cut(holes[1..], lo, hi));
    }
  }

  /** Holes above the range stay as they are. */
  lemma {:induction false} CutAbove(holes: seq<Run>, lo: int, hi: int)
    requires lo < hi && forall i :: 0 <= i < |holes| ==> hi <= holes[i].lo < holes[i].hi
    ensures Cut(holes, lo, hi) == holes
    decreases |holes|
  {
    if holes != [] {
      CutAbove(holes[1..], lo, hi);
      assert CutOne(holes[0], lo, hi) == [holes[0]];
    }
  }

  lemma {:induction false} ShortenedIs(holes: seq<Run>, limit: int, x: int)
    requires forall i :: 0 <= i < |holes| ==> holes[i].lo < holes[i].hi
    ensures In(Shortened(holes, limit), x) <==> In(holes, x) && x < limit
    decreases |holes|
  {
    if holes != [] {
      ShortenedIs(holes[1..], limit, x);
      if holes[0].lo < limit {
        var t := Shortened(holes, limit);
        assert t[1..] == Shortened(holes[1..], limit);
      }
    }
  }

  lemma {:induction false} ShortenedSorted(floor: int, holes: seq<Run>, limit: int)
    requires Sorted(floor, holes)
    ensures Sorted(floor, Shortened(holes, limit)) && |Shortened(holes, limit)| <= |holes|
    ensures forall i :: 0 <= i < |Shortened(holes, limit)| ==> Shortened(holes, limit)[i].hi <= limit
    decreases |holes|
  {
    if holes != [] {
      ShortenedSorted(holes[0].hi, holes[1..], limit);
    }
  }

  // ---- Alignment bounds the number of holes ----

  /** Holes begin and end at multiples of eight, except that the last may end anywhere. */
  ghost predicate Aligned(holes: seq<Run>) {
    forall i :: 0 <= i < |holes| ==> holes[i].lo % 8 == 0 && (holes[i].hi % 8 == 0 || i == |holes| - 1)
  }

  lemma {:induction false} CutAligned(floor: int, holes: seq<Run>, lo: int, hi: int)
    requires Sorted(floor, holes) && Aligned(holes) && lo < hi && lo % 8 == 0
    requires hi % 8 == 0 || forall i :: 0 <= i < |holes| ==> holes[i].hi <= hi
    ensures Aligned(Cut(holes, lo, hi))
    decreases |holes|
  {
    if holes != [] {
      CutAligned(holes[0].hi, holes[1..], lo, hi);
    }
  }

  lemma {:induction false} ShortenedAligned(floor: int, holes: seq<Run>, limit: int)
    requires Sorted(floor, holes) && Aligned(holes)
    ensures Aligned(Shortened(holes, limit))
    decreases |holes|
  {
    if holes != [] {
      ShortenedAligned(holes[0].hi, holes[1..], limit);
      if holes[0].hi > limit {
        AboveLimit(holes[0].hi, holes[1..], limit);
      }
    }
  }

  lemma {:induction false} AboveLimit(floor: int, holes: seq<Run>, limit: int)
    requires Sorted(floor, holes) && limit <= floor
    ensures Shortened(holes, limit) == []
    decreases |holes|
  {
    if holes != [] {
      AboveLimit(holes[0].hi, holes[1..], limit);
    }
  }

  lemma {:induction false} HolesAreSpread(holes: seq<Run>, i: nat)
    requires Sorted(-1, holes) && Aligned(holes) && i < |holes|
    ensures holes[i].lo >= 16 * i
    decreases i
  {
    if i > 0 {
      HolesAreSpread(holes, i - 1);
      NextMultiple(holes[i - 1].lo, holes[i - 1].hi);
      NextMultiple(holes[i - 1].hi, holes[i].lo);
    }
  }

  lemma NextMultiple(a: int, b: int)
    requires a % 8 == 0 && b % 8 == 0 && a < b
    ensures a + 8 <= b
  {
  }

  /** There are never more than 4095 holes, so the storage for 8192 never runs out. */
  lemma HoleBound(holes: seq<Run>)
    requires Sorted(-1, holes) && Aligned(holes) && forall i :: 0 <= i < |holes| ==> holes[i].hi <= MAXIMUM_PAYLOAD_BYTES
    ensures |holes| <= 4095 < MAXIMUM_HOLES
  {
    if holes != [] {
      HolesAreSpread(holes, |holes| - 1);
    }
  }

  // ---- How much of a range is missing ----

  /** The part of [lo, hi) that lies in one hole. */
  function OverlapOne(h: Run, lo: int, hi: int): nat {
    Max(0, Min(hi, h.hi) - Max(lo, h.lo))
  }

  function Overlap(holes: seq<Run>, lo: int, hi: int): nat {
    if holes == [] then 0 else Overlap(holes[..|holes| - 1], lo, hi) + OverlapOne(holes[|holes| - 1], lo, hi)
  }

  /** The missing positions of [lo, hi). */
  function Missing(holes: seq<Run>, lo: int, hi: int): set<int> {
    set x | x in Interval(lo, hi) && In(holes, x)
  }

  lemma MissingOfLast(floor: int, init: seq<Run>, h: Run, lo: int, hi: int)
    requires Sorted(floor, init + [h])
    ensures var last := Interval(Max(lo, h.lo), Min(hi, h.hi));
            Missing(init + [h], lo, hi) == Missing(init, lo, hi) + last && Missing(init, lo, hi) !! last
  {
    var last := Interval(Max(lo, h.lo), Min(hi, h.hi));
    forall x ensures x in Missing(init + [h], lo, hi) <==> x in Missing(init, lo, hi) + last {
      InConcat(init, [h], x);
    }
    forall x | In(init, x) ensures x < h.lo {
      var i := InRun(init, x);
      assert (init + [h])[i].hi < (init + [h])[|init|].lo;
    }
  }

  lemma {:induction false} OverlapIsMissing(floor: int, holes: seq<Run>, lo: int, hi: int)
    requires Sorted(floor, holes)
    ensures Overlap(holes, lo, hi) == |Missing(holes, lo, hi)|
    decreases |holes|
  {
    if holes == [] {
      assert Missing(holes, lo, hi) == {};
    } else {
      var init, h := holes[..|holes| - 1], holes[|holes| - 1];
      assert holes == init + [h];
      OverlapIsMissing(floor, init, lo, hi);
      MissingOfLast(floor, init, h, lo, hi);
    }
  }
}
