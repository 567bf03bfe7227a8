/** Sets of positions as sorted lists of disjoint, non-adjacent, non-empty intervals. */
module Intervals {

  /** The positions lo <= x < hi. */
  datatype Run = Run(lo: int, hi: int)

  /** The positions of one interval. */
  function Interval(lo: int, hi: int): (s: set<int>)
    ensures forall x :: x in s <==> lo <= x < hi
    ensures |s| == if lo <= hi then hi - lo else 0
    decreases hi - lo
  {
    if lo < hi then Interval(lo, hi - 1) + {hi - 1} else {}
  }

  predicate In(runs: seq<Run>, x: int) {
    runs != [] && (runs[0].lo <= x < runs[0].hi || In(runs[1..], x))
  }

  /** Non-empty runs in order, above `floor`, no two of them overlapping or adjacent. */
  ghost predicate Sorted(floor: int, runs: seq<Run>) {
    && (forall i :: 0 <= i < |runs| ==> floor < runs[i].lo < runs[i].hi)
    && (forall i, j :: 0 <= i < j < |runs| ==> runs[i].hi < runs[j].lo)
  }

  /** No byte of sorted runs is at or below their floor. */
  lemma {:induction false} InAboveFloor(floor: int, runs: seq<Run>, x: int)
    requires Sorted(floor, runs) && In(runs, x)
    ensures floor < x
    decreases |runs|
  {
    if !(runs[0].lo <= x < runs[0].hi) {
      InAboveFloor(runs[0].hi, runs[1..], x);
    }
  }

  /** Every byte of a run is in the set. */
  lemma {:induction false} RunIn(runs: seq<Run>, i: nat, x: int)
    requires i < |runs| && runs[i].lo <= x < runs[i].hi
    ensures In(runs, x)
    decreases i
  {
    if i > 0 {
      RunIn(runs[1..], i - 1, x);
    }
  }

  /** Every byte of the set is in some run. */
  lemma {:induction false} InRun(runs: seq<Run>, x: int) returns (i: nat)
    requires In(runs, x)
    ensures i < |runs| && runs[i].lo <= x < runs[i].hi
    decreases |runs|
  {
    if runs[0].lo <= x < runs[0].hi {
      i := 0;
    } else {
      var j := InRun(runs[1..], x);
      i := j + 1;
    }
  }

  lemma FirstIsIn(runs: seq<Run>)
    requires forall i :: 0 <= i < |runs| ==> runs[i].lo < runs[i].hi
    ensures runs == [] || In(runs, runs[0].lo)
  {
  }

  lemma {:induction false} RunsAreUnique(floor: int, a: seq<Run>, b: seq<Run>)
    requires Sorted(floor, a) && Sorted(floor, b)
    requires forall x :: In(a, x) <==> In(b, x)
    ensures a == b
    decreases |a|
  {
    if a == [] {
      FirstIsIn(b);
    } else {
      FirstRun(floor, a, b);
      FirstRun(floor, b, a);
      forall x ensures In(a[1..], x) <==> In(b[1..], x) {
        RestAfterFirstRun(floor, a, x);
        RestAfterFirstRun(floor, b, x);
        assert In(a, x) <==> In(b, x);
      }
      RunsAreUnique(a[0].hi, a[1..], b[1..]);
      assert a == [a[0]] + a[1..];
    }
  }

  lemma RestAfterFirstRun(floor: int, runs: seq<Run>, x: int)
    requires Sorted(floor, runs) && runs != []
    ensures In(runs[1..], x) <==> In(runs, x) && runs[0].hi <= x
  {
    if In(runs[1..], x) {
      InAboveFloor(runs[0].hi, runs[1..], x);
    }
  }

  /** Of two sorted lists with the same bytes, the first run of one starts no earlier and ends no later. */
  lemma FirstRun(floor: int, a: seq<Run>, b: seq<Run>)
    requires Sorted(floor, a) && Sorted(floor, b) && a != []
    requires forall x :: In(a, x) <==> In(b, x)
    ensures b != [] && b[0].lo <= a[0].lo && (a[0].lo == b[0].lo ==> a[0].hi <= b[0].hi)
  {
    assert In(a, a[0].lo);
    assert In(b, a[0].lo);
    var i := InRun(b, a[0].lo);
    if a[0].lo == b[0].lo && b[0].hi < a[0].hi {
      assert In(a, b[0].hi);
      var j := InRun(b, b[0].hi);
    }
  }
}
