/**
 Serial-number comparison of 32-bit sequence numbers, and the unbounded
 positions that every ordering argument in the transport is carried out on.
 A position is an integer; the wire carries it modulo 2^32.
 */
module Sequence {
  import opened Numbers

  /** The 32-bit value an unbounded position has on the wire. */
  function Wrap(position: int): u32 {
    position % TWO_32
  }

  /** The difference `left - right` in 32-bit arithmetic. */
  function Diff(left: u32, right: u32): u32 {
    (left - right) % TWO_32
  }

  /** The sign bit of the 32-bit difference. */
  predicate Less(left: u32, right: u32) {
    Diff(left, right) >= TWO_31
  }

  predicate LessEqual(left: u32, right: u32) {
    left == right || Less(left, right)
  }

  predicate Greater(left: u32, right: u32) {
    Less(right, left)
  }

  /** The position nearest to `base` (in [-2^31, 2^31) of it) that wraps to `x`. */
  function Near(base: int, x: u32): (p: int)
    ensures Wrap(p) == x && -TWO_31 <= p - base < TWO_31
  {
    var d := Diff(x, Wrap(base));
    if d >= TWO_31 then base + d - TWO_32 else base + d
  }

  lemma NearOfWrap(base: int, p: int)
    requires -TWO_31 <= p - base < TWO_31
    ensures Near(base, Wrap(p)) == p
  {
  }

  lemma DiffOfWraps(a: int, b: int)
    ensures Diff(Wrap(a), Wrap(b)) == (a - b) % TWO_32
  {
  }

  /** Adding in 32-bit arithmetic is adding positions. */
  lemma WrapAdd(a: int, n: int)
    ensures (Wrap(a) + n) % TWO_32 == Wrap(a + n)
  {
  }

  /** Two positions less than 2^32 apart wrap to the same value only if they are equal. */
  lemma WrapInjective(a: int, b: int)
    requires -TWO_32 < a - b < TWO_32
    ensures Wrap(a) == Wrap(b) <==> a == b
  {
  }

  /**
   The serial comparison agrees with the order of the positions exactly when the
   left position is in [right - 2^31, right + 2^31), up to multiples of 2^32 that
   do not change the order.
   */
  lemma LessIsOrder(a: int, b: int)
    requires -TWO_31 <= a - b < TWO_31
    ensures Less(Wrap(a), Wrap(b)) <==> a < b
    ensures LessEqual(Wrap(a), Wrap(b)) <==> a <= b
  {
    DiffOfWraps(a, b);
  }

  /** At a distance of exactly 2^31, and only there, both directions compare as less. */
  lemma BothLessOnlyAtHalf(a: u32, b: u32)
    ensures Less(a, b) && Less(b, a) <==> Diff(a, b) == TWO_31
    ensures !Less(a, b) && !Less(b, a) <==> a == b
  {
  }

  /** Adding the difference gets from one value to the other. */
  lemma AddDiff(from: u32, to: u32)
    ensures (from + Diff(to, from)) % TWO_32 == to
  {
    assert Diff(to, from) == if from <= to then to - from else to - from + TWO_32;
  }

  /** A value that compares above `low` and not above `high`, less than 2^31 apart, lies between them. */
  lemma BetweenIsOffset(low: int, high: int, x: u32)
    requires 0 <= high - low < TWO_31 && Greater(x, Wrap(low)) && !Greater(x, Wrap(high))
    ensures 0 < Diff(x, Wrap(low)) <= high - low && x == Wrap(low + Diff(x, Wrap(low)))
  {
    hide Greater;
    var d := Diff(x, Wrap(low));
    WrapAdd(low, d);
    AddDiff(Wrap(low), x);
    BetweenBound(low, high, d);
  }

  lemma BetweenBound(low: int, high: int, d: u32)
    requires 0 <= high - low < TWO_31 && Greater(Wrap(low + d), Wrap(low)) && !Greater(Wrap(low + d), Wrap(high))
    ensures 0 < d <= high - low
  {
    hide Wrap;
    DiffOfWraps(low, low + d);
    DiffOfWraps(high, low + d);
  }
}
