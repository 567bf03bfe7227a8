/**
 The single-producer single-consumer ring as a step relation. A push and a pop are each cut into the
 accesses they make to shared memory, the two threads interleave them freely, and the load of the other
 side's cursor may return any value it has had since the last one that was seen. The counts of finished
 pushes and pops are not bounded; the cursors hold them modulo 2^64.
 */
module SpscRing {
  import opened Numbers

  /** The cursor value for a count. */
  function Cursor(count: nat): u64 {
    count % TWO_64
  }

  /** Subtraction of cursors, modulo 2^64. */
  function Distance(write: u64, read: u64): u64 {
    (write as int - read as int) % TWO_64
  }

  /** The powers of two from 2 on that a 64-bit size can be: the divisors of 2^64. */
  predicate IsCapacity(capacity: nat) {
    2 <= capacity < TWO_64 && TWO_64 % capacity == 0
  }

  datatype Producer<T> =
    | Ready
    | HaveWrite(value: T, write: u64)
    | HaveRead(value: T, write: u64, read: u64)
    | Writing(value: T, write: u64)
    | Written(value: T, write: u64)

  datatype Consumer<T> =
    | Waiting
    | KnowRead(read: u64)
    | KnowWrite(read: u64, write: u64)
    | Copying(read: u64)
    | Copied(read: u64, copy: T)

  /** `pushed`, `popped`, `seenPopped` and `seenPushed` are history: the first two are the finished operations, the others the latest counts each side has seen. */
  datatype Ring<T> = Ring(
    slots: seq<T>, producerCursor: u64, consumerCursor: u64, producer: Producer<T>, consumer: Consumer<T>,
    pushed: seq<T>, popped: seq<T>, seenPopped: nat, seenPushed: nat)

  datatype Action<T> =
    | PushStart(value: T) | PushLoad(seen: nat) | PushRefuse | PushBegin(junk: T) | PushEnd | PushPublish
    | PopStart | PopLoad(seen: nat) | PopRefuse | PopBegin | PopEnd | PopPublish

  function Empty<T>(slots: seq<T>): Ring<T> {
    Ring(slots, 0, 0, Ready, Waiting, [], [], 0, 0)
  }

  function Slot<T>(s: Ring<T>, cursor: u64): nat
    requires s.slots != []
  {
    cursor % |s.slots|
  }

  predicate Enabled<T>(s: Ring<T>, a: Action<T>) {
    match a
    case PushStart(_) => s.producer.Ready?
    case PushLoad(seen) => s.producer.HaveWrite? && s.seenPopped <= seen <= |s.popped|
    case PushRefuse => s.producer.HaveRead? && Distance(s.producer.write, s.producer.read) == |s.slots|
    case PushBegin(_) => s.producer.HaveRead? && Distance(s.producer.write, s.producer.read) != |s.slots|
    case PushEnd => s.producer.Writing?
    case PushPublish => s.producer.Written?
    case PopStart => s.consumer.Waiting?
    case PopLoad(seen) => s.consumer.KnowRead? && s.seenPushed <= seen <= |s.pushed|
    case PopRefuse => s.consumer.KnowWrite? && s.consumer.read == s.consumer.write
    case PopBegin => s.consumer.KnowWrite? && s.consumer.read != s.consumer.write
    case PopEnd => s.consumer.Copying?
    case PopPublish => s.consumer.Copied?
  }

  /** A write is not atomic: from its beginning to its end the slot may hold anything. */
  function Do<T>(s: Ring<T>, a: Action<T>): Ring<T>
    requires Enabled(s, a) && s.slots != []
  {
    match a
    case PushStart(value) => s.(producer := HaveWrite(value, s.producerCursor))
    case PushLoad(seen) => s.(producer := HaveRead(s.producer.value, s.producer.write, Cursor(seen)), seenPopped := seen)
    case PushRefuse => s.(producer := Ready)
    case PushBegin(junk) =>
      s.(slots := s.slots[Slot(s, s.producer.write) := junk], producer := Writing(s.producer.value, s.producer.write))
    case PushEnd =>
      s.(slots := s.slots[Slot(s, s.producer.write) := s.producer.value], producer := Written(s.producer.value, s.producer.write))
    case PushPublish =>
      s.(producerCursor := (s.producer.write + 1) % TWO_64, producer := Ready, pushed := s.pushed + [s.producer.value])
    case PopStart => s.(consumer := KnowRead(s.consumerCursor))
    case PopLoad(seen) => s.(consumer := KnowWrite(s.consumer.read, Cursor(seen)), seenPushed := seen)
    case PopRefuse => s.(consumer := Waiting)
    case PopBegin => s.(consumer := Copying(s.consumer.read))
    case PopEnd => s.(consumer := Copied(s.consumer.read, s.slots[Slot(s, s.consumer.read)]))
    case PopPublish =>
      s.(consumerCursor := (s.consumer.read + 1) % TWO_64, consumer := Waiting, popped := s.popped + [s.consumer.copy])
  }

  // ---- Cursors ----

  /** Masking a cursor is masking the count: the capacity divides 2^64. */
  lemma SlotOfCursor(count: nat, capacity: nat)
    requires IsCapacity(capacity)
    ensures Cursor(count) % capacity == count % capacity
  {
    var m, q := TWO_64 / capacity, count / TWO_64;
    assert count == q * TWO_64 + Cursor(count);
    assert q * TWO_64 == capacity * (m * q);
    AddMultiple(Cursor(count), m * q, capacity);
  }

  lemma {:induction false} AddMultiple(a: nat, k: nat, c: nat)
    requires c > 0
    ensures (a + c * k) % c == a % c
    decreases k
  {
    if k > 0 {
      AddMultiple(a, k - 1, c);
      var b := a + c * (k - 1);
      assert a + c * k == b + c;
      AddOne(b, c);
    }
  }

  lemma AddOne(b: nat, c: nat)
    requires c > 0
    ensures (b + c) % c == b % c
  {
    var q := b / c;
    assert b + c == (q + 1) * c + b % c;
    SameRemainder(q + 1, b % c, (b + c) / c, (b + c) % c, c);
  }

  lemma {:induction false} ProductsAreOrdered(a: nat, b: nat, c: nat)
    requires a < b
    ensures a * c + c <= b * c
    decreases b
  {
    if a + 1 < b {
      ProductsAreOrdered(a, b - 1, c);
    }
    assert b * c == (b - 1) * c + c;
  }

  lemma SameRemainder(q: nat, r: nat, q': nat, r': nat, c: nat)
    requires r < c && r' < c && q * c + r == q' * c + r'
    ensures r == r'
  {
    if q < q' {
      ProductsAreOrdered(q, q', c);
    } else if q' < q {
      ProductsAreOrdered(q', q, c);
    }
  }

  lemma QuotientIs(n: nat, c: nat)
    requires c > 0
    ensures n == n / c * c + n % c
  {
  }

  /** Two counts with the same slot are at least a whole round apart. */
  lemma RoundApart(q: nat, q': nat, r: nat, c: nat)
    requires q * c + r < q' * c + r
    ensures q * c + r + c <= q' * c + r
  {
    if q < q' {
      ProductsAreOrdered(q, q', c);
    } else if q' < q {
      ProductsAreOrdered(q', q, c);
    }
  }

  /** Two counts less than a capacity apart have different slots. */
  lemma SlotsDiffer(i: nat, j: nat, capacity: nat)
    requires i < j < i + capacity
    ensures i % capacity != j % capacity
  {
    QuotientIs(i, capacity);
    QuotientIs(j, capacity);
    if i % capacity == j % capacity {
      RoundApart(i / capacity, j / capacity, i % capacity, capacity);
    }
  }

  lemma DistanceIs(n: nat, m: nat)
    requires m <= n < m + TWO_64
    ensures Distance(Cursor(n), Cursor(m)) == n - m
    ensures Cursor(n) == Cursor(m) <==> n == m
  {
  }

  lemma NextCursor(count: nat)
    ensures (Cursor(count) + 1) % TWO_64 == Cursor(count + 1)
  {
  }

  // ---- The invariant ----

  ghost predicate ProducerOk<T>(p: Producer<T>, slots: seq<T>, count: nat, seen: nat)
    requires slots != []
  {
    && count - seen <= |slots|
    && (!p.Ready? ==> p.write == Cursor(count))
    && (p.HaveRead? ==> p.read == Cursor(seen))
    && (p.Writing? || p.Written? ==> count - seen < |slots|)
    && (p.Written? ==> slots[count % |slots|] == p.value)
  }

  ghost predicate ConsumerOk<T>(c: Consumer<T>, pushed: seq<T>, count: nat, seen: nat) {
    && count <= seen <= |pushed|
    && (!c.Waiting? ==> c.read == Cursor(count))
    && (c.KnowWrite? ==> c.write == Cursor(seen))
    && (c.Copying? || c.Copied? ==> count < seen)
    && (c.Copied? ==> count < |pushed| && c.copy == pushed[count])
  }

  /** The unread values are in their slots. */
  ghost predicate Stored<T>(slots: seq<T>, pushed: seq<T>, from: nat)
    requires slots != []
  {
    forall i :: from <= i < |pushed| ==> slots[i % |slots|] == pushed[i]
  }

  ghost predicate Inv<T>(s: Ring<T>) {
    && IsCapacity(|s.slots|)
    && s.popped <= s.pushed
    && s.producerCursor == Cursor(|s.pushed|) && s.consumerCursor == Cursor(|s.popped|)
    && s.seenPopped <= |s.popped|
    && ProducerOk(s.producer, s.slots, |s.pushed|, s.seenPopped)
    && ConsumerOk(s.consumer, s.pushed, |s.popped|, s.seenPushed)
    && Stored(s.slots, s.pushed, |s.popped|)
  }

  lemma WriteKeepsStored<T>(slots: seq<T>, pushed: seq<T>, from: nat, v: T)
    requires slots != [] && from <= |pushed| < from + |slots| && Stored(slots, pushed, from)
    ensures Stored(slots[|pushed| % |slots| := v], pushed, from)
  {
    forall i | from <= i < |pushed| ensures slots[|pushed| % |slots| := v][i % |slots|] == pushed[i] {
      SlotsDiffer(i, |pushed|, |slots|);
    }
  }

  lemma PushKeepsInv<T>(s: Ring<T>, a: Action<T>)
    requires Inv(s) && Enabled(s, a)
    requires a.PushStart? || a.PushLoad? || a.PushRefuse? || a.PushBegin? || a.PushEnd? || a.PushPublish?
    ensures Inv(Do(s, a))
  {
    var n, c := |s.pushed|, |s.slots|;
    SlotOfCursor(n, c);
    match a
    case PushBegin(junk) =>
      DistanceIs(n, s.seenPopped);
      WriteKeepsStored(s.slots, s.pushed, |s.popped|, junk);
    case PushEnd =>
      WriteKeepsStored(s.slots, s.pushed, |s.popped|, s.producer.value);
    case PushPublish =>
      NextCursor(n);
    case _ =>
  }

  lemma PopKeepsInv<T>(s: Ring<T>, a: Action<T>)
    requires Inv(s) && Enabled(s, a)
    requires a.PopStart? || a.PopLoad? || a.PopRefuse? || a.PopBegin? || a.PopEnd? || a.PopPublish?
    ensures Inv(Do(s, a))
  {
    match a
    case PopBegin =>
      assert s.seenPushed - |s.popped| <= |s.slots|;
      DistanceIs(s.seenPushed, |s.popped|);
    case PopEnd =>
      SlotOfCursor(|s.popped|, |s.slots|);
    case PopPublish =>
      NextCursor(|s.popped|);
      assert s.popped + [s.consumer.copy] <= s.pushed;
    case _ =>
  }

  // ---- Runs ----

  function After<T>(s: Ring<T>, actions: seq<Action<T>>): Ring<T>
    requires s.slots != [] && IsRun(s, actions)
    ensures |After(s, actions).slots| == |s.slots|
    decreases |actions|, 1
  {
    if actions == [] then s
    else
      var n := |actions| - 1;
      Do(After(s, actions[..n]), actions[n])
  }

  predicate IsRun<T>(s: Ring<T>, actions: seq<Action<T>>)
    requires s.slots != []
    decreases |actions|, 0
  {
    actions != [] ==>
      var n := |actions| - 1;
      IsRun(s, actions[..n]) && Enabled(After(s, actions[..n]), actions[n])
  }

  lemma {:induction false} RunKeepsInv<T>(s: Ring<T>, actions: seq<Action<T>>)
    requires Inv(s) && IsRun(s, actions)
    ensures Inv(After(s, actions))
    decreases |actions|
  {
    if actions != [] {
      var before, a := After(s, actions[..|actions| - 1]), actions[|actions| - 1];
      RunKeepsInv(s, actions[..|actions| - 1]);
      if a.PushStart? || a.PushLoad? || a.PushRefuse? || a.PushBegin? || a.PushEnd? || a.PushPublish? {
        PushKeepsInv(before, a);
      } else {
        PopKeepsInv(before, a);
      }
    }
  }

  /** What the producer is writing is not one of the values still to be read, so in particular not the one being read. */
  ghost predicate WritesOnlyFree<T>(s: Ring<T>)
    requires s.slots != []
  {
    s.producer.Writing? || s.producer.Written? ==>
      && (forall i :: |s.popped| <= i < |s.pushed| ==> Slot(s, s.producer.write) != i % |s.slots|)
      && (s.consumer.Copying? ==> Slot(s, s.producer.write) != Slot(s, s.consumer.read))
  }

  lemma InvIsSafe<T>(s: Ring<T>)
    requires Inv(s)
    ensures |s.popped| <= |s.pushed| <= |s.popped| + |s.slots| && WritesOnlyFree(s)
  {
    if s.producer.Writing? || s.producer.Written? {
      SlotOfCursor(|s.pushed|, |s.slots|);
      SlotOfCursor(|s.popped|, |s.slots|);
      forall i | |s.popped| <= i < |s.pushed| ensures Slot(s, s.producer.write) != i % |s.slots| {
        SlotsDiffer(i, |s.pushed|, |s.slots|);
      }
    }
  }

  /** In every interleaving: values come out in the order they went in, none lost, none twice, never more than fit, and no race. */
  lemma Linearity<T>(slots: seq<T>, actions: seq<Action<T>>)
    requires IsCapacity(|slots|) && IsRun(Empty(slots), actions)
    ensures var s := After(Empty(slots), actions);
            && s.popped <= s.pushed && |s.pushed| - |s.popped| <= |slots|
            && WritesOnlyFree(s)
  {
    RunKeepsInv(Empty(slots), actions);
    InvIsSafe(After(Empty(slots), actions));
  }

  /** A push is refused exactly when the ring looks full from what was seen, and a pop when it looks empty. */
  lemma RefusalIsExact<T>(slots: seq<T>, actions: seq<Action<T>>)
    requires IsCapacity(|slots|) && IsRun(Empty(slots), actions)
    ensures var s := After(Empty(slots), actions);
            && (s.producer.HaveRead? ==> (Enabled(s, PushRefuse) <==> |s.pushed| - s.seenPopped == |slots|))
            && (s.consumer.KnowWrite? ==> (Enabled(s, PopRefuse) <==> s.seenPushed == |s.popped|))
  {
    var s := After(Empty(slots), actions);
    RunKeepsInv(Empty(slots), actions);
    DistanceIs(|s.pushed|, s.seenPopped);
    InvIsSafe(s);
    DistanceIs(s.seenPushed, |s.popped|);
  }
}
