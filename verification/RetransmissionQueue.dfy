/**
 The sender's queue of segments that are not yet cumulatively acknowledged, with
 the selective-acknowledgement scoreboard.  The queue is generic in what an entry
 knows of its buffer: the implementation keeps a handle into the packet pool, the
 connection's specification keeps the bytes.
 */
module RetransmissionQueue {
  import opened Numbers
  import opened Sequence
  import opened Wire
  import opened PacketPool

  const RETRANSMISSION_CAPACITY: nat := 1024

  datatype Pending<B> = Pending(start: u32, end: u32, buffer: B, sentAt: u64, retransmits: u16, sacked: bool)

  datatype EnqueueStatus = Accepted | Full | InvalidSegment | OutOfOrder

  /** How many segments at the front are fully covered by a cumulative acknowledgement. */
  function AckedPrefix<B>(q: seq<Pending<B>>, ack: u32): (n: nat)
    ensures n <= |q|
    ensures forall i :: 0 <= i < n ==> LessEqual(q[i].end, ack)
    ensures n < |q| ==> !LessEqual(q[n].end, ack)
  {
    if q == [] || !LessEqual(q[0].end, ack) then 0 else 1 + AckedPrefix(q[1..], ack)
  }

  predicate Covers<B>(block: SackBlock, p: Pending<B>) {
    LessEqual(block.start, p.start) && LessEqual(p.end, block.end)
  }

  /** A segment is marked exactly when it was marked before or a non-empty block fully covers it. */
  predicate MarkedBy<B>(p: Pending<B>, blocks: seq<SackBlock>) {
    p.sacked || exists k :: 0 <= k < |blocks| && blocks[k].start != blocks[k].end && Covers(blocks[k], p)
  }

  function Sacked<B>(q: seq<Pending<B>>, blocks: seq<SackBlock>): (r: seq<Pending<B>>)
    ensures |r| == |q|
  {
    seq(|q|, i requires 0 <= i < |q| => q[i].(sacked := MarkedBy(q[i], blocks)))
  }

  /** The first segment that is not marked, or the length of the queue if all are. */
  function LowestUnsacked<B>(q: seq<Pending<B>>): (n: nat)
    ensures n <= |q|
    ensures forall i :: 0 <= i < n ==> q[i].sacked
    ensures n < |q| ==> !q[n].sacked
  {
    if q == [] || !q[0].sacked then 0 else 1 + LowestUnsacked(q[1..])
  }

  /** Records a retransmission; the count saturates. */
  function Resent<B>(p: Pending<B>, now: u64): Pending<B> {
    p.(retransmits := if p.retransmits == TWO_16 - 1 then p.retransmits else p.retransmits + 1, sentAt := now)
  }

  function EnqueueOutcome<B>(q: seq<Pending<B>>, capacity: nat, hasBuffer: bool, start: u32, end: u32): EnqueueStatus {
    if !hasBuffer || start == end then InvalidSegment
    else if |q| == capacity then Full
    else if q != [] && !Less(q[|q| - 1].start, start) then OutOfOrder
    else Accepted
  }

  // ---- What an entry knows of its buffer does not matter to the queue ----

  function WithBytes(q: seq<Pending<int>>, bytes: seq<seq<u8>>): (r: seq<Pending<seq<u8>>>)
    requires forall i :: 0 <= i < |q| ==> 0 <= q[i].buffer < |bytes|
    ensures |r| == |q|
  {
    seq(|q|, i requires 0 <= i < |q| =>
      Pending(q[i].start, q[i].end, bytes[q[i].buffer], q[i].sentAt, q[i].retransmits, q[i].sacked))
  }

  lemma AckedPrefixUnique<B>(q: seq<Pending<B>>, ack: u32, n: nat)
    requires n <= |q| && (forall i :: 0 <= i < n ==> LessEqual(q[i].end, ack))
    requires n < |q| ==> !LessEqual(q[n].end, ack)
    ensures AckedPrefix(q, ack) == n
  {
  }

  lemma LowestUnsackedUnique<B>(q: seq<Pending<B>>, n: nat)
    requires n <= |q| && (forall i :: 0 <= i < n ==> q[i].sacked) && (n < |q| ==> !q[n].sacked)
    ensures LowestUnsacked(q) == n
  {
  }

  lemma QueueIgnoresBytes(q: seq<Pending<int>>, bytes: seq<seq<u8>>, ack: u32, blocks: seq<SackBlock>)
    requires forall i :: 0 <= i < |q| ==> 0 <= q[i].buffer < |bytes|
    ensures AckedPrefix(WithBytes(q, bytes), ack) == AckedPrefix(q, ack)
    ensures LowestUnsacked(WithBytes(q, bytes)) == LowestUnsacked(q)
    ensures Sacked(WithBytes(q, bytes), blocks) == WithBytes(Sacked(q, blocks), bytes)
  {
    var w := WithBytes(q, bytes);
    AckedPrefixUnique(w, ack, AckedPrefix(q, ack));
    LowestUnsackedUnique(w, LowestUnsacked(q));
    forall i | 0 <= i < |q| ensures MarkedBy(w[i], blocks) == MarkedBy(q[i], blocks) {
      assert forall k :: 0 <= k < |blocks| ==> Covers(blocks[k], w[i]) == Covers(blocks[k], q[i]);
    }
  }

  // ---- Ownership ----

  function Handles(q: seq<Pending<int>>): set<int> {
    set i | 0 <= i < |q| :: q[i].buffer
  }

  lemma NoHandles(q: seq<Pending<int>>)
    ensures Handles(q[..0]) == {}
  {
  }

  /** The queue owns exactly the given buffers, each through one segment. */
  ghost predicate Owns(q: seq<Pending<int>>, used: set<int>) {
    && (forall k :: k in used <==> k in Handles(q))
    && (forall i :: 0 <= i < |q| ==> q[i].buffer in used)
    && (forall i, j :: 0 <= i < j < |q| ==> q[i].buffer != q[j].buffer)
  }

  lemma {:induction false} OwnsCount(q: seq<Pending<int>>, used: set<int>)
    requires Owns(q, used)
    ensures |used| == |q|
    decreases |q|
  {
    if q == [] {
      assert forall k :: k !in used;
      assert used == {};
    } else {
      var rest := q[1..];
      var less := used - {q[0].buffer};
      assert Owns(rest, less) by {
        forall k ensures k in less <==> k in Handles(rest) {
          if k in less {
            var i :| 0 <= i < |q| && q[i].buffer == k;
            assert rest[i - 1].buffer == k;
          }
          if k in Handles(rest) {
            var i :| 0 <= i < |rest| && rest[i].buffer == k;
            assert q[i + 1].buffer == k;
          }
        }
      }
      OwnsCount(rest, less);
    }
  }

  lemma HandlesOfPrefix(q: seq<Pending<int>>, n: nat)
    requires n < |q|
    ensures Handles(q[..n + 1]) == Handles(q[..n]) + {q[n].buffer}
  {
    forall k ensures k in Handles(q[..n + 1]) <==> k in Handles(q[..n]) + {q[n].buffer} {
      if k in Handles(q[..n]) + {q[n].buffer} && k != q[n].buffer {
        var i :| 0 <= i < n && q[..n][i].buffer == k;
        assert q[..n + 1][i].buffer == k;
      }
      if k == q[n].buffer {
        assert q[..n + 1][n].buffer == k;
      }
      if k in Handles(q[..n + 1]) && k != q[n].buffer {
        var i :| 0 <= i < n + 1 && q[..n + 1][i].buffer == k;
        assert q[..n][i].buffer == k;
      }
    }
  }

  /** Dropping a released prefix of an owning queue leaves an owning queue. */
  lemma OwnsSuffix(q: seq<Pending<int>>, used: set<int>, n: nat)
    requires Owns(q, used) && n <= |q|
    ensures Owns(q[n..], used - Handles(q[..n]))
  {
    var rest, less := q[n..], used - Handles(q[..n]);
    forall k ensures k in less <==> k in Handles(rest) {
      if k in less {
        var i :| 0 <= i < |q| && q[i].buffer == k;
        assert rest[i - n].buffer == k;
      }
      if k in Handles(rest) {
        var i :| 0 <= i < |rest| && rest[i].buffer == k;
        assert q[n + i].buffer == k;
      }
    }
    forall i | 0 <= i < |rest| ensures rest[i].buffer in less {
      assert rest[i].buffer in Handles(rest);
    }
  }

  /** An owning queue releases without an error: every buffer it still names is in use. */
  lemma OwnedIsInUse(q: seq<Pending<int>>, used: set<int>, n: nat)
    requires Owns(q, used) && n < |q|
    ensures q[n].buffer in used - Handles(q[..n])
  {
    OwnsSuffix(q, used, n);
    assert q[n..][0].buffer == q[n].buffer;
  }

  function MarkCovered<B>(q: seq<Pending<B>>, block: SackBlock): (r: seq<Pending<B>>)
    ensures |r| == |q|
  {
    seq(|q|, i requires 0 <= i < |q| => q[i].(sacked := q[i].sacked || Covers(block, q[i])))
  }

  /** How many segments are marked. */
  function Marks<B>(q: seq<Pending<B>>): nat {
    if q == [] then 0 else Marks(q[..|q| - 1]) + if q[|q| - 1].sacked then 1 else 0
  }

  function EmptyBlocks(blocks: seq<SackBlock>): nat {
    if blocks == [] then 0
    else EmptyBlocks(blocks[..|blocks| - 1]) + if blocks[|blocks| - 1].start == blocks[|blocks| - 1].end then 1 else 0
  }

  /** Applying one more block. */
  lemma SackedStep<B>(q: seq<Pending<B>>, blocks: seq<SackBlock>, k: nat)
    requires k < |blocks|
    ensures Sacked(q, blocks[..k + 1])
         == if blocks[k].start != blocks[k].end then MarkCovered(Sacked(q, blocks[..k]), blocks[k])
            else Sacked(q, blocks[..k])
  {
    var b := blocks[k];
    forall i | 0 <= i < |q|
      ensures MarkedBy(q[i], blocks[..k + 1])
         <==> MarkedBy(q[i], blocks[..k]) || (b.start != b.end && Covers(b, q[i]))
    {
      assert blocks[..k + 1] == blocks[..k] + [b];
      if MarkedBy(q[i], blocks[..k]) && !q[i].sacked {
        var j :| 0 <= j < k && blocks[..k][j].start != blocks[..k][j].end && Covers(blocks[..k][j], q[i]);
        assert blocks[..k + 1][j] == blocks[..k][j];
      }
      if b.start != b.end && Covers(b, q[i]) {
        assert blocks[..k + 1][k] == b;
      }
    }
  }

  // ---- The implementation ----

  /** The elements from `count` to `index` have moved down to the front, the later ones not yet. */
  ghost predicate Shifting<T>(before: seq<T>, now: seq<T>, count: nat, index: nat) {
    && count <= index <= |before| == |now|
    && (forall i :: 0 <= i < index - count ==> now[i] == before[count..][i])
    && (forall i :: index <= i < |now| ==> now[i] == before[i])
  }

  lemma ShiftStep<T>(before: seq<T>, now: seq<T>, count: nat, index: nat)
    requires Shifting(before, now, count, index) && index < |before|
    ensures Shifting(before, now[index - count := now[index]], count, index + 1)
  {
  }

  lemma Shifted<T>(before: seq<T>, now: seq<T>, count: nat, size: nat)
    requires Shifting(before, now, count, size)
    ensures now[..size - count] == before[..size][count..]
  {
    assert forall i :: 0 <= i < size - count ==> before[..size][count..][i] == before[count..][i];
  }

  /** The block has been applied to the first `index` segments. */
  ghost predicate Marking(before: seq<Pending<int>>, now: seq<Pending<int>>, block: SackBlock, index: nat) {
    index <= |before| == |now| && now[..index] == MarkCovered(before[..index], block) && now[index..] == before[index..]
  }

  lemma NoMarks(before: seq<Pending<int>>, block: SackBlock)
    ensures Marking(before, before, block, 0) && Marks(before[..0]) == 0
  {
  }

  lemma MarkStep(before: seq<Pending<int>>, now: seq<Pending<int>>, block: SackBlock, index: nat)
    requires Marking(before, now, block, index) && index < |before|
    ensures var p := now[index];
            var next := now[index := p.(sacked := p.sacked || Covers(block, p))];
            && Marking(before, next, block, index + 1)
            && Marks(next[..index + 1]) - Marks(before[..index + 1])
               == Marks(now[..index]) - Marks(before[..index]) + if Covers(block, p) && !p.sacked then 1 else 0
  {
    hide Covers;
    assert now[index] == now[index..][0] == before[index];
    var next := now[index := now[index].(sacked := now[index].sacked || Covers(block, now[index]))];
    assert next[..index + 1][..index] == now[..index] && before[..index + 1][..index] == before[..index];
    assert forall i :: 0 <= i < index ==> next[i] == now[..index][i];
    assert next[index + 1..] == now[index..][1..] && before[index + 1..] == before[index..][1..];
  }

  class RetransmissionQueue {
    const segments: array<Pending<int>>
    const capacity: nat
    var size: nat

    ghost predicate Valid()
      reads this
    {
      segments.Length == RETRANSMISSION_CAPACITY && size <= capacity <= RETRANSMISSION_CAPACITY
    }

    ghost function View(): seq<Pending<int>>
      requires Valid()
      reads this, segments
    {
      segments[..size]
    }

    constructor (requested: nat)
      ensures Valid() && fresh(segments) && View() == [] && capacity == Min(requested, RETRANSMISSION_CAPACITY)
    {
      segments := new Pending<int>[RETRANSMISSION_CAPACITY](_ => Pending(0, 0, NO_BUFFER, 0, 0, false));
      capacity := Min(requested, RETRANSMISSION_CAPACITY);
      size := 0;
    }

    method Enqueue(p: Pending<int>) returns (status: EnqueueStatus)
      requires Valid()
      modifies this, segments
      ensures Valid()
      ensures status == EnqueueOutcome(old(View()), capacity, p.buffer != NO_BUFFER, p.start, p.end)
      ensures View() == if status == Accepted then old(View()) + [p] else old(View())
    {
      if p.buffer == NO_BUFFER || p.start == p.end {
        return InvalidSegment;
      }
      if size == capacity {
        return Full;
      }
      if size != 0 && !Less(segments[size - 1].start, p.start) {
        return OutOfOrder;
      }
      segments[size] := p;
      size := size + 1;
      return Accepted;
    }

    /** Drops the first `count` segments, shifting the others down. */
    method Compact(count: nat)
      requires Valid() && count <= size
      modifies this, segments
      ensures Valid() && View() == old(View()[count..])
    {
      var index := count;
      while index < size
        modifies segments
        invariant index <= size && Shifting(old(segments[..]), segments[..], count, index)
      {
        ghost var now := segments[..];
        ShiftStep(old(segments[..]), now, count, index);
        segments[index - count] := segments[index];
        assert segments[..] == now[index - count := now[index]];
        index := index + 1;
      }
      Shifted(old(segments[..]), segments[..], count, size);
      assert old(View()) == old(segments[..])[..size];
      size := size - count;
    }

    /** Gives back the buffers of the acknowledged segments and drops those segments; stops at a buffer the pool refuses. */
    method Acknowledge(ack: u32, pool: PacketPool) returns (released: nat, poolError: bool)
      requires Valid() && pool.Valid() && segments !in pool.Repr && this !in pool.Repr
      modifies this, segments, pool.Repr
      ensures Valid() && pool.Valid()
      ensures released <= AckedPrefix(old(View()), ack) && View() == old(View())[released..]
      ensures pool.used == old(pool.used) - Handles(old(View())[..released])
      ensures poolError <==> released < AckedPrefix(old(View()), ack)
      ensures poolError ==> old(View())[released].buffer !in pool.used
      ensures forall k :: k in pool.used ==> pool.storage[k] == old(pool.storage[k])
    {
      var covered := CountAcked(ack);
      released, poolError := ReleaseFirst(covered, pool);
      Compact(released);
    }

    /** How many segments at the front the acknowledgement covers. */
    method CountAcked(ack: u32) returns (n: nat)
      requires Valid()
      ensures n == AckedPrefix(View(), ack)
    {
      n := 0;
      while n < size && LessEqual(segments[n].end, ack)
        invariant n <= size
        invariant forall i :: 0 <= i < n ==> LessEqual(segments[i].end, ack)
      {
        n := n + 1;
      }
      AckedPrefixUnique(View(), ack, n);
    }

    /** Gives back the buffers of the first `n` segments, up to one that the pool refuses. */
    method ReleaseFirst(n: nat, pool: PacketPool) returns (released: nat, poolError: bool)
      requires Valid() && pool.Valid() && segments !in pool.Repr && this !in pool.Repr && n <= size
      modifies pool.Repr
      ensures pool.Valid() && released <= n
      ensures pool.used == old(pool.used) - Handles(View()[..released])
      ensures poolError <==> released < n
      ensures poolError ==> View()[released].buffer !in pool.used
      ensures forall k :: k in pool.used ==> pool.storage[k] == old(pool.storage[k])
    {
      hide Handles, ExactlyFree;
      ghost var q := View();
      released, poolError := 0, false;
      NoHandles(q);
      while released < n
        modifies pool.Repr
        invariant released <= n && pool.Valid()
        invariant View() == q && segments !in pool.Repr && this !in pool.Repr
        invariant pool.used == old(pool.used) - Handles(q[..released])
        invariant forall k :: k in pool.used ==> pool.storage[k] == old(pool.storage[k])
      {
        HandlesOfPrefix(q, released);
        var ok := pool.Release(segments[released].buffer);
        if !ok {
          return released, true;
        }
        released := released + 1;
      }
    }

    /** Gives back every buffer; stops, keeping the rest, at a buffer the pool refuses. */
    method Clear(pool: PacketPool) returns (released: nat, poolError: bool)
      requires Valid() && pool.Valid() && segments !in pool.Repr && this !in pool.Repr
      modifies this, segments, pool.Repr
      ensures Valid() && pool.Valid()
      ensures released <= |old(View())| && View() == old(View())[released..]
      ensures pool.used == old(pool.used) - Handles(old(View())[..released])
      ensures poolError <==> released < |old(View())|
      ensures poolError ==> old(View())[released].buffer !in pool.used
    {
      released, poolError := ReleaseFirst(size, pool);
      Compact(released);
    }

    method ApplySacks(blocks: seq<SackBlock>) returns (newlySacked: nat, invalidBlocks: nat)
      requires Valid()
      modifies segments
      ensures View() == Sacked(old(View()), blocks)
      ensures newlySacked == Marks(View()) - Marks(old(View())) && invalidBlocks == EmptyBlocks(blocks)
    {
      newlySacked, invalidBlocks := 0, 0;
      ghost var q := View();
      assert Sacked(q, []) == q;
      assert blocks[..0] == [];
      for k := 0 to |blocks|
        invariant View() == Sacked(q, blocks[..k])
        invariant newlySacked == Marks(View()) - Marks(q) && invalidBlocks == EmptyBlocks(blocks[..k])
      {
        assert blocks[..k + 1][..k] == blocks[..k];
        if blocks[k].start == blocks[k].end {
          invalidBlocks := invalidBlocks + 1;
        } else {
          var newly := ApplyBlock(blocks[k]);
          newlySacked := newlySacked + newly;
        }
        SackedStep(q, blocks, k);
      }
      assert blocks[..|blocks|] == blocks;
    }

    method ApplyBlock(block: SackBlock) returns (newly: nat)
      requires Valid()
      modifies segments
      ensures View() == MarkCovered(old(View()), block) && newly == Marks(View()) - Marks(old(View()))
    {
      hide Covers;
      hide MarkCovered, Marks, Covers;
      newly := 0;
      var index := 0;
      ghost var q := View();
      NoMarks(q, block);
      while index < size
        invariant 0 <= index <= size && Marking(q, View(), block, index)
        invariant newly == Marks(View()[..index]) - Marks(q[..index])
      {
        ghost var now := View();
        MarkStep(q, now, block, index);
        if Covers(block, segments[index]) && !segments[index].sacked {
          segments[index] := segments[index].(sacked := true);
          newly := newly + 1;
        }
        assert View() == now[index := segments[index]];
        index := index + 1;
      }
      assert q[..size] == q && View()[..size] == View();
    }

    /** The position of the first segment that is not marked; the size of the queue stands for none. */
    method FindLowestUnsacked() returns (n: nat)
      requires Valid()
      ensures n == LowestUnsacked(View())
    {
      n := 0;
      while n < size && segments[n].sacked
        invariant n <= size && forall i :: 0 <= i < n ==> segments[i].sacked
      {
        n := n + 1;
      }
      LowestUnsackedUnique(View(), n);
    }

    /** The update that fast retransmit and the timer make through the segment they were given. */
    method MarkResent(index: nat, now: u64)
      requires Valid() && index < size
      modifies segments
      ensures View() == old(View())[index := Resent(old(View())[index], now)]
    {
      segments[index] := Resent(segments[index], now);
    }
  }
}
