/** Retransmission on the third duplicate acknowledgement, at most once per recovery epoch. */
module FastRetransmit {
  import opened Numbers
  import opened Sequence
  import opened RetransmissionQueue
  import opened SlotMap

  const DUPLICATE_ACK_THRESHOLD: u32 := 3

  datatype Fast = Fast(lastAck: u32, recoveryPoint: u32, duplicates: u32, inRecovery: bool)

  /** `resend` is the position of the segment to resend; the length of the queue stands for none. */
  datatype Decision<B> = Decision(fast: Fast, queue: seq<Pending<B>>, resend: nat)

  function Counted(f: Fast): Fast {
    f.(duplicates := if f.duplicates == TWO_32 - 1 then f.duplicates else f.duplicates + 1)
  }

  function Acked<B>(f: Fast, q: seq<Pending<B>>, ack: u32, now: u64): (d: Decision<B>)
    ensures |d.queue| == |q| && d.resend <= |q|
  {
    if Greater(ack, f.lastAck) then
      Decision(f.(lastAck := ack, duplicates := 0, inRecovery := f.inRecovery && !LessEqual(f.recoveryPoint, ack)), q, |q|)
    else if ack != f.lastAck then Decision(f, q, |q|)
    else
      var counted := Counted(f);
      var n := LowestUnsacked(q);
      if counted.duplicates != DUPLICATE_ACK_THRESHOLD || f.inRecovery || n == |q| then Decision(counted, q, |q|)
      else Decision(counted.(recoveryPoint := q[|q| - 1].end, inRecovery := true), q[n := Resent(q[n], now)], n)
  }

  /** A resend needs the third duplicate, and none follows it before the acknowledgement passes the recovery point. */
  lemma ResendOpensEpoch<B>(f: Fast, q: seq<Pending<B>>, ack: u32, now: u64)
    ensures var d := Acked(f, q, ack, now);
            && (d.resend < |q| ==> !f.inRecovery && d.fast.inRecovery && d.fast.duplicates == DUPLICATE_ACK_THRESHOLD
                                   && ack == f.lastAck && !q[d.resend].sacked)
            && (f.inRecovery && !d.fast.inRecovery ==> Greater(ack, f.lastAck) && LessEqual(f.recoveryPoint, ack))
  {
  }

  // ---- When a segment is resent, over every run of acknowledgements ----

  /** An acknowledgement, and the queue as it is when it is looked at. */
  datatype Arrival<B> = Arrival(ack: u32, queue: seq<Pending<B>>, now: u64)

  function Run<B>(initial: u32, arrivals: seq<Arrival<B>>): Fast {
    if arrivals == [] then Fast(initial, 0, 0, false)
    else
      var a := arrivals[|arrivals| - 1];
      Acked(Run(initial, arrivals[..|arrivals| - 1]), a.queue, a.ack, a.now).fast
  }

  /** The highest point acknowledged so far. */
  function Point<B>(initial: u32, arrivals: seq<Arrival<B>>): u32 {
    if arrivals == [] then initial
    else
      var point, a := Point(initial, arrivals[..|arrivals| - 1]), arrivals[|arrivals| - 1];
      if Greater(a.ack, point) then a.ack else point
  }

  /** How often the point has been repeated since it moved there. */
  function Repeats<B>(initial: u32, arrivals: seq<Arrival<B>>): nat {
    if arrivals == [] then 0
    else
      var init, a := arrivals[..|arrivals| - 1], arrivals[|arrivals| - 1];
      if Greater(a.ack, Point(initial, init)) then 0
      else Repeats(initial, init) + if a.ack == Point(initial, init) then 1 else 0
  }

  /** The end of the queue at the last resend, until an acknowledgement reaches it. */
  function Epoch<B>(initial: u32, arrivals: seq<Arrival<B>>): Option<u32>
    decreases |arrivals|, 0
  {
    if arrivals == [] then None
    else
      var init, a := arrivals[..|arrivals| - 1], arrivals[|arrivals| - 1];
      if ThirdRepeat(initial, init, a) then Some(a.queue[|a.queue| - 1].end)
      else if Greater(a.ack, Point(initial, init)) && Epoch(initial, init).Some? && LessEqual(Epoch(initial, init).value, a.ack) then None
      else Epoch(initial, init)
  }

  /** This is exactly the third repeat of the point, no epoch is open, and some segment is not marked. */
  predicate ThirdRepeat<B>(initial: u32, arrivals: seq<Arrival<B>>, a: Arrival<B>)
    decreases |arrivals|, 1
  {
    a.ack == Point(initial, arrivals) && Repeats(initial, arrivals) == 2 && Epoch(initial, arrivals).None? && SomeUnmarked(a.queue)
  }

  predicate SomeUnmarked<B>(q: seq<Pending<B>>) {
    exists i :: 0 <= i < |q| && !q[i].sacked
  }

  predicate FirstUnmarked<B>(q: seq<Pending<B>>, n: nat) {
    n < |q| && !q[n].sacked && forall i :: 0 <= i < n ==> q[i].sacked
  }

  /** The controller's fields are the history. */
  lemma {:induction false} RunIsHistory<B>(initial: u32, arrivals: seq<Arrival<B>>)
    ensures var f := Run(initial, arrivals);
            && f.lastAck == Point(initial, arrivals) && f.duplicates == Min(Repeats(initial, arrivals), TWO_32 - 1)
            && (f.inRecovery <==> Epoch(initial, arrivals).Some?)
            && (f.inRecovery ==> f.recoveryPoint == Epoch(initial, arrivals).value)
    decreases |arrivals|
  {
    hide Greater, LessEqual;
    if arrivals != [] {
      var init, a := arrivals[..|arrivals| - 1], arrivals[|arrivals| - 1];
      RunIsHistory(initial, init);
      UnmarkedIsLowest(a.queue);
      ThirdIsNotFirst(initial, init, a);
    }
  }

  lemma UnmarkedIsLowest<B>(q: seq<Pending<B>>)
    ensures SomeUnmarked(q) <==> LowestUnsacked(q) < |q|
    ensures SomeUnmarked(q) ==> FirstUnmarked(q, LowestUnsacked(q))
  {
  }

  /** One acknowledgement: what it does to the count, and when it resends. */
  lemma OneAck<B>(f: Fast, q: seq<Pending<B>>, ack: u32, now: u64)
    ensures var d := Acked(f, q, ack, now);
            && d.fast.duplicates == (if Greater(ack, f.lastAck) then 0 else if ack == f.lastAck then Min(f.duplicates + 1, TWO_32 - 1)
                                     else f.duplicates)
            && (d.resend < |q| <==> !Greater(ack, f.lastAck) && ack == f.lastAck && f.duplicates == 2 && !f.inRecovery && SomeUnmarked(q))
  {
    hide Greater, LessEqual;
    UnmarkedIsLowest(q);
  }

  /**
   After any run of acknowledgements, one more resends a segment if and only if it is exactly the third repeat of the
   point, no epoch is open and some segment is unmarked; it is the first unmarked one, and nothing else in the queue
   changes.
   */
  lemma ResendsExactly<B>(initial: u32, arrivals: seq<Arrival<B>>, a: Arrival<B>)
    ensures var d, q := Acked(Run(initial, arrivals), a.queue, a.ack, a.now), a.queue;
            && (d.resend < |q| <==> ThirdRepeat(initial, arrivals, a))
            && (d.resend < |q| ==> FirstUnmarked(q, d.resend)
                                   && d.queue == q[d.resend := q[d.resend].(sentAt := a.now, retransmits := Min(q[d.resend].retransmits + 1, 65535))])
            && (d.resend == |q| ==> d.queue == q)
  {
    hide Greater, LessEqual, Run;
    RunIsHistory(initial, arrivals);
    UnmarkedIsLowest(a.queue);
    ThirdIsNotFirst(initial, arrivals, a);
  }

  lemma ThirdIsNotFirst<B>(initial: u32, arrivals: seq<Arrival<B>>, a: Arrival<B>)
    ensures ThirdRepeat(initial, arrivals, a) ==> !Greater(a.ack, Point(initial, arrivals))
  {
  }

  class FastRetransmitController {
    var lastAck: u32
    var recoveryPoint: u32
    var duplicates: u32
    var inRecovery: bool

    function View(): Fast
      reads this
    {
      Fast(lastAck, recoveryPoint, duplicates, inRecovery)
    }

    constructor (initialAck: u32)
      ensures View() == Fast(initialAck, 0, 0, false)
    {
      lastAck, recoveryPoint, duplicates, inRecovery := initialAck, 0, 0, false;
    }

    method OnAck(ack: u32, now: u64, queue: RetransmissionQueue)
      returns (resend: nat, recoveryComplete: bool, duplicateCount: u32)
      requires queue.Valid()
      modifies this, queue.segments
      ensures Decision(View(), queue.View(), resend) == Acked(old(View()), old(queue.View()), ack, now)
      ensures recoveryComplete == (old(inRecovery) && !inRecovery)
      ensures duplicateCount == if ack == old(lastAck) then duplicates else 0
    {
      resend, recoveryComplete, duplicateCount := queue.size, false, 0;
      if Greater(ack, lastAck) {
        lastAck := ack;
        duplicates := 0;
        if inRecovery && LessEqual(recoveryPoint, ack) {
          inRecovery := false;
          recoveryComplete := true;
        }
        return;
      }
      if ack != lastAck {
        return;
      }
      if duplicates != TWO_32 - 1 {
        duplicates := duplicates + 1;
      }
      duplicateCount := duplicates;
      if duplicates != DUPLICATE_ACK_THRESHOLD || inRecovery {
        return;
      }
      var n := queue.FindLowestUnsacked();
      if n == queue.size {
        return;
      }
      recoveryPoint := queue.segments[queue.size - 1].end;
      queue.MarkResent(n, now);
      inRecovery := true;
      resend := n;
    }
  }
}
