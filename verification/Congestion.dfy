/** The congestion window in bytes: growth on acknowledgements, one decrease per recovery epoch. */
module Congestion {
  import opened Numbers
  import opened Sequence

  const INITIAL_WINDOW_SEGMENTS: int := 10
  const MAXIMUM_U32: u32 := 0xFFFF_FFFF

  datatype LossSignal = RtoTimeout | SackFastRecovery

  /** `avoidance` is the congestion-avoidance state, its negation slow start; `credit` is what was acknowledged towards the next MSS. */
  datatype Window = Window(
    mss: u32, cwnd: u32, ssthresh: u32, credit: u64, recoveryPoint: u32, avoidance: bool, inRecovery: bool)

  predicate Bounded(w: Window) {
    1 <= w.mss <= w.cwnd && w.credit < w.cwnd
  }

  /** The state is congestion avoidance exactly when the window has reached the threshold. */
  predicate StateTracksThreshold(w: Window) {
    w.avoidance <==> w.cwnd >= w.ssthresh
  }

  function Saturated(x: int): u32
    requires 0 <= x
  {
    Min(x, MAXIMUM_U32)
  }

  function Initial(mss: u32, ssthresh: u32): Window {
    var m: u32 := if mss == 0 then 1 else mss;
    var cwnd := Saturated(m * INITIAL_WINDOW_SEGMENTS);
    Window(m, cwnd, ssthresh, 0, 0, cwnd >= ssthresh, false)
  }

  /** Turns every full window of credit into one more MSS. */
  function Spend(cwnd: int, credit: int, mss: int): (r: (int, int))
    requires 1 <= mss <= cwnd <= MAXIMUM_U32 && 0 <= credit
    ensures cwnd <= r.0 <= MAXIMUM_U32 && 0 <= r.1 < r.0 && r.1 <= credit
    decreases credit
  {
    if credit < cwnd then (cwnd, credit)
    else Spend(Min(cwnd + mss, MAXIMUM_U32), credit - cwnd, mss)
  }

  function Acked(w: Window, bytes: u32): (r: Window)
    requires Bounded(w)
    ensures Bounded(r)
  {
    if bytes == 0 then w
    else if !w.avoidance then
      var cwnd := Saturated(w.cwnd + bytes);
      if cwnd >= w.ssthresh then w.(cwnd := cwnd, avoidance := true, credit := 0) else w.(cwnd := cwnd)
    else
      var (cwnd, credit) := Spend(w.cwnd, w.credit + bytes, w.mss);
      w.(cwnd := cwnd, credit := credit)
  }

  function Threshold(mss: u32, flight: u32): u32 {
    Saturated(Max(mss as int * 2, flight / 2))
  }

  function Lost(w: Window, signal: LossSignal, flight: u32, recoveryPoint: u32): (r: Window)
    requires Bounded(w)
    ensures Bounded(r)
  {
    if w.inRecovery then w
    else
      var ssthresh := Threshold(w.mss, flight);
      var timeout := signal == RtoTimeout;
      w.(cwnd := if timeout then w.mss else ssthresh, ssthresh := ssthresh, credit := 0,
         recoveryPoint := recoveryPoint, avoidance := !timeout, inRecovery := true)
  }

  function RecoveryAcked(w: Window, cumulativeAck: u32): Window {
    if w.inRecovery && LessEqual(w.recoveryPoint, cumulativeAck) then w.(inRecovery := false) else w
  }

  function Allowance(w: Window, flight: u32, advertised: u16): (r: u32)
    ensures flight + r == Max(flight, Min(w.cwnd, advertised))
  {
    var limit: u32 := Min(w.cwnd, advertised);
    if flight >= limit then 0 else limit - flight
  }

  // ---- Acknowledgements may be batched ----

  lemma {:induction false} SpendInTwo(cwnd: int, credit: int, more: int, mss: int)
    requires 1 <= mss <= cwnd <= MAXIMUM_U32 && 0 <= credit && 0 <= more
    ensures var (c, k) := Spend(cwnd, credit, mss);
            Spend(c, k + more, mss) == Spend(cwnd, credit + more, mss)
    decreases credit
  {
    if credit >= cwnd {
      SpendInTwo(Min(cwnd + mss, MAXIMUM_U32), credit - cwnd, more, mss);
    }
  }

  /** In congestion avoidance, acknowledging a and then b is acknowledging a + b at once. */
  lemma AckBatching(w: Window, a: u32, b: u32)
    requires Bounded(w) && w.avoidance && a + b < TWO_32
    ensures Acked(Acked(w, a), b) == Acked(w, a + b)
  {
    hide Spend;
    if a > 0 && b > 0 {
      var first := Spend(w.cwnd, w.credit + a, w.mss);
      var both := Spend(w.cwnd, w.credit + (a + b), w.mss);
      AckedIsSpend(w, a, first);
      SpendInTwo(w.cwnd, w.credit + a, b, w.mss);
      assert w.credit + a + b == w.credit + (a + b);
      AckedIsSpend(w.(cwnd := first.0, credit := first.1), b, both);
      AckedIsSpend(w, a + b, both);
    }
  }

  lemma AckedIsSpend(w: Window, bytes: u32, spent: (int, int))
    requires Bounded(w) && w.avoidance && bytes > 0 && spent == Spend(w.cwnd, w.credit + bytes, w.mss)
    ensures Acked(w, bytes) == w.(cwnd := spent.0, credit := spent.1)
  {
  }

  // ---- Whole runs ----

  datatype Event = Ack(bytes: u32) | Loss(signal: LossSignal, flight: u32, point: u32) | Recovery(ack: u32)

  function Step(w: Window, e: Event): (r: Window)
    requires Bounded(w)
    ensures Bounded(r)
  {
    match e
    case Ack(bytes) => Acked(w, bytes)
    case Loss(signal, flight, point) => Lost(w, signal, flight, point)
    case Recovery(ack) => RecoveryAcked(w, ack)
  }

  function Run(mss: u32, ssthresh: u32, events: seq<Event>): (w: Window)
    ensures Bounded(w)
  {
    if events == [] then Initial(mss, ssthresh)
    else Step(Run(mss, ssthresh, events[..|events| - 1]), events[|events| - 1])
  }

  lemma StepTracks(w: Window, e: Event)
    requires Bounded(w) && w.mss < MAXIMUM_U32 && StateTracksThreshold(w)
    ensures StateTracksThreshold(Step(w, e)) && Step(w, e).mss == w.mss
  {
  }

  lemma {:induction false} RunTracks(mss: u32, ssthresh: u32, events: seq<Event>)
    requires mss < MAXIMUM_U32
    ensures StateTracksThreshold(Run(mss, ssthresh, events)) && Run(mss, ssthresh, events).mss < MAXIMUM_U32
  {
    if events != [] {
      RunTracks(mss, ssthresh, events[..|events| - 1]);
      StepTracks(Run(mss, ssthresh, events[..|events| - 1]), events[|events| - 1]);
    }
  }

  /** The state tracks the threshold in every run exactly when the MSS is not the largest 32-bit value. */
  lemma StateTracksThresholdExactly(mss: u32, ssthresh: u32)
    ensures (forall events :: StateTracksThreshold(Run(mss, ssthresh, events))) <==> mss != MAXIMUM_U32
  {
    if mss == MAXIMUM_U32 {
      var timeout := Loss(RtoTimeout, 0, 0);
      assert [timeout][..0] == [];
      assert Run(mss, ssthresh, [timeout]) == Step(Run(mss, ssthresh, []), timeout);
      assert !StateTracksThreshold(Run(mss, ssthresh, [timeout]));
    } else {
      forall events ensures StateTracksThreshold(Run(mss, ssthresh, events)) {
        RunTracks(mss, ssthresh, events);
      }
    }
  }

  // ---- What the window is after each kind of event, in every run ----

  /** Half the flight, but at least two segments, cut off at the largest 32-bit value. */
  predicate IsThreshold(t: u32, mss: u32, flight: u32) {
    if 2 * mss as int > MAXIMUM_U32 then t == MAXIMUM_U32
    else 2 * mss <= t && flight - 1 <= 2 * t as int && (t == 2 * mss || 2 * t as int <= flight)
  }

  /** A run starts with ten segments. */
  lemma StartsWithTen(mss: u32, ssthresh: u32)
    ensures var w := Run(mss, ssthresh, []);
            && w.mss == (if mss == 0 then 1 else mss) && w.ssthresh == ssthresh && !w.inRecovery && w.credit == 0
            && (10 * w.mss as int < TWO_32 ==> w.cwnd == 10 * w.mss) && (10 * w.mss as int >= TWO_32 ==> w.cwnd == TWO_32 - 1)
            && (w.avoidance <==> w.cwnd >= ssthresh)
  {
  }

  function Apply(w: Window, events: seq<Event>): (r: Window)
    requires Bounded(w)
    ensures Bounded(r)
    decreases |events|
  {
    if events == [] then w else Apply(Step(w, events[0]), events[1..])
  }

  lemma {:induction false} RunInTwo(mss: u32, ssthresh: u32, events: seq<Event>, more: seq<Event>)
    ensures Run(mss, ssthresh, events + more) == Apply(Run(mss, ssthresh, events), more)
    decreases |more|
  {
    if more == [] {
      assert events + more == events;
    } else {
      RunOfMore(mss, ssthresh, events, more[0]);
      RunInTwo(mss, ssthresh, events + [more[0]], more[1..]);
      assert events + [more[0]] + more[1..] == events + more;
    }
  }

  lemma RunOfMore(mss: u32, ssthresh: u32, events: seq<Event>, e: Event)
    ensures Run(mss, ssthresh, events + [e]) == Step(Run(mss, ssthresh, events), e)
  {
    assert (events + [e])[..|events|] == events;
  }

  /**
   A loss outside recovery: a timeout leaves one segment in slow start, a fast retransmission leaves the threshold in
   congestion avoidance.  Inside recovery a loss changes nothing.
   */
  lemma LossResponses(mss: u32, ssthresh: u32, events: seq<Event>, signal: LossSignal, flight: u32, point: u32)
    ensures var w, w' := Run(mss, ssthresh, events), Run(mss, ssthresh, events + [Loss(signal, flight, point)]);
            if w.inRecovery then w' == w
            else
              && IsThreshold(w'.ssthresh, w.mss, flight) && w'.mss == w.mss && w'.credit == 0
              && w'.inRecovery && w'.recoveryPoint == point
              && match signal
                 case RtoTimeout => w'.cwnd == w.mss && !w'.avoidance
                 case SackFastRecovery => w'.cwnd == w'.ssthresh && w'.avoidance
  {
    RunOfMore(mss, ssthresh, events, Loss(signal, flight, point));
  }

  /** Recovery ends at an acknowledgement that reaches the recovery point, and only the flag changes. */
  lemma RecoveryEnds(mss: u32, ssthresh: u32, events: seq<Event>, ack: u32)
    ensures var w, w' := Run(mss, ssthresh, events), Run(mss, ssthresh, events + [Recovery(ack)]);
            && w' == w.(inRecovery := w'.inRecovery)
            && (w'.inRecovery <==> w.inRecovery && (ack - w.recoveryPoint) % TWO_32 > TWO_31)
  {
    RunOfMore(mss, ssthresh, events, Recovery(ack));
    Halves(ack, Run(mss, ssthresh, events).recoveryPoint);
  }

  lemma Halves(ack: u32, point: u32)
    ensures LessEqual(point, ack) <==> ack == point || (ack - point) % TWO_32 <= TWO_31
  {
  }

  /** Slow start: every acknowledged byte opens the window by a byte, until it reaches the threshold. */
  lemma SlowStartGrows(mss: u32, ssthresh: u32, events: seq<Event>, bytes: u32)
    ensures var w, w' := Run(mss, ssthresh, events), Run(mss, ssthresh, events + [Ack(bytes)]);
            !w.avoidance ==>
              && w'.cwnd == (if w.cwnd as int + bytes < TWO_32 then w.cwnd + bytes else TWO_32 - 1)
              && w'.ssthresh == w.ssthresh && w'.inRecovery == w.inRecovery
              && (bytes > 0 ==> (w'.avoidance <==> w'.cwnd >= w.ssthresh))
  {
    RunOfMore(mss, ssthresh, events, Ack(bytes));
  }

  /** What n more segments cost in congestion avoidance: one window each, the window growing all the while. */
  function Cost(cwnd: int, mss: int, n: nat): int
    decreases n
  {
    if n == 0 then 0 else cwnd + Cost(Min(cwnd + mss, MAXIMUM_U32), mss, n - 1)
  }

  lemma {:induction false} SpendIsCost(cwnd: int, credit: int, mss: int) returns (n: nat)
    requires 1 <= mss <= cwnd <= MAXIMUM_U32 && 0 <= credit
    ensures var (c, k) := Spend(cwnd, credit, mss);
            c == Min(cwnd + n * mss, MAXIMUM_U32) && credit == Cost(cwnd, mss, n) + k && 0 <= k < c
    decreases credit
  {
    if credit < cwnd {
      n := 0;
    } else {
      var m := SpendIsCost(Min(cwnd + mss, MAXIMUM_U32), credit - cwnd, mss);
      n := m + 1;
      SegmentsAdd(cwnd, mss, m);
    }
  }

  lemma SegmentsAdd(cwnd: int, mss: int, m: nat)
    requires 1 <= mss && 0 <= cwnd <= MAXIMUM_U32
    ensures Min(Min(cwnd + mss, MAXIMUM_U32) + m * mss, MAXIMUM_U32) == Min(cwnd + (m + 1) * mss, MAXIMUM_U32)
  {
    assert (m + 1) * mss == m * mss + mss && m * mss >= 0;
  }

  /** Without the cut-off the cost is that of an arithmetic series. */
  lemma {:induction false} CostIsSeries(cwnd: int, mss: int, n: nat)
    requires 0 <= cwnd && 0 <= mss && cwnd + n * mss <= MAXIMUM_U32
    ensures 2 * Cost(cwnd, mss, n) == n * (2 * cwnd + (n - 1) * mss)
    decreases n
  {
    if n > 0 {
      assert n * mss == (n - 1) * mss + mss && (n - 1) * mss >= 0;
      CostIsSeries(cwnd + mss, mss, n - 1);
      Series(cwnd, mss, n);
    }
  }

  lemma Series(cwnd: int, mss: int, n: nat)
    requires n > 0
    ensures 2 * cwnd + (n - 1) * (2 * (cwnd + mss) + (n - 2) * mss) == n * (2 * cwnd + (n - 1) * mss)
  {
    var a, b := (n - 1) * cwnd, (n - 1) * mss;
    assert (n - 1) * (2 * (cwnd + mss) + (n - 2) * mss) == 2 * a + 2 * b + (n - 1) * ((n - 2) * mss);
    assert n * (2 * cwnd + (n - 1) * mss) == 2 * cwnd + 2 * a + n * b;
    assert (n - 1) * ((n - 2) * mss) == (n - 2) * b;
    assert (n - 2) * b == n * b - 2 * b;
  }

  /** Congestion avoidance: the window grows by one segment for every window of bytes acknowledged, and the rest is kept. */
  lemma AvoidanceGrows(mss: u32, ssthresh: u32, events: seq<Event>, bytes: u32) returns (n: nat)
    ensures var w, w' := Run(mss, ssthresh, events), Run(mss, ssthresh, events + [Ack(bytes)]);
            w.avoidance ==>
              && w' == w.(cwnd := w'.cwnd, credit := w'.credit)
              && w'.cwnd == Min(w.cwnd + n * w.mss, TWO_32 - 1)
              && w.credit + bytes == Cost(w.cwnd, w.mss, n) + w'.credit && w'.credit < w'.cwnd
  {
    var w := Run(mss, ssthresh, events);
    RunOfMore(mss, ssthresh, events, Ack(bytes));
    n := SpendIsCost(w.cwnd, w.credit + bytes, w.mss);
  }

  // ---- The implementation ----

  class CongestionController {
    var mss: u32
    var cwnd: u32
    var ssthresh: u32
    var credit: u64
    var recoveryPoint: u32
    var avoidance: bool
    var inRecovery: bool

    function View(): Window
      reads this
    {
      Window(mss, cwnd, ssthresh, credit, recoveryPoint, avoidance, inRecovery)
    }

    constructor (mssBytes: u32, initialThreshold: u32)
      ensures View() == Initial(mssBytes, initialThreshold) && Bounded(View())
    {
      var m: u32 := if mssBytes == 0 then 1 else mssBytes;
      var c: u32 := Min(m * INITIAL_WINDOW_SEGMENTS, MAXIMUM_U32);
      mss, cwnd, ssthresh := m, c, initialThreshold;
      credit, recoveryPoint, avoidance, inRecovery := 0, 0, c >= initialThreshold, false;
    }

    method AddToWindow(bytes: u32)
      modifies this`cwnd
      ensures cwnd == Saturated(old(cwnd) + bytes)
    {
      cwnd := Min(cwnd as int + bytes, MAXIMUM_U32);
    }

    method OnAck(acknowledgedBytes: u32)
      requires Bounded(View())
      modifies this
      ensures View() == Acked(old(View()), acknowledgedBytes)
    {
      if acknowledgedBytes == 0 {
        return;
      }
      if !avoidance {
        AddToWindow(acknowledgedBytes);
        if cwnd >= ssthresh {
          avoidance := true;
          credit := 0;
        }
        return;
      }
      credit := credit as int + acknowledgedBytes;
      SpendCredit();
    }

    /** Every full window of credit buys one more MSS. */
    method SpendCredit()
      requires 1 <= mss <= cwnd
      modifies this`credit, this`cwnd
      ensures (cwnd as int, credit as int) == Spend(old(cwnd), old(credit), mss)
    {
      while credit >= cwnd
        modifies this`credit, this`cwnd
        invariant 1 <= mss <= cwnd
        invariant Spend(cwnd, credit, mss) == Spend(old(cwnd), old(credit), mss)
        decreases credit
      {
        credit := credit - cwnd;
        AddToWindow(mss);
      }
    }

    method OnLoss(signal: LossSignal, flight: u32, point: u32) returns (applied: bool)
      requires Bounded(View())
      modifies this
      ensures View() == Lost(old(View()), signal, flight, point) && applied == !old(inRecovery)
    {
      if inRecovery {
        return false;
      }
      ssthresh := Min(Max(mss as int * 2, flight / 2), MAXIMUM_U32);
      if signal == RtoTimeout {
        cwnd := mss;
        avoidance := false;
      } else {
        cwnd := ssthresh;
        avoidance := true;
      }
      credit := 0;
      recoveryPoint := point;
      inRecovery := true;
      return true;
    }

    method OnRecoveryAck(cumulativeAck: u32) returns (ended: bool)
      modifies this
      ensures View() == RecoveryAcked(old(View()), cumulativeAck)
      ensures ended == (old(inRecovery) && !inRecovery)
    {
      if !inRecovery || !LessEqual(recoveryPoint, cumulativeAck) {
        return false;
      }
      inRecovery := false;
      return true;
    }
  }
}
