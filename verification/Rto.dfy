/**
 The retransmission timer of section 2 of RFC 6298.  The specification is the
 standard's formula over unbounded integers; the implementation computes it in
 64-bit arithmetic, where one subtraction wraps around.
 */
module Rto {
  import opened Numbers

  const GRANULARITY_NS: u64 := 1_000_000
  const INITIAL_RTO_NS: u64 := 1_000_000_000
  const MINIMUM_RTO_NS: u64 := 1_000_000_000
  const MAXIMUM_RTO_NS: u64 := 60_000_000_000

  datatype SampleStatus = Accepted | KarnExcluded | InvalidTimestamp

  datatype Timer = Timer(srtt: int, rttvar: int, computed: int, current: int, initialized: bool)

  const INITIAL_TIMER := Timer(0, 0, INITIAL_RTO_NS, INITIAL_RTO_NS, false)

  /** What the estimator keeps in every run; it is also what makes the 64-bit form exact. */
  predicate InRange(t: Timer) {
    && 0 <= t.srtt <= MAXIMUM_RTO_NS
    && 0 <= t.rttvar <= MAXIMUM_RTO_NS
    && MINIMUM_RTO_NS <= t.computed <= t.current <= MAXIMUM_RTO_NS
  }

  function Clamped(x: int): int {
    Min(Max(x, MINIMUM_RTO_NS), MAXIMUM_RTO_NS)
  }

  function Status(sentAt: u64, acknowledgedAt: u64, retransmitted: bool): SampleStatus {
    if acknowledgedAt < sentAt then InvalidTimestamp
    else if retransmitted then KarnExcluded
    else Accepted
  }

  function Sample(sentAt: u64, acknowledgedAt: u64): int {
    Min(acknowledgedAt - sentAt, MAXIMUM_RTO_NS)
  }

  /** The formula: the first sample R gives (R, R/2), later ones use alpha 1/8 and beta 1/4. */
  function Estimated(t: Timer, sample: int): Timer {
    var difference := if t.srtt > sample then t.srtt - sample else sample - t.srtt;
    var srtt := if t.initialized then (7 * t.srtt + sample) / 8 else sample;
    var rttvar := if t.initialized then (3 * t.rttvar + difference) / 4 else sample / 2;
    var rto := Clamped(srtt + Max(GRANULARITY_NS, 4 * rttvar));
    Timer(srtt, rttvar, rto, rto, true)
  }

  function Observed(t: Timer, sentAt: u64, acknowledgedAt: u64, retransmitted: bool): Timer {
    if Status(sentAt, acknowledgedAt, retransmitted) == Accepted
    then Estimated(t, Sample(sentAt, acknowledgedAt)) else t
  }

  function TimedOut(t: Timer): Timer {
    t.(current := Min(2 * t.current, MAXIMUM_RTO_NS))
  }

  function Progressed(t: Timer): Timer {
    t.(current := t.computed)
  }

  // ---- Whole runs ----

  datatype Event = Observe(sentAt: u64, acknowledgedAt: u64, retransmitted: bool) | Timeout | Progress

  function Step(t: Timer, e: Event): Timer {
    match e
    case Observe(sentAt, acknowledgedAt, retransmitted) => Observed(t, sentAt, acknowledgedAt, retransmitted)
    case Timeout => TimedOut(t)
    case Progress => Progressed(t)
  }

  function Run(events: seq<Event>): Timer {
    if events == [] then INITIAL_TIMER
    else Step(Run(events[..|events| - 1]), events[|events| - 1])
  }

  function Apply(t: Timer, events: seq<Event>): Timer
    decreases |events|
  {
    if events == [] then t else Apply(Step(t, events[0]), events[1..])
  }

  lemma {:induction false} RunInTwo(events: seq<Event>, more: seq<Event>)
    ensures Run(events + more) == Apply(Run(events), more)
    decreases |more|
  {
    if more == [] {
      assert events + more == events;
    } else {
      assert (events + [more[0]])[..|events|] == events;
      RunInTwo(events + [more[0]], more[1..]);
      assert events + [more[0]] + more[1..] == events + more;
    }
  }

  predicate IsSample(e: Event) {
    e.Observe? && Status(e.sentAt, e.acknowledgedAt, e.retransmitted) == Accepted
  }

  /** How many timeouts there were since the last forward progress or accepted sample. */
  function Backoffs(events: seq<Event>): nat {
    if events == [] then 0
    else
      var last := events[|events| - 1];
      if last.Progress? || IsSample(last) then 0
      else Backoffs(events[..|events| - 1]) + (if last.Timeout? then 1 else 0)
  }

  function Pow2(n: nat): nat {
    if n == 0 then 1 else 2 * Pow2(n - 1)
  }

  lemma EstimateInRange(t: Timer, sample: int)
    requires InRange(t) && 0 <= sample <= MAXIMUM_RTO_NS
    ensures InRange(Estimated(t, sample))
  {
  }

  /** In every run the timeout stays within its bounds. */
  lemma {:induction false} RunInRange(events: seq<Event>)
    ensures InRange(Run(events))
    ensures Run(events).initialized <==> exists i :: 0 <= i < |events| && IsSample(events[i])
  {
    if events != [] {
      var init, last := events[..|events| - 1], events[|events| - 1];
      RunInRange(init);
      assert forall i :: 0 <= i < |init| ==> init[i] == events[i];
      if IsSample(last) {
        EstimateInRange(Run(init), Sample(last.sentAt, last.acknowledgedAt));
      }
    }
  }

  /** The smoothed round-trip time never leaves the range of the samples that were accepted. */
  lemma {:induction false} SrttBetweenSamples(events: seq<Event>, least: int, greatest: int)
    requires Run(events).initialized
    requires forall i :: 0 <= i < |events| && IsSample(events[i]) ==>
      least <= Sample(events[i].sentAt, events[i].acknowledgedAt) <= greatest
    ensures least <= Run(events).srtt <= greatest
  {
    if events != [] {
      var init, last := events[..|events| - 1], events[|events| - 1];
      assert forall i :: 0 <= i < |init| ==> init[i] == events[i];
      if Run(init).initialized {
        SrttBetweenSamples(init, least, greatest);
      }
    }
  }

  /** After n timeouts without progress the timeout is the computed one doubled n times, at most 60 s. */
  lemma {:induction false} BackoffIsExponential(events: seq<Event>)
    ensures Run(events).current == Min(MAXIMUM_RTO_NS, Run(events).computed * Pow2(Backoffs(events)))
  {
    RunInRange(events);
    if events != [] {
      var init, last := events[..|events| - 1], events[|events| - 1];
      BackoffIsExponential(init);
      RunInRange(init);
      if last.Timeout? {
        var c, n := Run(init).computed, Backoffs(init);
        assert Run(events).computed * Pow2(n + 1) == 2 * (c * Pow2(n));
      }
    }
  }

  // ---- The averages of the standard, without rounding ----

  /** The accepted samples, at most a minute each. */
  function Samples(events: seq<Event>): seq<int> {
    if events == [] then []
    else
      var init, last := events[..|events| - 1], events[|events| - 1];
      if last.Observe? && last.sentAt <= last.acknowledgedAt && !last.retransmitted
      then Samples(init) + [Min(last.acknowledgedAt - last.sentAt, 60_000_000_000)] else Samples(init)
  }

  /** SRTT of section 2 of RFC 6298, with alpha 1/8. */
  function ExactSrtt(samples: seq<int>): real
    requires samples != []
  {
    var n := |samples| - 1;
    if n == 0 then samples[0] as real else 0.875 * ExactSrtt(samples[..n]) + 0.125 * samples[n] as real
  }

  /** RTTVAR of the same section, with beta 1/4. */
  function ExactRttvar(samples: seq<int>): real
    requires samples != []
  {
    var n := |samples| - 1;
    if n == 0 then 0.5 * samples[0] as real
    else 0.75 * ExactRttvar(samples[..n]) + 0.25 * Distance(ExactSrtt(samples[..n]), samples[n] as real)
  }

  function Distance(a: real, b: real): real {
    if a <= b then b - a else a - b
  }

  /** The timeout of the same section, with a clock granularity of 1 ms, between 1 s and 60 s. */
  function ExactRto(srtt: real, rttvar: real): real {
    var sum := srtt + if 4.0 * rttvar <= 1_000_000.0 then 1_000_000.0 else 4.0 * rttvar;
    if sum <= 1_000_000_000.0 then 1_000_000_000.0 else if 60_000_000_000.0 <= sum then 60_000_000_000.0 else sum
  }

  /** The integer estimates are within 7 ns and 10 ns of the exact averages, the timeout within 47 ns. */
  predicate IsNear(t: Timer, srtt: real, rttvar: real) {
    && 0.0 <= srtt - t.srtt as real <= 7.0
    && Distance(rttvar, t.rttvar as real) <= 10.0
    && Distance(ExactRto(srtt, rttvar), t.computed as real) <= 47.0
  }

  lemma NearTimeout(srtt: real, rttvar: real, s: int, v: int)
    requires 0.0 <= srtt - s as real <= 7.0 && Distance(rttvar, v as real) <= 10.0
    ensures Distance(ExactRto(srtt, rttvar), Clamped(s + Max(GRANULARITY_NS, 4 * v)) as real) <= 47.0
  {
  }

  lemma NearFirst(t: Timer, sample: int)
    requires !t.initialized && 0 <= sample
    ensures IsNear(Estimated(t, sample), sample as real, 0.5 * sample as real)
  {
    var v := sample / 2;
    assert 2 * v <= sample <= 2 * v + 1;
    NearTimeout(sample as real, 0.5 * sample as real, sample, v);
  }

  lemma NearSrtt(srtt: real, s: int, sample: int)
    requires 0.0 <= srtt - s as real <= 7.0
    ensures 0.0 <= 0.875 * srtt + 0.125 * sample as real - ((7 * s + sample) / 8) as real <= 7.0
  {
    var r := (7 * s + sample) / 8;
    assert 8 * r <= 7 * s + sample <= 8 * r + 7;
  }

  lemma NearRttvar(srtt: real, s: int, rttvar: real, v: int, sample: int, difference: int)
    requires 0.0 <= srtt - s as real <= 7.0 && Distance(rttvar, v as real) <= 10.0
    requires difference == if s > sample then s - sample else sample - s
    ensures Distance(0.75 * rttvar + 0.25 * Distance(srtt, sample as real), ((3 * v + difference) / 4) as real) <= 10.0
  {
    var r := (3 * v + difference) / 4;
    assert 4 * r <= 3 * v + difference <= 4 * r + 3;
    assert Distance(Distance(srtt, sample as real), difference as real) <= 7.0;
  }

  lemma NearNext(t: Timer, srtt: real, rttvar: real, sample: int)
    requires t.initialized && IsNear(t, srtt, rttvar)
    ensures IsNear(Estimated(t, sample), 0.875 * srtt + 0.125 * sample as real, 0.75 * rttvar + 0.25 * Distance(srtt, sample as real))
  {
    hide Distance, ExactRto;
    var t' := Estimated(t, sample);
    NearSrtt(srtt, t.srtt, sample);
    NearRttvar(srtt, t.srtt, rttvar, t.rttvar, sample, if t.srtt > sample then t.srtt - sample else sample - t.srtt);
    NearTimeout(0.875 * srtt + 0.125 * sample as real, 0.75 * rttvar + 0.25 * Distance(srtt, sample as real), t'.srtt, t'.rttvar);
  }

  lemma ExactOne(x: int)
    ensures ExactSrtt([x]) == x as real && ExactRttvar([x]) == 0.5 * x as real
  {
  }

  lemma ExactMore(samples: seq<int>, x: int)
    requires samples != []
    ensures ExactSrtt(samples + [x]) == 0.875 * ExactSrtt(samples) + 0.125 * x as real
    ensures ExactRttvar(samples + [x]) == 0.75 * ExactRttvar(samples) + 0.25 * Distance(ExactSrtt(samples), x as real)
  {
    hide Distance;
    assert (samples + [x])[..|samples|] == samples;
  }

  lemma SamplesMore(events: seq<Event>)
    requires events != []
    ensures var init, last := events[..|events| - 1], events[|events| - 1];
            Samples(events) == if IsSample(last) then Samples(init) + [Sample(last.sentAt, last.acknowledgedAt)] else Samples(init)
  {
  }

  /** One more sample, the first or a later one. */
  lemma NearMore(t: Timer, samples: seq<int>, sample: int)
    requires 0 <= sample && (t.initialized <==> samples != [])
    requires samples != [] ==> IsNear(t, ExactSrtt(samples), ExactRttvar(samples))
    ensures var more := samples + [sample]; IsNear(Estimated(t, sample), ExactSrtt(more), ExactRttvar(more))
  {
    hide IsNear, Estimated, ExactSrtt, ExactRttvar, Distance;
    if samples == [] {
      assert samples + [sample] == [sample];
      ExactOne(sample);
      NearFirst(t, sample);
    } else {
      ExactMore(samples, sample);
      NearNext(t, ExactSrtt(samples), ExactRttvar(samples), sample);
    }
  }

  /** In every run the estimator stays next to the exact averages of all accepted samples. */
  lemma {:induction false} StaysNearStandard(events: seq<Event>)
    ensures Run(events).initialized <==> Samples(events) != []
    ensures Samples(events) != [] ==> IsNear(Run(events), ExactSrtt(Samples(events)), ExactRttvar(Samples(events)))
    ensures Samples(events) == [] ==> Run(events).computed == 1_000_000_000
    decreases |events|
  {
    hide IsNear, Estimated, ExactSrtt, ExactRttvar, Samples;
    if events == [] {
      NoSamples();
    } else {
      var init, last := events[..|events| - 1], events[|events| - 1];
      StaysNearStandard(init);
      SamplesMore(events);
      if IsSample(last) {
        var sample := Sample(last.sentAt, last.acknowledgedAt);
        SampleKept(Run(init), sample);
        NearMore(Run(init), Samples(init), sample);
      } else {
        OnlyCurrent(Run(init), last, if Samples(init) == [] then 0.0 else ExactSrtt(Samples(init)),
                    if Samples(init) == [] then 0.0 else ExactRttvar(Samples(init)));
      }
    }
  }

  lemma NoSamples()
    ensures Samples([]) == []
  {
  }

  lemma SampleKept(t: Timer, sample: int)
    ensures Estimated(t, sample).initialized
  {
  }

  lemma OnlyCurrent(t: Timer, e: Event, srtt: real, rttvar: real)
    requires !IsSample(e)
    ensures Step(t, e) == t.(current := Step(t, e).current)
    ensures IsNear(t, srtt, rttvar) ==> IsNear(Step(t, e), srtt, rttvar)
  {
  }

  // ---- The implementation ----

  lemma NoWrap(x: int)
    requires 0 <= x < TWO_64
    ensures x % TWO_64 == x
  {
  }

  class RtoEstimator {
    var srtt: u64
    var rttvar: u64
    var computed: u64
    var current: u64
    var initialized: bool

    function View(): Timer
      reads this
    {
      Timer(srtt, rttvar, computed, current, initialized)
    }

    constructor ()
      ensures View() == INITIAL_TIMER && InRange(View())
    {
      srtt, rttvar, computed, current, initialized := 0, 0, INITIAL_RTO_NS, INITIAL_RTO_NS, false;
    }

    method Observe(sentAt: u64, acknowledgedAt: u64, wasRetransmitted: bool) returns (status: SampleStatus)
      requires InRange(View())
      modifies this
      ensures status == Status(sentAt, acknowledgedAt, wasRetransmitted)
      ensures View() == Observed(old(View()), sentAt, acknowledgedAt, wasRetransmitted)
      ensures InRange(View())
    {
      if acknowledgedAt < sentAt {
        return InvalidTimestamp;
      }
      if wasRetransmitted {
        return KarnExcluded;
      }
      var sample: u64 := Min(acknowledgedAt - sentAt, MAXIMUM_RTO_NS);
      Smooth(sample);
      UpdateComputed();
      current := computed;
      return Accepted;
    }

    /** The two moving averages. */
    method Smooth(sample: u64)
      requires InRange(View()) && sample <= MAXIMUM_RTO_NS
      modifies this`srtt, this`rttvar, this`initialized
      ensures srtt == Estimated(old(View()), sample).srtt <= MAXIMUM_RTO_NS
      ensures rttvar == Estimated(old(View()), sample).rttvar <= MAXIMUM_RTO_NS
      ensures initialized
    {
      if !initialized {
        srtt := sample;
        rttvar := sample / 2;
        initialized := true;
      } else {
        var difference: u64 := if srtt > sample then srtt - sample else sample - srtt;
        NoWrap(3 * rttvar as int + difference);
        NoWrap(7 * srtt as int + sample);
        rttvar := (3 * rttvar as int + difference) % TWO_64 / 4;
        srtt := (7 * srtt as int + sample) % TWO_64 / 8;
      }
    }

    /** The comparison subtracts in 64 bits: a variation above 60 s wraps, and the sum is clamped instead. */
    method UpdateComputed()
      requires srtt <= MAXIMUM_RTO_NS && rttvar <= MAXIMUM_RTO_NS
      modifies this`computed
      ensures computed == Clamped(srtt + Max(GRANULARITY_NS, 4 * rttvar as int))
    {
      var variation: u64 := Max(GRANULARITY_NS, 4 * rttvar as int % TWO_64);
      var room: u64 := (MAXIMUM_RTO_NS - variation as int) % TWO_64;
      var raw: u64 := if srtt > room then MAXIMUM_RTO_NS else (srtt as int + variation) % TWO_64;
      computed := Min(Max(raw, MINIMUM_RTO_NS), MAXIMUM_RTO_NS);
    }

    method OnTimeout() returns (rto: u64)
      requires InRange(View())
      modifies this
      ensures View() == TimedOut(old(View())) && rto == current && InRange(View())
    {
      current := if current > MAXIMUM_RTO_NS / 2 then MAXIMUM_RTO_NS else current * 2;
      return current;
    }

    method OnForwardProgress()
      requires InRange(View())
      modifies this
      ensures View() == Progressed(old(View())) && InRange(View())
    {
      current := computed;
    }
  }

  /** The wrap-around is reachable: one sample of a minute already makes the variation exceed the maximum. */
  lemma VariationCanExceedMaximum()
    ensures var t := Run([Observe(0, 60_000_000_000, false)]);
            4 * t.rttvar > MAXIMUM_RTO_NS && t.computed == MAXIMUM_RTO_NS
  {
    var e := Observe(0, 60_000_000_000, false);
    assert [e][..0] == [];
    assert Run([e]) == Step(Run([]), e);
  }
}
