/**
 Runs of the reassembly table, with the fragments accepted for each entry since it was made as history: what is
 delivered, and when, in terms of the fragments that arrived.
 */
module ReassemblyRuns {
  import opened Numbers
  import opened Intervals
  import opened Ipv4
  import opened ReassemblyModel
  import opened SlotMap

  datatype Event =
    | Arrive(key: Key, f: Fragment, now: u64, callback: Callback)
    | Sweep(now: u64)

  datatype Limits = Limits(capacity: nat, timeout: u64)

  /** `accepted` is history: the fragments accepted for an entry since it was made. */
  datatype State = State(table: map<Key, Datagram>, accepted: map<Key, seq<Fragment>>)

  function Since(s: State, key: Key): seq<Fragment> {
    if key in s.accepted then s.accepted[key] else []
  }

  function Kept(accepted: map<Key, seq<Fragment>>, t: map<Key, Datagram>): map<Key, seq<Fragment>> {
    map key | key in accepted && key in t :: accepted[key]
  }

  function Step(l: Limits, s: State, e: Event): State {
    match e
    case Arrive(key, f, now, callback) =>
      var (outcome, t) := Insert(s.table, l.capacity, key, f, now, callback);
      State(t, if outcome == Pending then s.accepted[key := Since(s, key) + [f]] else Kept(s.accepted, t))
    case Sweep(now) =>
      var t := Swept(s.table, l.timeout, now);
      State(t, Kept(s.accepted, t))
  }

  function After(l: Limits, events: seq<Event>): State {
    if events == [] then State(map[], map[])
    else Step(l, After(l, events[..|events| - 1]), events[|events| - 1])
  }

  // ---- Fragments ----

  /** A fragment that goes into the table. */
  predicate Proper(f: Fragment) {
    FragmentOk(f) && !(f.offset == 0 && !f.more)
  }

  predicate AllProper(fragments: seq<Fragment>) {
    forall i :: 0 <= i < |fragments| ==> Proper(fragments[i])
  }

  /** No fragment ends behind a final one. */
  predicate Agreeing(fragments: seq<Fragment>) {
    forall i, j :: 0 <= i < |fragments| && 0 <= j < |fragments| && !fragments[i].more ==> End(fragments[j]) <= End(fragments[i])
  }

  predicate Covered(fragments: seq<Fragment>, x: int) {
    exists i :: 0 <= i < |fragments| && CoversByte(fragments[i], x)
  }

  /** The final fragment has arrived, and every byte up to its end. */
  ghost predicate Whole(fragments: seq<Fragment>) {
    exists i :: 0 <= i < |fragments| && EndsWhole(fragments, fragments[i])
  }

  ghost predicate EndsWhole(fragments: seq<Fragment>, final: Fragment) {
    !final.more && forall x :: 0 <= x < End(final) ==> Covered(fragments, x)
  }

  predicate FinalAt(fragments: seq<Fragment>, i: int) {
    0 <= i < |fragments| && !fragments[i].more
  }

  ghost predicate HasFinal(fragments: seq<Fragment>) {
    exists i :: FinalAt(fragments, i)
  }

  /** Bytes of fragments that earlier fragments had covered. */
  function Ignored(fragments: seq<Fragment>): nat {
    if fragments == [] then 0
    else
      var init, f := fragments[..|fragments| - 1], fragments[|fragments| - 1];
      Ignored(init) + |set x | x in Interval(f.offset, End(f)) && Covered(init, x)|
  }

  lemma {:induction false} EarliestIsCovered(fragments: seq<Fragment>, x: int)
    ensures Earliest(fragments, x).Some? <==> Covered(fragments, x)
    decreases |fragments|
  {
    if fragments != [] {
      EarliestIsCovered(fragments[1..], x);
      if i :| 0 <= i < |fragments| && CoversByte(fragments[i], x) && i > 0 {
        assert fragments[1..][i - 1] == fragments[i];
      }
    }
  }

  lemma BytesAreCovered(now: u64, fragments: seq<Fragment>, x: int)
    ensures x in MergeAll(now, fragments).bytes <==> Covered(fragments, x)
  {
    FirstArrivalWins(now, fragments, x);
    EarliestIsCovered(fragments, x);
  }

  lemma {:induction false} IgnoredIs(now: u64, fragments: seq<Fragment>)
    ensures MergeAll(now, fragments).ignored == Ignored(fragments)
    decreases |fragments|
  {
    if fragments != [] {
      var init, f := fragments[..|fragments| - 1], fragments[|fragments| - 1];
      var d := MergeAll(now, init);
      IgnoredIs(now, init);
      assert FragmentBytes(f).Keys * d.bytes.Keys == set x | x in Interval(f.offset, End(f)) && Covered(init, x) by {
        forall x ensures x in d.bytes.Keys <==> Covered(init, x) {
          BytesAreCovered(now, init, x);
        }
      }
    }
  }

  lemma TotalOfLast(now: u64, fragments: seq<Fragment>)
    requires fragments != []
    ensures var init, f := fragments[..|fragments| - 1], fragments[|fragments| - 1];
            MergeAll(now, fragments).total == if f.more then MergeAll(now, init).total else Some(End(f))
  {
  }

  lemma AgreeingInit(fragments: seq<Fragment>)
    requires Agreeing(fragments) && fragments != []
    ensures Agreeing(fragments[..|fragments| - 1])
  {
  }

  /** The length is known exactly when a final fragment has arrived, and is where that one ends. */
  lemma {:induction false} TotalIsFinal(now: u64, fragments: seq<Fragment>)
    ensures MergeAll(now, fragments).total.Some? <==> HasFinal(fragments)
    decreases |fragments|
  {
    if fragments != [] {
      var n := |fragments| - 1;
      TotalOfLast(now, fragments);
      TotalIsFinal(now, fragments[..n]);
      assert forall i :: FinalAt(fragments[..n], i) <==> FinalAt(fragments, i) && i < n;
      assert FinalAt(fragments, n) <==> !fragments[n].more;
    }
  }

  lemma {:induction false} FinalIsTotal(now: u64, fragments: seq<Fragment>, i: nat)
    requires Agreeing(fragments) && FinalAt(fragments, i)
    ensures MergeAll(now, fragments).total == Some(End(fragments[i]))
    decreases |fragments|
  {
    hide End, MergeAll;
    var n := |fragments| - 1;
    TotalOfLast(now, fragments);
    if fragments[n].more {
      AgreeingInit(fragments);
      FinalIsTotal(now, fragments[..n], i);
    } else {
      assert End(fragments[i]) <= End(fragments[n]) && End(fragments[n]) <= End(fragments[i]);
    }
  }

  /** The same, for all final fragments at once. */
  lemma FinalsAreTotal(now: u64, fragments: seq<Fragment>)
    requires Agreeing(fragments)
    ensures MergeAll(now, fragments).total.Some? <==> HasFinal(fragments)
    ensures forall i :: FinalAt(fragments, i) ==> MergeAll(now, fragments).total == Some(End(fragments[i]))
  {
    TotalIsFinal(now, fragments);
    forall i | FinalAt(fragments, i) ensures MergeAll(now, fragments).total == Some(End(fragments[i])) {
      FinalIsTotal(now, fragments, i);
    }
  }

  /** A fragment agrees with those before it. */
  predicate AgreesWith(fragments: seq<Fragment>, f: Fragment) {
    forall j :: 0 <= j < |fragments| ==>
      (!fragments[j].more ==> End(f) <= End(fragments[j])) && (!f.more ==> End(fragments[j]) <= End(f))
  }

  lemma AgreeingOneMore(fragments: seq<Fragment>, f: Fragment)
    requires Agreeing(fragments)
    ensures Agreeing(fragments + [f]) <==> AgreesWith(fragments, f)
  {
    var all := fragments + [f];
    assert all[|fragments|] == f && forall i :: 0 <= i < |fragments| ==> all[i] == fragments[i];
  }

  /** A fragment agrees with the datagram exactly when it agrees with the fragments before it. */
  lemma ConsistentIsAgreeing(now: u64, fragments: seq<Fragment>, f: Fragment)
    requires Agreeing(fragments) && AllProper(fragments)
    ensures Consistent(MergeAll(now, fragments), f) <==> Agreeing(fragments + [f])
  {
    hide MergeAll;
    AgreeingOneMore(fragments, f);
    FinalsAreTotal(now, fragments);
    AllBelow(now, fragments, End(f));
    assert forall j :: 0 <= j < |fragments| && !fragments[j].more ==> FinalAt(fragments, j);
  }

  predicate EndBelow(fragments: seq<Fragment>, limit: int) {
    forall j :: 0 <= j < |fragments| ==> End(fragments[j]) <= limit
  }

  predicate BytesBelow(bytes: map<int, u8>, limit: int) {
    forall x :: x in bytes ==> x < limit
  }

  /** All bytes lie below a limit exactly when all fragments end there or before. */
  lemma AllBelow(now: u64, fragments: seq<Fragment>, limit: int)
    requires AllProper(fragments)
    ensures BytesBelow(MergeAll(now, fragments).bytes, limit) <==> EndBelow(fragments, limit)
  {
    hide MergeAll;
    var bytes := MergeAll(now, fragments).bytes;
    if BytesBelow(bytes, limit) {
      forall j | 0 <= j < |fragments| ensures End(fragments[j]) <= limit {
        assert Proper(fragments[j]) && CoversByte(fragments[j], End(fragments[j]) - 1);
        BytesAreCovered(now, fragments, End(fragments[j]) - 1);
      }
    }
    if EndBelow(fragments, limit) {
      forall x | x in bytes ensures x < limit {
        BytesAreCovered(now, fragments, x);
        var j :| 0 <= j < |fragments| && CoversByte(fragments[j], x);
      }
    }
  }

  lemma CompleteIsWhole(now: u64, fragments: seq<Fragment>)
    requires Agreeing(fragments)
    ensures IsComplete(MergeAll(now, fragments)) <==> Whole(fragments)
  {
    var d := MergeAll(now, fragments);
    hide MergeAll;
    FinalsAreTotal(now, fragments);
    forall x ensures x in d.bytes <==> Covered(fragments, x) {
      BytesAreCovered(now, fragments, x);
    }
    if IsComplete(d) {
      var i :| FinalAt(fragments, i);
      assert EndsWhole(fragments, fragments[i]);
    }
    if i :| 0 <= i < |fragments| && EndsWhole(fragments, fragments[i]) {
      assert FinalAt(fragments, i);
    }
  }

  /** The payload reaches to the end of the final fragment, and every byte of it is that of the earliest fragment that has one there. */
  ghost predicate Reassembles(fragments: seq<Fragment>, payload: seq<u8>) {
    && (exists i :: FinalAt(fragments, i) && End(fragments[i]) == |payload|)
    && (forall x :: 0 <= x < |payload| ==> Earliest(fragments, x) == Some(payload[x]))
    && TotalBytes(fragments) == |payload| + Ignored(fragments)
  }

  lemma PayloadReassembles(now: u64, fragments: seq<Fragment>)
    requires Agreeing(fragments) && AllProper(fragments) && IsComplete(MergeAll(now, fragments))
    ensures Reassembles(fragments, Payload(MergeAll(now, fragments)))
  {
    hide MergeAll;
    var d := MergeAll(now, fragments);
    FinalsAreTotal(now, fragments);
    forall x | 0 <= x < d.total.value ensures Earliest(fragments, x) == Some(Payload(d)[x]) {
      FirstArrivalWins(now, fragments, x);
    }
    BytesAreConserved(now, fragments);
    IgnoredIs(now, fragments);
    MergedWithin(now, fragments);
    CompleteIsConserved(d);
  }

  lemma MergedWithin(now: u64, fragments: seq<Fragment>)
    requires Agreeing(fragments) && AllProper(fragments)
    ensures Within(MergeAll(now, fragments))
  {
    hide MergeAll;
    var d := MergeAll(now, fragments);
    FinalsAreTotal(now, fragments);
    forall x | x in d.bytes ensures 0 <= x < if d.total.Some? then d.total.value else MAXIMUM_PAYLOAD_BYTES {
      BytesAreCovered(now, fragments, x);
      var j :| 0 <= j < |fragments| && CoversByte(fragments[j], x);
      assert Proper(fragments[j]);
    }
  }

  // ---- Runs ----

  ghost predicate EntryOk(d: Datagram, fragments: seq<Fragment>) {
    d == MergeAll(d.createdAt, fragments) && AllProper(fragments) && Agreeing(fragments)
  }

  /** Every entry is the merge of the fragments accepted for it. */
  ghost predicate Inv(s: State) {
    && s.table.Keys == s.accepted.Keys
    && forall key :: key in s.table ==> EntryOk(s.table[key], s.accepted[key])
  }

  lemma {:induction false} CreatedStays(now: u64, fragments: seq<Fragment>)
    ensures MergeAll(now, fragments).createdAt == now
    decreases |fragments|
  {
    if fragments != [] {
      CreatedStays(now, fragments[..|fragments| - 1]);
    }
  }

  /** The datagram a fragment is merged into is the merge of the fragments so far. */
  lemma FoundIsMerge(s: State, key: Key, now: u64) returns (created: u64)
    requires Inv(s)
    ensures Found(s.table, key, now) == MergeAll(created, Since(s, key))
    ensures AllProper(Since(s, key)) && Agreeing(Since(s, key))
  {
    created := if key in s.table then s.table[key].createdAt else now;
  }

  lemma MergeOne(created: u64, fragments: seq<Fragment>, f: Fragment)
    ensures Merged(MergeAll(created, fragments), f) == MergeAll(created, fragments + [f])
  {
    assert (fragments + [f])[..|fragments|] == fragments;
  }

  lemma ProperIs(fragments: seq<Fragment>, f: Fragment)
    requires AllProper(fragments) && Proper(f)
    ensures AllProper(fragments + [f])
  {
  }

  /** A fragment that has a place in the table. */
  lemma ProperStep(s: State, key: Key, f: Fragment, now: u64, callback: Callback)
    requires Inv(s) && Proper(f) && callback.Callback?
    ensures var fragments := Since(s, key) + [f];
            var (outcome, t) := InsertAt(s.table, key, Found(s.table, key, now), f, callback);
            if !Agreeing(fragments) then outcome == Malformed && t == s.table - {key}
            else if !Whole(fragments) then outcome == Pending && t == s.table[key := t[key]] && key in t && EntryOk(t[key], fragments)
            else outcome.Complete? == callback.accepts && outcome.Declined? == !callback.accepts
                 && Reassembles(fragments, outcome.payload) && t == s.table - {key}
  {
    var created := FoundIsMerge(s, key, now);
    var fragments := Since(s, key) + [f];
    ConsistentIsAgreeing(created, Since(s, key), f);
    if Agreeing(fragments) {
      MergeOne(created, Since(s, key), f);
      ProperIs(Since(s, key), f);
      CompleteIsWhole(created, fragments);
      CreatedStays(created, fragments);
      if Whole(fragments) {
        PayloadReassembles(created, fragments);
      }
    }
  }

  /** The fragment becomes part of an entry, or completes or ruins it. */
  predicate HasPlace(l: Limits, s: State, e: Event) {
    e.Arrive? && e.callback.Callback? && Proper(e.f) && (e.key in s.table || |s.table| < l.capacity)
  }

  lemma InvSet(s: State, key: Key, d: Datagram, fragments: seq<Fragment>)
    requires Inv(s) && EntryOk(d, fragments)
    ensures Inv(State(s.table[key := d], s.accepted[key := fragments]))
  {
    hide EntryOk;
  }

  lemma InvFewer(s: State, t: map<Key, Datagram>)
    requires Inv(s) && forall key :: key in t ==> key in s.table && t[key] == s.table[key]
    ensures Inv(State(t, Kept(s.accepted, t)))
  {
    hide EntryOk;
  }

  lemma WithoutPlace(l: Limits, s: State, e: Event)
    requires Inv(s) && e.Arrive? && !HasPlace(l, s, e)
    ensures Step(l, s, e) == s
  {
    hide EntryOk, InsertAt;
    assert Kept(s.accepted, s.table) == s.accepted;
  }

  lemma StepIsInsertAt(l: Limits, s: State, e: Event)
    requires HasPlace(l, s, e)
    ensures OutcomeOf(l, s, e) == InsertAt(s.table, e.key, Found(s.table, e.key, e.now), e.f, e.callback).0
    ensures Step(l, s, e).table == InsertAt(s.table, e.key, Found(s.table, e.key, e.now), e.f, e.callback).1
  {
  }

  function OutcomeOf(l: Limits, s: State, e: Event): Outcome
    requires e.Arrive?
  {
    Insert(s.table, l.capacity, e.key, e.f, e.now, e.callback).0
  }

  lemma StepKeepsInv(l: Limits, s: State, e: Event)
    requires Inv(s)
    ensures Inv(Step(l, s, e))
  {
    hide EntryOk, InsertAt, Insert, Found, Whole, Agreeing, Reassembles, Inv;
    if e.Sweep? {
      InvFewer(s, Step(l, s, e).table);
    } else if HasPlace(l, s, e) {
      StepIsInsertAt(l, s, e);
      ProperStep(s, e.key, e.f, e.now, e.callback);
      var t := Step(l, s, e).table;
      if OutcomeOf(l, s, e) == Pending {
        InvSet(s, e.key, t[e.key], Since(s, e.key) + [e.f]);
      } else {
        InvFewer(s, t);
      }
    } else {
      WithoutPlace(l, s, e);
    }
  }

  /** In every reachable table, an entry is the merge of the fragments accepted for it since it was made. */
  lemma {:induction false} EntriesAreMerges(l: Limits, events: seq<Event>)
    ensures Inv(After(l, events))
    decreases |events|
  {
    if events != [] {
      EntriesAreMerges(l, events[..|events| - 1]);
      StepKeepsInv(l, After(l, events[..|events| - 1]), events[|events| - 1]);
    }
  }

  /**
   Every answer of every run, in terms of the fragments that arrived.  A payload is delivered exactly when the new
   fragment agrees with those before it, a final one has arrived and every byte up to its end; each byte of it is
   that of the earliest fragment covering it; and fragment bytes are payload bytes plus overlap.
   */
  lemma EveryAnswer(l: Limits, events: seq<Event>, e: Event)
    requires e.Arrive?
    ensures var s := After(l, events);
            var fragments, outcome := Since(s, e.key) + [e.f], OutcomeOf(l, s, e);
            if e.callback.NoCallback? || !FragmentOk(e.f) then outcome == Malformed
            else if !Proper(e.f) then outcome == Delivered(e.callback, e.f.payload)
            else if e.key !in s.accepted && |s.accepted| >= l.capacity then outcome == TableFull
            else if !Agreeing(fragments) then outcome == Malformed
            else if !Whole(fragments) then outcome == Pending
            else outcome.Complete? == e.callback.accepts && outcome.Declined? == !e.callback.accepts
                 && Reassembles(fragments, outcome.payload)
  {
    var s := After(l, events);
    EntriesAreMerges(l, events);
    assert |s.table.Keys| == |s.accepted.Keys|;
    if HasPlace(l, s, e) {
      hide MergeAll, InsertAt, Insert, Found, Whole, Agreeing, AllProper, Reassembles;
      StepIsInsertAt(l, s, e);
      ProperStep(s, e.key, e.f, e.now, e.callback);
    }
  }

  /** The fragments of an entry are those that arrived for it, in order; a delivery or a contradiction forgets them. */
  lemma HistoryIs(l: Limits, events: seq<Event>, e: Event, key: Key)
    ensures var s, s' := After(l, events), After(l, events + [e]);
            Since(s', key) ==
            if e.Arrive? && e.key == key && OutcomeOf(l, s, e) == Pending then Since(s, key) + [e.f]
            else if key in s'.table then Since(s, key) else []
  {
    assert (events + [e])[..|events|] == events;
    EntriesAreMerges(l, events);
    EntriesAreMerges(l, events + [e]);
  }

  // ---- Sweeps ----

  /** When the entry of the key was made: at the last arrival for it that found none. */
  function Birth(l: Limits, events: seq<Event>, key: Key): u64 {
    if events == [] then 0
    else
      var init, e := events[..|events| - 1], events[|events| - 1];
      if e.Arrive? && e.key == key && key !in After(l, init).table then e.now else Birth(l, init, key)
  }

  lemma StepKeepsBirth(l: Limits, s: State, e: Event, key: Key)
    ensures key in Step(l, s, e).table ==>
              Step(l, s, e).table[key].createdAt ==
              if key in s.table then s.table[key].createdAt else if e.Arrive? && e.key == key then e.now else 0
    ensures key in Step(l, s, e).table && key !in s.table ==> e.Arrive? && e.key == key
  {
    hide Consistent, IsComplete, FragmentBytes, FragmentOk, OldBytes;
  }

  lemma {:induction false} BornAt(l: Limits, events: seq<Event>, key: Key)
    ensures key in After(l, events).table ==> After(l, events).table[key].createdAt == Birth(l, events, key)
    decreases |events|
  {
    hide Step;
    if events != [] {
      BornAt(l, events[..|events| - 1], key);
      StepKeepsBirth(l, After(l, events[..|events| - 1]), events[|events| - 1], key);
    }
  }

  /** A sweep takes out exactly the entries that were made at least the timeout ago, and leaves the others as they are. */
  lemma SweepsExactly(l: Limits, events: seq<Event>, now: u64, key: Key)
    ensures var t, t', birth := After(l, events).table, After(l, events + [Sweep(now)]).table, Birth(l, events, key);
            && (key in t' <==> key in t && !(birth + l.timeout <= now))
            && (key in t' ==> t'[key] == t[key])
  {
    BornAt(l, events, key);
    assert (events + [Sweep(now)])[..|events|] == events;
  }
}
