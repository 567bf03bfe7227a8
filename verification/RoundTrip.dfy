/**
 Fragmenting and reassembling: whatever order the packets of a datagram arrive in, however often,
 and whatever else arrives in between, the payload comes out when its last missing fragment arrives.
 */
module RoundTrip {
  import opened Numbers
  import opened Intervals
  import opened Ipv4
  import opened ReassemblyModel
  import opened SlotMap
  import opened Fragmentation
  import opened Layout

  /** A datagram that had to be fragmented. */
  datatype Original = Original(header: Ipv4Header, payload: seq<u8>, size: nat)

  predicate IsOriginal(o: Original) {
    0 < o.size < |o.payload| <= MAXIMUM_PAYLOAD_BYTES && o.size % 8 == 0
  }

  /** How the fragmenter gets there. */
  lemma PlanIsOriginal(h: Ipv4Header, payload: seq<u8>, mtu: nat, scratchBytes: nat)
    requires HEADER_BYTES <= mtu <= scratchBytes && |payload| <= MAXIMUM_PAYLOAD_BYTES
    requires |payload| > mtu - HEADER_BYTES && FragmentSize(mtu) > 0
    ensures var o := Original(h, payload, FragmentSize(mtu));
            IsOriginal(o) && PlanFor(h, payload, mtu, scratchBytes) == Send(PacketsOf(o))
  {
  }

  function PacketsOf(o: Original): seq<seq<u8>>
    requires IsOriginal(o)
  {
    PacketsFrom(o.header, o.payload, o.size, 0)
  }

  predicate IsNumber(o: Original, k: nat) {
    k * o.size < |o.payload|
  }

  function Numbered(o: Original, k: nat): Fragment
    requires IsNumber(o, k)
  {
    Piece(o.payload, o.size, k * o.size)
  }

  /** The numbers of all the fragments. */
  function AllOf(o: Original): set<int>
    requires IsOriginal(o)
  {
    Interval(0, |PacketsOf(o)|)
  }

  lemma NumberIs(o: Original, k: nat)
    requires IsOriginal(o)
    ensures k in AllOf(o) <==> IsNumber(o, k)
    ensures k in AllOf(o) ==> PacketsOf(o)[k] == PacketOf(o.header, Numbered(o, k))
  {
    PacketAt(o.header, o.payload, o.size, 0, k);
  }

  // ---- One packet ----

  /** The key and the fragment of a packet are read from their places. */
  lemma FragmentIsRead(p: seq<u8>)
    requires Parse(p).Parsed?
    ensures 20 <= |p|
    ensures var key, f := KeyOf(Parse(p).header), FragmentOf(Parse(p).header, Parse(p).payload);
            && Four(p, 12, key.source) && Four(p, 16, key.destination) && Two(p, 4, key.identification) && Byte(p, 9, key.protocol)
            && f.offset == 8 * (256 * (p[6] as int % 32) + p[7]) && (f.more <==> p[6] / 32 % 2 == 1)
            && f.payload == Parse(p).payload
  {
    hide Parse, Four, Acceptable;
    ParseLaysOut(p);
    TopBitsAreFlags(p, Parse(p).header.flagsOffset);
  }

  lemma TopBitsAreFlags(p: seq<u8>, flagsOffset: u16)
    requires Two(p, 6, flagsOffset)
    ensures flagsOffset % 0x2000 == 256 * (p[6] as int % 32) + p[7] && flagsOffset / 0x2000 == p[6] / 32
  {
  }

  lemma MultipleOfEight(k: nat, size: nat)
    requires size % 8 == 0
    ensures k * size % 8 == 0
  {
    assert k * size == 8 * (k * (size / 8));
  }

  /** The flags and offset field says where the fragment belongs. */
  lemma FlagsAreRead(h: Ipv4Header, f: Fragment)
    requires f.offset % 8 == 0 && f.offset <= MAXIMUM_PAYLOAD_BYTES && h.flagsOffset == FlagsOffset(f)
    ensures FragmentOf(h, f.payload) == f
  {
  }

  /** Parsing packet number k, with any padding behind it, gives back the fragment and the key. */
  lemma PacketParses(o: Original, k: nat, padding: seq<u8>)
    requires IsOriginal(o) && k in AllOf(o)
    ensures IsNumber(o, k)
    ensures var p := Parse(PacketsOf(o)[k] + padding);
            p.Parsed? && KeyOf(p.header) == KeyOf(o.header) && FragmentOf(p.header, p.payload) == Numbered(o, k)
  {
    NumberIs(o, k);
    MultipleOfEight(k, o.size);
    var f := Numbered(o, k);
    var h := o.header.(flagsOffset := FlagsOffset(f));
    ParseOfBuilt(h, f.payload, padding);
    FlagsAreRead(Sealed(h, |f.payload|), f);
  }

  // ---- One datagram ----

  /** Position x belongs to fragment k. */
  lemma DivisionIs(x: nat, size: nat, k: nat)
    requires size > 0
    ensures x / size == k <==> k * size <= x < k * size + size
  {
    var q := x / size;
    assert q * size <= x < q * size + size;
    if q < k {
      assert (q + 1) * size <= k * size;
    } else if k < q {
      assert (k + 1) * size <= q * size;
    }
  }

  lemma Covered(o: Original, k: nat, x: int)
    requires IsOriginal(o) && IsNumber(o, k)
    ensures CoversByte(Numbered(o, k), x) <==> 0 <= x < |o.payload| && x / o.size == k
    ensures CoversByte(Numbered(o, k), x) ==> Numbered(o, k).payload[x - k * o.size] == o.payload[x]
  {
    if x >= 0 {
      DivisionIs(x, o.size, k);
    }
  }

  function Last(o: Original): nat
    requires IsOriginal(o)
  {
    (|o.payload| - 1) / o.size
  }

  lemma LastIs(o: Original, k: nat)
    requires IsOriginal(o) && IsNumber(o, k)
    ensures IsNumber(o, Last(o))
    ensures Numbered(o, k).more <==> k != Last(o)
    ensures k == Last(o) ==> End(Numbered(o, k)) == |o.payload|
  {
    DivisionIs(|o.payload| - 1, o.size, Last(o));
    DivisionIs(|o.payload| - 1, o.size, k);
  }

  ghost predicate HasBytes(o: Original, bytes: map<int, u8>, collected: set<int>)
    requires IsOriginal(o)
  {
    && (forall x :: x in bytes <==> 0 <= x < |o.payload| && x / o.size in collected)
    && (forall x :: x in bytes ==> 0 <= x < |o.payload| && bytes[x] == o.payload[x])
  }

  /** The datagram holds the fragments with the collected numbers. */
  ghost predicate Partial(o: Original, d: Datagram, collected: set<int>)
    requires IsOriginal(o)
  {
    && HasBytes(o, d.bytes, collected)
    && d.total == if Last(o) in collected then Some(|o.payload|) else None
  }

  lemma MergePartial(o: Original, d: Datagram, collected: set<int>, k: nat)
    requires IsOriginal(o) && IsNumber(o, k) && Partial(o, d, collected)
    ensures Consistent(d, Numbered(o, k)) && Partial(o, Merged(d, Numbered(o, k)), collected + {k})
  {
    var f := Numbered(o, k);
    LastIs(o, k);
    forall x
      ensures x in Merged(d, f).bytes <==> 0 <= x < |o.payload| && x / o.size in collected + {k}
      ensures x in Merged(d, f).bytes ==> Merged(d, f).bytes[x] == o.payload[x]
    {
      MergedAt(d, f, x);
      Covered(o, k, x);
    }
  }

  lemma StartOfNumber(o: Original, k: int)
    requires IsOriginal(o) && k in AllOf(o)
    ensures 0 <= k * o.size < |o.payload| && k * o.size / o.size == k
  {
    NumberIs(o, k);
    DivisionIs(k * o.size, o.size, k);
  }

  lemma NumberOfPosition(o: Original, x: int)
    requires IsOriginal(o) && 0 <= x < |o.payload|
    ensures x / o.size in AllOf(o)
  {
    DivisionIs(x, o.size, x / o.size);
    NumberIs(o, x / o.size);
  }

  /** Every position below the length is there exactly when every fragment has been collected. */
  lemma AllBytesIsAll(o: Original, bytes: map<int, u8>, collected: set<int>)
    requires IsOriginal(o) && HasBytes(o, bytes, collected) && collected <= AllOf(o)
    ensures (forall x :: 0 <= x < |o.payload| ==> x in bytes) <==> collected == AllOf(o)
  {
    if collected != AllOf(o) {
      var k :| k in AllOf(o) && k !in collected;
      StartOfNumber(o, k);
      assert k * o.size !in bytes;
    } else {
      forall x | 0 <= x < |o.payload| ensures x in bytes {
        NumberOfPosition(o, x);
      }
    }
  }

  lemma LastIsNumber(o: Original)
    requires IsOriginal(o)
    ensures Last(o) in AllOf(o)
  {
    LastIs(o, 0);
    NumberIs(o, Last(o));
  }

  lemma CompleteIsAll(o: Original, d: Datagram, collected: set<int>)
    requires IsOriginal(o) && Partial(o, d, collected) && collected <= AllOf(o)
    ensures IsComplete(d) <==> collected == AllOf(o)
    ensures IsComplete(d) ==> Payload(d) == o.payload
  {
    LastIsNumber(o);
    AllBytesIsAll(o, d.bytes, collected);
  }

  lemma NumberedOk(o: Original, k: nat)
    requires IsOriginal(o) && IsNumber(o, k)
    ensures FragmentOk(Numbered(o, k)) && !(Numbered(o, k).offset == 0 && !Numbered(o, k).more)
  {
  }

  // ---- Runs ----

  /** Our packets, by number; any other packet; and the timeout sweep. */
  datatype Event =
    | Ours(k: nat, padding: seq<u8>, now: u64, accepts: bool)
    | Others(packet: seq<u8>, now: u64, callback: Callback)
    | Sweep(now: u64)

  datatype World = World(capacity: nat, timeout: u64)

  /** A packet arrives: what parses is given to the table. */
  function Arrive(w: World, t: map<Key, Datagram>, packet: seq<u8>, now: u64, callback: Callback): (Option<Outcome>, map<Key, Datagram>) {
    match Parse(packet)
    case Rejected(_) => (None, t)
    case Parsed(h, payload) =>
      var (outcome, t') := Insert(t, w.capacity, KeyOf(h), FragmentOf(h, payload), now, callback);
      (Some(outcome), t')
  }

  function Step(o: Original, w: World, t: map<Key, Datagram>, e: Event): (Option<Outcome>, map<Key, Datagram>)
    requires IsOriginal(o)
  {
    match e
    case Ours(k, padding, now, accepts) =>
      if k < |PacketsOf(o)| then Arrive(w, t, PacketsOf(o)[k] + padding, now, Callback(accepts)) else (None, t)
    case Others(packet, now, callback) => Arrive(w, t, packet, now, callback)
    case Sweep(now) => (None, Swept(t, w.timeout, now))
  }

  /** A slot is available for our packets, no other packet has our key, and no sweep finds our datagram too old. */
  predicate Permitted(o: Original, w: World, t: map<Key, Datagram>, e: Event)
    requires IsOriginal(o)
  {
    var key := KeyOf(o.header);
    match e
    case Ours(k, _, _, _) => k in AllOf(o) && (key in t || |t| < w.capacity)
    case Others(packet, _, _) => Parse(packet).Parsed? ==> KeyOf(Parse(packet).header) != key
    case Sweep(now) => key in t ==> !TimedOut(t[key], w.timeout, now)
  }

  function After(o: Original, w: World, t: map<Key, Datagram>, events: seq<Event>): map<Key, Datagram>
    requires IsOriginal(o)
  {
    if events == [] then t
    else Step(o, w, After(o, w, t, events[..|events| - 1]), events[|events| - 1]).1
  }

  predicate IsRun(o: Original, w: World, t: map<Key, Datagram>, events: seq<Event>)
    requires IsOriginal(o)
  {
    events != [] ==>
      var init := events[..|events| - 1];
      IsRun(o, w, t, init) && Permitted(o, w, After(o, w, t, init), events[|events| - 1])
  }

  /** The fragments collected since the last delivery. */
  function Collected(o: Original, events: seq<Event>): set<int>
    requires IsOriginal(o)
  {
    if events == [] then {}
    else
      var collected, e := Collected(o, events[..|events| - 1]), events[|events| - 1];
      if !e.Ours? then collected
      else if collected + {e.k} == AllOf(o) then {} else collected + {e.k}
  }

  /** The state of the table is that of the collected fragments. */
  ghost predicate Holding(o: Original, t: map<Key, Datagram>, collected: set<int>)
    requires IsOriginal(o)
  {
    && collected < AllOf(o)
    && if collected == {} then KeyOf(o.header) !in t else KeyOf(o.header) in t && Partial(o, t[KeyOf(o.header)], collected)
  }

  lemma ArriveIsInsert(w: World, t: map<Key, Datagram>, packet: seq<u8>, now: u64, callback: Callback, key: Key, f: Fragment)
    requires Parse(packet).Parsed? && KeyOf(Parse(packet).header) == key && FragmentOf(Parse(packet).header, Parse(packet).payload) == f
    requires FragmentOk(f) && !(f.offset == 0 && !f.more) && (key in t || |t| < w.capacity) && callback.Callback?
    ensures var r := InsertAt(t, key, Found(t, key, now), f, callback);
            Arrive(w, t, packet, now, callback) == (Some(r.0), r.1)
  {
    var r := InsertAt(t, key, Found(t, key, now), f, callback);
    assert Insert(t, w.capacity, key, f, now, callback) == r;
  }

  /** One of our packets becomes a fragment for our datagram. */
  lemma OursIsInsert(o: Original, w: World, t: map<Key, Datagram>, e: Event)
    requires IsOriginal(o) && Permitted(o, w, t, e) && e.Ours?
    ensures IsNumber(o, e.k)
    ensures var key := KeyOf(o.header);
            var r := InsertAt(t, key, Found(t, key, e.now), Numbered(o, e.k), Callback(e.accepts));
            Step(o, w, t, e) == (Some(r.0), r.1)
  {
    PacketParses(o, e.k, e.padding);
    NumberedOk(o, e.k);
    ArriveIsInsert(w, t, PacketsOf(o)[e.k] + e.padding, e.now, Callback(e.accepts), KeyOf(o.header), Numbered(o, e.k));
  }

  lemma InsertNumbered(o: Original, t: map<Key, Datagram>, d: Datagram, collected: set<int>, k: nat, callback: Callback)
    requires IsOriginal(o) && k in AllOf(o) && IsNumber(o, k) && Partial(o, d, collected) && collected < AllOf(o) && callback.Callback?
    ensures var key := KeyOf(o.header);
            var (outcome, t') := InsertAt(t, key, d, Numbered(o, k), callback);
            if collected + {k} == AllOf(o) then outcome == Delivered(callback, o.payload) && key !in t'
            else outcome == Pending && key in t' && Partial(o, t'[key], collected + {k})
  {
    var d' := Merged(d, Numbered(o, k));
    MergePartial(o, d, collected, k);
    CompleteIsAll(o, d', collected + {k});
  }

  lemma OursStep(o: Original, w: World, t: map<Key, Datagram>, collected: set<int>, e: Event)
    requires IsOriginal(o) && Holding(o, t, collected) && Permitted(o, w, t, e) && e.Ours?
    ensures var all := collected + {e.k} == AllOf(o);
            && Step(o, w, t, e).0 == Some(if all then Delivered(Callback(e.accepts), o.payload) else Pending)
            && Holding(o, Step(o, w, t, e).1, if all then {} else collected + {e.k})
  {
    var d := Found(t, KeyOf(o.header), e.now);
    OursIsInsert(o, w, t, e);
    assert Partial(o, d, collected);
    InsertNumbered(o, t, d, collected, e.k, Callback(e.accepts));
  }

  lemma ArriveElsewhere(w: World, t: map<Key, Datagram>, packet: seq<u8>, now: u64, callback: Callback, key: Key)
    requires Parse(packet).Parsed? ==> KeyOf(Parse(packet).header) != key
    ensures var t' := Arrive(w, t, packet, now, callback).1; (key in t <==> key in t') && (key in t ==> t'[key] == t[key])
  {
    hide Parse, FragmentOf, Merged, IsComplete, Payload, Consistent, KeyOf;
  }

  /** Packets of other keys leave ours alone. */
  lemma OthersStep(o: Original, w: World, t: map<Key, Datagram>, collected: set<int>, e: Event)
    requires IsOriginal(o) && Holding(o, t, collected) && Permitted(o, w, t, e) && !e.Ours?
    ensures Holding(o, Step(o, w, t, e).1, collected)
  {
    hide Partial, IsOriginal, Arrive, Parse, KeyOf;
    if e.Others? {
      ArriveElsewhere(w, t, e.packet, e.now, e.callback, KeyOf(o.header));
    }
  }

  lemma {:induction false} RunHolds(o: Original, w: World, t: map<Key, Datagram>, events: seq<Event>)
    requires IsOriginal(o) && KeyOf(o.header) !in t && IsRun(o, w, t, events)
    ensures Holding(o, After(o, w, t, events), Collected(o, events))
    decreases |events|
  {
    LastIsNumber(o);
    if events != [] {
      var init, e := events[..|events| - 1], events[|events| - 1];
      RunHolds(o, w, t, init);
      if e.Ours? {
        OursStep(o, w, After(o, w, t, init), Collected(o, init), e);
      } else {
        OthersStep(o, w, After(o, w, t, init), Collected(o, init), e);
      }
    }
  }

  function OutcomeOf(o: Original, w: World, t: map<Key, Datagram>, events: seq<Event>, e: Event): Option<Outcome>
    requires IsOriginal(o)
  {
    Step(o, w, After(o, w, t, events), e).0
  }

  /** In every run, one of our packets is answered with the payload if it completes the collection and is pending otherwise. */
  lemma EveryOutcome(o: Original, w: World, t: map<Key, Datagram>, events: seq<Event>, e: Event)
    requires IsOriginal(o) && KeyOf(o.header) !in t && IsRun(o, w, t, events + [e]) && e.Ours?
    ensures OutcomeOf(o, w, t, events, e)
         == Some(if Collected(o, events) + {e.k} == AllOf(o) then Delivered(Callback(e.accepts), o.payload) else Pending)
  {
    assert (events + [e])[..|events|] == events;
    RunHolds(o, w, t, events);
    OursStep(o, w, After(o, w, t, events), Collected(o, events), e);
  }

  /** The numbers of our packets that have arrived at all. */
  function Arrived(events: seq<Event>): set<int> {
    if events == [] then {}
    else Arrived(events[..|events| - 1]) + if events[|events| - 1].Ours? then {events[|events| - 1].k} else {}
  }

  lemma {:induction false} CollectedIsArrived(o: Original, events: seq<Event>)
    requires IsOriginal(o) && Arrived(events) < AllOf(o)
    ensures Collected(o, events) == Arrived(events)
    decreases |events|
  {
    if events != [] {
      CollectedIsArrived(o, events[..|events| - 1]);
    }
  }

  /** After a delivery, collecting starts from nothing. */
  lemma {:induction false} CollectedAfresh(o: Original, before: seq<Event>, after: seq<Event>)
    requires IsOriginal(o) && Collected(o, before) == {}
    ensures Collected(o, before + after) == Collected(o, after)
    decreases |after|
  {
    if after == [] {
      assert before + after == before;
    } else {
      var init, n := after[..|after| - 1], |before| + |after| - 1;
      CollectedAfresh(o, before, init);
      assert (before + after)[..n] == before + init;
    }
  }

  /** The payload is delivered at the packet that supplies the last missing fragment, and all before it were pending. */
  lemma DeliveredAtLastMissing(o: Original, w: World, t: map<Key, Datagram>, events: seq<Event>, e: Event)
    requires IsOriginal(o) && KeyOf(o.header) !in t && IsRun(o, w, t, events + [e]) && e.Ours? && Arrived(events) < AllOf(o)
    ensures OutcomeOf(o, w, t, events, e)
         == Some(if Arrived(events) + {e.k} == AllOf(o) then Delivered(Callback(e.accepts), o.payload) else Pending)
  {
    CollectedIsArrived(o, events);
    EveryOutcome(o, w, t, events, e);
  }

  /** And only once: later duplicates are pending until they, too, are complete. */
  lemma DeliveredOnce(o: Original, w: World, t: map<Key, Datagram>, first: seq<Event>, done: Event, later: seq<Event>, e: Event)
    requires IsOriginal(o) && KeyOf(o.header) !in t && IsRun(o, w, t, first + [done] + later + [e]) && done.Ours? && e.Ours?
    requires Arrived(first) < AllOf(o) && Arrived(first) + {done.k} == AllOf(o) && Arrived(later) + {e.k} < AllOf(o)
    ensures OutcomeOf(o, w, t, first + [done] + later, e) == Some(Pending)
  {
    CollectedIsArrived(o, first);
    assert (first + [done])[..|first|] == first;
    assert Collected(o, first + [done]) == {};
    CollectedAfresh(o, first + [done], later);
    CollectedIsArrived(o, later);
    EveryOutcome(o, w, t, first + [done] + later, e);
  }

  /** A payload that fits one packet is delivered at once and leaves no trace. */
  lemma WholePacket(w: World, t: map<Key, Datagram>, h: Ipv4Header, payload: seq<u8>, mtu: nat, scratchBytes: nat,
                    padding: seq<u8>, now: u64, accepts: bool)
    requires HEADER_BYTES <= mtu <= scratchBytes && |payload| <= mtu - HEADER_BYTES && |payload| <= MAXIMUM_PAYLOAD_BYTES
    ensures var plan := PlanFor(h, payload, mtu, scratchBytes);
            && plan.Send? && |plan.packets| == 1
            && Arrive(w, t, plan.packets[0] + padding, now, Callback(accepts)) == (Some(Delivered(Callback(accepts), payload)), t)
  {
    hide Built, Parse, PacketsFrom;
    ParseOfBuilt(h.(flagsOffset := 0), payload, padding);
  }
}
