/**
 What IPv4 reassembly is meant to do, without holes or buffers: a datagram is a map
 from byte offsets to bytes, and the first arrival of a byte wins.
 */
module ReassemblyModel {
  import opened Numbers
  import opened Intervals
  import opened Ipv4
  import opened SlotMap

  const MORE_FRAGMENTS: u16 := 0x2000
  const OFFSET_MASK: u16 := 0x1FFF

  datatype Key = Key(source: u32, destination: u32, identification: u16, protocol: u8)

  datatype Fragment = Fragment(offset: nat, payload: seq<u8>, more: bool)

  function KeyOf(h: Ipv4Header): Key {
    Key(h.source, h.destination, h.identification, h.protocol)
  }

  function FragmentOf(h: Ipv4Header, payload: seq<u8>): (f: Fragment)
    ensures f.offset % 8 == 0 && f.payload == payload
  {
    Fragment(h.flagsOffset % (OFFSET_MASK + 1) * 8, payload, h.flagsOffset / MORE_FRAGMENTS % 2 == 1)
  }

  function End(f: Fragment): nat {
    f.offset + |f.payload|
  }

  /** What is accepted as a fragment at all. */
  predicate FragmentOk(f: Fragment) {
    && (f.more ==> f.payload != [] && |f.payload| % 8 == 0)
    && (f.offset != 0 ==> f.payload != [])
    && End(f) <= MAXIMUM_PAYLOAD_BYTES
  }

  /** A datagram in the making; `arrived` and `ignored` count the bytes of its fragments and those that were there already. */
  datatype Datagram = Datagram(bytes: map<int, u8>, total: Option<nat>, createdAt: u64, arrived: nat, ignored: nat)

  function NewDatagram(now: u64): Datagram {
    Datagram(map[], None, now, 0, 0)
  }

  /** The fragment agrees with what is known of the datagram's length. */
  predicate Consistent(d: Datagram, f: Fragment) {
    && (d.total.Some? ==> End(f) <= d.total.value)
    && (!f.more ==> (d.total.Some? ==> d.total.value == End(f)) && forall x :: x in d.bytes ==> x < End(f))
  }

  function FragmentBytes(f: Fragment): (m: map<int, u8>)
    ensures forall x :: x in m <==> f.offset <= x < End(f)
    ensures forall x :: x in m ==> f.offset <= x < End(f) && m[x] == f.payload[x - f.offset]
  {
    map x | x in Interval(f.offset, End(f)) :: f.payload[x - f.offset]
  }

  /** How many bytes of the fragment are new. */
  function NewBytes(d: Datagram, f: Fragment): nat {
    |FragmentBytes(f).Keys - d.bytes.Keys|
  }

  /** How many bytes of the fragment were there already. */
  function OldBytes(d: Datagram, f: Fragment): nat {
    |FragmentBytes(f).Keys * d.bytes.Keys|
  }

  /** Adds a fragment; bytes that were there stay. */
  function Merged(d: Datagram, f: Fragment): Datagram {
    Datagram(FragmentBytes(f) + d.bytes, if f.more then d.total else Some(End(f)), d.createdAt,
             d.arrived + |f.payload|, d.ignored + OldBytes(d, f))
  }

  predicate IsComplete(d: Datagram) {
    d.total.Some? && forall x :: 0 <= x < d.total.value ==> x in d.bytes
  }

  function Payload(d: Datagram): seq<u8>
    requires IsComplete(d)
  {
    seq(d.total.value, x requires 0 <= x < d.total.value => d.bytes[x])
  }

  lemma NewAndOldBytes(d: Datagram, f: Fragment)
    ensures NewBytes(d, f) + OldBytes(d, f) == |f.payload|
  {
    var keys := FragmentBytes(f).Keys;
    assert keys == Interval(f.offset, End(f));
    assert keys == (keys - d.bytes.Keys) + (keys * d.bytes.Keys);
  }

  // ---- The table ----

  datatype Callback = NoCallback | Callback(accepts: bool)

  datatype Outcome = Pending | Complete(payload: seq<u8>) | Malformed | TableFull | Declined(payload: seq<u8>)

  function Delivered(callback: Callback, payload: seq<u8>): Outcome
    requires callback.Callback?
  {
    if callback.accepts then Complete(payload) else Declined(payload)
  }

  function Found(t: map<Key, Datagram>, key: Key, now: u64): Datagram {
    if key in t then t[key] else NewDatagram(now)
  }

  /** A fragment arrives for a datagram that has a place in the table. */
  function InsertAt(t: map<Key, Datagram>, key: Key, d: Datagram, f: Fragment, callback: Callback): (Outcome, map<Key, Datagram>)
    requires callback.Callback?
  {
    if !Consistent(d, f) then (Malformed, t - {key})
    else
      var d' := Merged(d, f);
      if IsComplete(d') then (Delivered(callback, Payload(d')), t - {key}) else (Pending, t[key := d'])
  }

  function Insert(t: map<Key, Datagram>, capacity: nat, key: Key, f: Fragment, now: u64, callback: Callback): (Outcome, map<Key, Datagram>) {
    if callback.NoCallback? || !FragmentOk(f) then (Malformed, t)
    else if f.offset == 0 && !f.more then (Delivered(callback, f.payload), t)
    else if key !in t && |t| >= capacity then (TableFull, t)
    else
      InsertAt(t, key, Found(t, key, now), f, callback)
  }

  predicate TimedOut(d: Datagram, timeout: u64, now: u64) {
    now >= d.createdAt && now - d.createdAt >= timeout
  }

  function Swept(t: map<Key, Datagram>, timeout: u64, now: u64): map<Key, Datagram> {
    map key | key in t && !TimedOut(t[key], timeout, now) :: t[key]
  }

  // ---- First arrival wins, over every sequence of fragments ----

  predicate CoversByte(f: Fragment, x: int) {
    f.offset <= x < End(f)
  }

  /** The datagram after a sequence of fragments. */
  function MergeAll(now: u64, fragments: seq<Fragment>): Datagram {
    if fragments == [] then NewDatagram(now)
    else
      Merged(MergeAll(now, fragments[..|fragments| - 1]), fragments[|fragments| - 1])
  }

  function TotalBytes(fragments: seq<Fragment>): nat {
    if fragments == [] then 0 else TotalBytes(fragments[..|fragments| - 1]) + |fragments[|fragments| - 1].payload|
  }

  /** What is at a byte after a merge. */
  lemma MergedAt(d: Datagram, f: Fragment, x: int)
    ensures x in Merged(d, f).bytes <==> x in d.bytes || CoversByte(f, x)
    ensures x in d.bytes ==> Merged(d, f).bytes[x] == d.bytes[x]
    ensures x !in d.bytes && CoversByte(f, x) ==> Merged(d, f).bytes[x] == f.payload[x - f.offset]
  {
    UnionAt(d.bytes, f, x);
  }

  lemma UnionAt(bytes: map<int, u8>, f: Fragment, x: int)
    ensures x in FragmentBytes(f) + bytes <==> x in bytes || CoversByte(f, x)
    ensures x in bytes ==> (FragmentBytes(f) + bytes)[x] == bytes[x]
    ensures x !in bytes && CoversByte(f, x) ==> (FragmentBytes(f) + bytes)[x] == f.payload[x - f.offset]
  {
  }

  /** The byte of the earliest fragment that covers the offset. */
  function Earliest(fragments: seq<Fragment>, x: int): Option<u8> {
    if fragments == [] then None
    else if CoversByte(fragments[0], x) then Some(fragments[0].payload[x - fragments[0].offset])
    else Earliest(fragments[1..], x)
  }

  lemma {:induction false} EarliestOfInit(fragments: seq<Fragment>, x: int)
    requires fragments != []
    ensures var n := |fragments| - 1;
            Earliest(fragments, x) == if Earliest(fragments[..n], x).Some? then Earliest(fragments[..n], x) else Earliest([fragments[n]], x)
    decreases |fragments|
  {
    var n := |fragments| - 1;
    if n > 0 {
      EarliestOfInit(fragments[1..], x);
      assert fragments[1..][..n - 1] == fragments[..n][1..];
    } else {
      assert fragments[..0] == [] && fragments == [fragments[0]];
    }
  }

  /** A byte is there exactly when some fragment covers it, and it is the byte of the earliest one that does. */
  lemma {:induction false} FirstArrivalWins(now: u64, fragments: seq<Fragment>, x: int)
    ensures var d := MergeAll(now, fragments);
            Earliest(fragments, x) == if x in d.bytes then Some(d.bytes[x]) else None
    decreases |fragments|
  {
    hide Merged, FragmentBytes, CoversByte;
    if fragments != [] {
      var n := |fragments| - 1;
      var d := MergeAll(now, fragments[..n]);
      FirstArrivalWins(now, fragments[..n], x);
      EarliestOfInit(fragments, x);
      MergedAt(d, fragments[n], x);
    }
  }

  /** Bytes are conserved: what the fragments carried is what is there, plus what was ignored. */
  lemma {:induction false} BytesAreConserved(now: u64, fragments: seq<Fragment>)
    ensures var d := MergeAll(now, fragments);
            d.arrived == TotalBytes(fragments) == |d.bytes| + d.ignored
    decreases |fragments|
  {
    if fragments != [] {
      var f := fragments[|fragments| - 1];
      var d := MergeAll(now, fragments[..|fragments| - 1]);
      BytesAreConserved(now, fragments[..|fragments| - 1]);
      NewAndOldBytes(d, f);
      MergedSize(d, f);
    }
  }

  lemma MergedSize(d: Datagram, f: Fragment)
    ensures |Merged(d, f).bytes| == |d.bytes| + NewBytes(d, f)
  {
    var added := FragmentBytes(f).Keys - d.bytes.Keys;
    assert Merged(d, f).bytes.Keys == d.bytes.Keys + added;
  }

  /** Every byte there lies below the length of the datagram, once that is known. */
  predicate Within(d: Datagram) {
    forall x :: x in d.bytes ==> 0 <= x < if d.total.Some? then d.total.value else MAXIMUM_PAYLOAD_BYTES
  }

  lemma MergeKeepsWithin(d: Datagram, f: Fragment)
    requires Within(d) && FragmentOk(f) && Consistent(d, f)
    ensures Within(Merged(d, f))
  {
    forall x | x in Merged(d, f).bytes
      ensures 0 <= x < if Merged(d, f).total.Some? then Merged(d, f).total.value else MAXIMUM_PAYLOAD_BYTES
    {
      MergedAt(d, f, x);
    }
  }

  /** At delivery, the fragments carried the payload and the overlap, nothing more. */
  lemma CompleteIsConserved(d: Datagram)
    requires IsComplete(d) && Within(d) && d.arrived == |d.bytes| + d.ignored
    ensures |Payload(d)| == d.total.value && d.arrived == |Payload(d)| + d.ignored
  {
    assert d.bytes.Keys == Interval(0, d.total.value);
  }
}
