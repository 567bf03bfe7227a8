/**
 Runs of two endpoints with their steps written down.  Each endpoint of such a run is the endpoint of a run of its own,
 so that everything known of those holds of it; a chunk that arrives while there is room is never lost again; and when
 every chunk has arrived, and then an acknowledgement of them, everything is delivered and nothing is outstanding.
 */
module Completion {
  import opened Numbers
  import opened Wire
  import RetransmissionQueue
  import opened ConnectionModel
  import opened Stream
  import opened SenderInvariant
  import opened ReceiverAgreement
  import opened ReceiverProgress
  import opened Protocol
  import opened Progress
  import SenderRuns
  import FastRetransmit
  import Congestion

  datatype Turn = AtA(action: Action) | AtB(action: Action)

  ghost predicate Takes(w: World, w': World, t: Turn) {
    match t
    case AtA(action) => ActsA(w, w', action)
    case AtB(action) => ActsB(w, w', action)
  }

  ghost predicate IsTrace(run: seq<World>, turns: seq<Turn>) {
    |run| == |turns| + 1 && Init(run[0]) && AllTaken(run, turns)
  }

  ghost predicate AllTaken(run: seq<World>, turns: seq<Turn>)
    requires |run| == |turns| + 1
  {
    forall i :: 0 <= i < |turns| ==> Takes(run[i], run[i + 1], turns[i])
  }

  lemma TakenAt(run: seq<World>, turns: seq<Turn>, i: nat)
    requires IsTrace(run, turns) && i < |turns|
    ensures Takes(run[i], run[i + 1], turns[i])
  {
    hide Init, Takes;
  }

  lemma TraceIsRun(run: seq<World>, turns: seq<Turn>)
    requires IsTrace(run, turns)
    ensures IsRun(run)
  {
    hide Init, AllTaken, ActsA, ActsB;
    forall i | 0 <= i < |run| - 1 ensures Next(run[i], run[i + 1]) {
      TakenAt(run, turns, i);
    }
  }

  // ---- The other direction is the same ----

  function Mirror(w: World): World {
    World(w.b, w.a, w.ba, w.ab)
  }

  function MirrorTurn(t: Turn): Turn {
    match t
    case AtA(action) => AtB(action)
    case AtB(action) => AtA(action)
  }

  lemma MirrorIsTrace(run: seq<World>, turns: seq<Turn>, run': seq<World>, turns': seq<Turn>)
    requires IsTrace(run, turns) && |run'| == |run| && |turns'| == |turns|
    requires forall i :: 0 <= i < |run| ==> run'[i] == Mirror(run[i])
    requires forall i :: 0 <= i < |turns| ==> turns'[i] == MirrorTurn(turns[i])
    ensures IsTrace(run', turns')
  {
    hide Act, Enabled;
    forall i | 0 <= i < |turns'| ensures Takes(run'[i], run'[i + 1], turns'[i]) {
      TakenAt(run, turns, i);
    }
  }

  // ---- Each endpoint is a run of its own ----

  function EventOf(action: Action): Event {
    match action
    case DoSend(payload, now) => Event.DoSend(payload, now)
    case DoTick(now) => Event.DoTick(now)
    case DoControl(established, flags) => Event.DoControl(established, flags)
    case DoReceive(p, now, gate) => Event.DoSegment(p.wire, now, gate)
  }

  /** What the first endpoint does in a sequence of turns. */
  function EventsOfA(turns: seq<Turn>): seq<Event> {
    if turns == [] then []
    else EventsOfA(turns[..|turns| - 1]) + if turns[|turns| - 1].AtA? then [EventOf(turns[|turns| - 1].action)] else []
  }

  lemma ActIsStep(me: Conn, action: Action)
    requires Congestion.Bounded(me.tx.window)
    ensures Act(me, action) == Step(me, EventOf(action))
  {
    hide Send, OnSegment, Tick, ControlStep;
  }

  /** In every run of two endpoints, an endpoint is where its own run takes it. */
  lemma {:induction false} EndpointIsRun(run: seq<World>, turns: seq<Turn>, i: nat)
    requires IsTrace(run, turns) && i < |run|
    ensures run[i].a == SenderRuns.After(run[0].a.cfg, EventsOfA(turns[..i]))
    decreases i
  {
    hide Step, Act, Enabled, FreshPackets;
    if i > 0 {
      EndpointIsRun(run, turns, i - 1);
      TakenAt(run, turns, i - 1);
      assert turns[..i][..i - 1] == turns[..i - 1];
      if turns[i - 1].AtA? {
        var e := EventOf(turns[i - 1].action);
        ActIsStep(run[i - 1].a, turns[i - 1].action);
        SenderRuns.AfterMore(run[0].a.cfg, EventsOfA(turns[..i - 1]), e);
      } else {
        assert EventsOfA(turns[..i]) == EventsOfA(turns[..i - 1]);
      }
    }
  }

  lemma ShortInTrace(run: seq<World>, turns: seq<Turn>, i: nat)
    requires IsTrace(run, turns) && i < |run|
    ensures SenderRuns.ShortChunks(run[i].a.tx)
  {
    hide Init, AllTaken, Takes, SenderRuns.After;
    EndpointIsRun(run, turns, i);
    SenderRuns.AfterShort(run[0].a.cfg, EventsOfA(turns[..i]));
  }

  // ---- What has arrived stays ----

  /** The chunks of the first endpoint's stream that the second one has. */
  ghost function KeptAtB(w: World): set<nat> {
    Kept(w.a.cfg.iss, w.a.tx.sent, w.b.rx)
  }

  lemma KeptOfLonger(iss: u32, chunks: Chunks, longer: Chunks, rx: Receiver)
    requires chunks <= longer
    ensures Kept(iss, chunks, rx) <= Kept(iss, longer, rx)
  {
    forall k | k in Kept(iss, chunks, rx) ensures k in Kept(iss, longer, rx) {
      if k >= |rx.delivered| {
        var i :| 0 <= i < |rx.slots| && SlotKeeps(iss, chunks, k, rx.slots[i]);
        OffOfPrefix(chunks, longer, k);
        assert SlotKeeps(iss, longer, k, rx.slots[i]);
      }
    }
  }

  lemma JoinGrows(slots: nat, chunks: Chunks, kept: set<nat>, k: nat)
    requires k < |chunks|
    ensures kept <= Join(slots, chunks, kept, k)
  {
  }

  /** A step of the first endpoint only lengthens its stream. */
  lemma StreamGrows(me: Conn, action: Action)
    requires Congestion.Bounded(me.tx.window)
    ensures me.tx.sent <= Act(me, action).0.tx.sent && Act(me, action).0.cfg == me.cfg
  {
    hide SendOutcome, ProcessAck, OnPayload, OnSegment, ControlSegment;
    match action
    case DoSend(payload, now) =>
    case DoTick(now) =>
    case DoControl(established, flags) =>
    case DoReceive(p, now, gate) =>
      SenderRuns.SegmentKeepsStream(me, p.wire, now, gate);
      ConfigStays(me, p.wire, now, gate);
  }

  lemma ConfigStays(me: Conn, segment: seq<u8>, now: u64, gate: Gate)
    requires Congestion.Bounded(me.tx.window)
    ensures OnSegment(me, segment, now, gate).0.cfg == me.cfg
  {
    hide ProcessAck, Parse, ProcessPayload;
    if Parse(segment).Parsed? {
      SenderRuns.ParsedIsValid(segment);
    }
  }

  /** The packet brings chunk k to an open connection. */
  predicate Brings(action: Action, k: nat) {
    action.DoReceive? && HasPayload(action.p) && IsOpen(action.gate) && action.p.meta.index == k
  }

  /** Everything a step of the second endpoint can do to its receiving half. */
  lemma ReceiverStep(me: Conn, peer: Conn, outgoing: set<Packet>, incoming: set<Packet>, action: Action)
    requires Pair(me, peer, outgoing, incoming) && Enabled(me, peer, incoming, action) && SenderRuns.ShortChunks(peer.tx)
    ensures Congestion.Bounded(me.tx.window)
    ensures var (me', outs) := Act(me, action);
            if action.DoReceive? && Brings(action, action.p.meta.index)
            then TakesChunk(peer.cfg.iss, peer.tx.sent, me.rx, action.p.meta.index, me'.rx) && IsAnswered(me', outs)
            else me'.rx == me.rx
  {
    hide Pair, Recent, TakesChunk, SendOutcome, OnSegment, ControlSegment, IsAnswered, Parse;
    BoundedInPair(me, peer, outgoing, incoming);
    if action.DoReceive? {
      if Brings(action, action.p.meta.index) {
        PayloadArrives(me, peer, outgoing, incoming, action.p, action.now, action.gate);
      } else {
        NothingElseArrives(me, action.p.wire, action.now, action.gate);
      }
    }
  }

  lemma BoundedInPair(me: Conn, peer: Conn, outgoing: set<Packet>, incoming: set<Packet>)
    requires Pair(me, peer, outgoing, incoming)
    ensures Congestion.Bounded(me.tx.window)
  {
  }

  lemma KeptGrows(w: World, w': World, t: Turn)
    requires Inv(w) && Takes(w, w', t) && SenderRuns.ShortChunks(w.a.tx)
    ensures KeptAtB(w) <= KeptAtB(w')
    ensures t.AtB? && t.action.DoReceive? && Brings(t.action, t.action.p.meta.index) ==>
              t.action.p.meta.index < |w.a.tx.sent| && KeptAtB(w') == Join(|w.b.rx.slots|, w.a.tx.sent, KeptAtB(w), t.action.p.meta.index)
  {
    hide Pair, Act, Enabled, FreshPackets, Kept, Join, ReceiverProgress.FirstMissing, Brings;
    match t
    case AtA(action) =>
      StreamGrows(w.a, action);
      KeptOfLonger(w.a.cfg.iss, w.a.tx.sent, w'.a.tx.sent, w.b.rx);
    case AtB(action) =>
      OtherSide(w);
      ReceiverStep(w.b, w.a, w.ba, w.ab, action);
      if action.DoReceive? && Brings(action, action.p.meta.index) {
        JoinGrows(|w.b.rx.slots|, w.a.tx.sent, KeptAtB(w), action.p.meta.index);
      }
  }

  lemma {:induction false} KeptForever(run: seq<World>, turns: seq<Turn>, i: nat, j: nat)
    requires IsTrace(run, turns) && i <= j < |run|
    ensures KeptAtB(run[i]) <= KeptAtB(run[j])
    decreases j
  {
    hide Init, AllTaken, Inv, KeptAtB, ActsA, ActsB;
    if i < j {
      KeptForever(run, turns, i, j - 1);
      TraceIsRun(run, turns);
      RunKeepsInv(run, j - 1);
      ShortInTrace(run, turns, j - 1);
      TakenAt(run, turns, j - 1);
      KeptGrows(run[j - 1], run[j], turns[j - 1]);
    }
  }

  /** Chunk k arrives at the second endpoint while one of its slots is free. */
  ghost predicate ArrivesWithRoom(w: World, t: Turn, k: nat) {
    t.AtB? && Brings(t.action, k) && exists s :: 0 <= s < |w.b.rx.slots| && w.b.rx.slots[s].Free?
  }

  ghost predicate HasArrived(run: seq<World>, turns: seq<Turn>, k: nat) {
    exists i :: 0 <= i < |turns| && i < |run| && ArrivesWithRoom(run[i], turns[i], k)
  }

  lemma RoomIsCounted(rx: Receiver)
    requires exists s :: 0 <= s < |rx.slots| && rx.slots[s].Free?
    ensures HeldCount(rx.slots) < |rx.slots|
  {
    hide HeldCount;
    FreeIsCounted(rx.slots);
  }

  lemma ArrivalIsKept(w: World, w': World, t: Turn, k: nat)
    requires Inv(w) && Takes(w, w', t) && SenderRuns.ShortChunks(w.a.tx) && ArrivesWithRoom(w, t, k)
    ensures k in KeptAtB(w')
  {
    hide Pair, Act, Enabled, FreshPackets, ActsA, ActsB, HeldCount, Kept, ReceiverInv, FirstFrom;
    KeptGrows(w, w', t);
    RoomIsCounted(w.b.rx);
    OtherSide(w);
    PairIs(w.b, w.a, w.ba, w.ab);
    var iss, sent, rx := w.a.cfg.iss, w.a.tx.sent, w.b.rx;
    KeptSize(w.b.cfg, iss, sent, MAXIMUM_FLIGHT, rx);
    DeliveredToFirstMissing(w.b.cfg, iss, sent, MAXIMUM_FLIGHT, rx);
    FirstFromIs(|sent|, KeptAtB(w), 0, |rx.delivered|);
  }

  /**
   Delivery.  In every run: if each of the first n chunks arrived at some time while a slot was free, however they were
   ordered, repeated or mixed with others, then the first n chunks have been delivered.
   */
  lemma ArrivedIsDelivered(run: seq<World>, turns: seq<Turn>, n: nat)
    requires IsTrace(run, turns)
    requires forall k: nat :: k < n ==> HasArrived(run, turns, k)
    ensures var w := run[|turns|];
            n <= |w.b.rx.delivered| && w.b.rx.delivered <= w.a.tx.sent
  {
    hide Init, AllTaken, Inv, KeptAtB, Takes, HasArrived;
    var w := run[|turns|];
    TraceIsRun(run, turns);
    forall k: nat | k < n ensures k in KeptAtB(w) {
      ArrivedIsKept(run, turns, k);
    }
    RunKeepsInv(run, |turns|);
    FirstMissingAtB(w);
  }

  lemma ArrivedIsKept(run: seq<World>, turns: seq<Turn>, k: nat)
    requires IsTrace(run, turns) && HasArrived(run, turns, k)
    ensures k in KeptAtB(run[|turns|])
  {
    hide Init, AllTaken, Inv, KeptAtB, Takes, ArrivesWithRoom, SenderRuns.ShortChunks;
    var i :| 0 <= i < |turns| && i < |run| && ArrivesWithRoom(run[i], turns[i], k);
    TraceIsRun(run, turns);
    RunKeepsInv(run, i);
    ShortInTrace(run, turns, i);
    TakenAt(run, turns, i);
    ArrivalIsKept(run[i], run[i + 1], turns[i], k);
    KeptForever(run, turns, i + 1, |turns|);
  }

  lemma FirstMissingAtB(w: World)
    requires Inv(w)
    ensures ReceiverProgress.FirstMissing(KeptAtB(w), |w.b.rx.delivered|) && w.b.rx.delivered <= w.a.tx.sent
  {
    hide Pair, ReceiverInv, Kept, ReceiverProgress.FirstMissing;
    OtherSide(w);
    PairIs(w.b, w.a, w.ba, w.ab);
    DeliveredToFirstMissing(w.b.cfg, w.a.cfg.iss, w.a.tx.sent, MAXIMUM_FLIGHT, w.b.rx);
  }

  // ---- What has been acknowledged stays so ----

  lemma AckedGrows(c: Conn, e: Event)
    requires SenderInv(c.cfg.iss, c.tx)
    ensures c.tx.bytesAcked <= Step(c, e).0.tx.bytesAcked && c.tx.sent <= Step(c, e).0.tx.sent
  {
    hide SenderInv, ProcessAck, OnSegment, Parse, Tick, SendOutcome, ControlSegment, SenderRuns.Includes;
    SenderRuns.SenderIs(c.cfg.iss, c.tx);
    match e
    case DoSend(payload, now) =>
    case DoControl(established, flags) =>
    case DoTick(now) =>
      SenderRuns.TickEvents(c.cfg.iss, c.tx, now);
      TickKeepsStream(c.tx, now);
    case DoSegment(segment, now, gate) =>
      SenderRuns.SegmentParts(c, segment, now, gate);
      SenderRuns.SegmentKeepsStream(c, segment, now, gate);
      if SenderRuns.AckIn(e).Some? {
        SenderRuns.AckExactly(c.cfg.iss, c.tx, SenderRuns.AckIn(e).value, now);
      }
  }

  lemma TickKeepsStream(tx: Sender, now: u64)
    requires Congestion.Bounded(tx.window)
    ensures Tick(tx, now).0.sent == tx.sent
  {
  }

  lemma TakesStep(run: seq<World>, turns: seq<Turn>, i: nat)
    requires IsTrace(run, turns) && i < |turns|
    ensures Congestion.Bounded(run[i].a.tx.window)
    ensures run[i + 1].a == if turns[i].AtA? then Step(run[i].a, EventOf(turns[i].action)).0 else run[i].a
    ensures SenderInv(run[i].a.cfg.iss, run[i].a.tx) && run[i].a.cfg == run[0].a.cfg
  {
    hide Step, Act, Enabled, FreshPackets, SenderInv, SenderRuns.After;
    EndpointIsRun(run, turns, i);
    SenderRuns.AfterIs(run[0].a.cfg, EventsOfA(turns[..i]));
    SenderRuns.SenderIs(run[0].a.cfg.iss, run[i].a.tx);
    TakenAt(run, turns, i);
    if turns[i].AtA? {
      ActIsStep(run[i].a, turns[i].action);
    }
  }

  lemma {:induction false} AckedForever(run: seq<World>, turns: seq<Turn>, i: nat, j: nat)
    requires IsTrace(run, turns) && i <= j < |run|
    ensures run[i].a.tx.bytesAcked <= run[j].a.tx.bytesAcked && run[i].a.tx.sent <= run[j].a.tx.sent
    decreases j
  {
    hide Init, AllTaken, Takes, Step, SenderInv;
    if i < j {
      AckedForever(run, turns, i, j - 1);
      TakesStep(run, turns, j - 1);
      if turns[j - 1].AtA? {
        AckedGrows(run[j - 1].a, EventOf(turns[j - 1].action));
      }
    }
  }

  /** An acknowledgement of the first n chunks arrives at the first endpoint, no more than 2^31 bytes old. */
  ghost predicate AckArrivesAt(w: World, t: Turn, n: nat) {
    t.AtA? && t.action.DoReceive? && IsRecentAck(w.a, t.action.p) && n <= t.action.p.meta.acked
  }

  /**
   Acknowledgement.  In every run: once an acknowledgement of the first n chunks has arrived, their bytes are
   acknowledged for good and none of them is in the queue; if they are all that was sent, nothing is outstanding.
   */
  lemma EverythingIsAcknowledged(run: seq<World>, turns: seq<Turn>, n: nat, i: nat)
    requires IsTrace(run, turns) && i < |turns| && AckArrivesAt(run[i], turns[i], n)
    ensures var tx := run[|turns|].a.tx;
            && n <= |tx.sent| && Off(tx.sent, n) <= tx.bytesAcked && n <= First(tx) && |tx.queue| <= |tx.sent|
            && (n == |tx.sent| ==> tx.queue == [] && tx.bytesAcked == tx.bytesSent)
  {
    hide Init, AllTaken, Takes, Step, SenderInv, Pair, Recent, Off, Act, OnSegment, Parse;
    TraceIsRun(run, turns);
    RunKeepsInv(run, i);
    var w, w', last := run[i], run[i + 1], run[|turns|];
    RecentHere(run, turns, i);
    var p, now, gate := turns[i].action.p, turns[i].action.now, turns[i].action.gate;
    AckArrives(w.a, w.b, w.ab, w.ba, p, now, gate);
    TakesStep(run, turns, i);
    ReceiveIsSegment(w.a, turns[i].action);
    AckedForever(run, turns, i + 1, |turns|);
    OffMonotone(w.a.tx.sent, n, p.meta.acked);
    OffOfPrefix(w.a.tx.sent, last.a.tx.sent, n);
    RunKeepsInv(run, |turns|);
    NothingBefore(last, n);
  }

  lemma ReceiveIsSegment(c: Conn, action: Action)
    requires Congestion.Bounded(c.tx.window) && action.DoReceive?
    ensures Step(c, EventOf(action)) == OnSegment(c, action.p.wire, action.now, action.gate)
  {
    hide OnSegment;
  }

  lemma RecentHere(run: seq<World>, turns: seq<Turn>, i: nat)
    requires IsTrace(run, turns) && i < |turns| && turns[i].AtA? && turns[i].action.DoReceive?
    ensures turns[i].action.p in run[i].ba && Recent(run[i].a, run[i].b, turns[i].action.p)
  {
    hide Init, AllTaken, Recent, Act;
    TakenAt(run, turns, i);
  }

  /** The queue starts behind what is acknowledged. */
  lemma NothingBefore(w: World, n: nat)
    requires Inv(w) && n <= |w.a.tx.sent| && Off(w.a.tx.sent, n) <= w.a.tx.bytesAcked
    ensures n <= First(w.a.tx) && |w.a.tx.queue| <= |w.a.tx.sent|
    ensures n == |w.a.tx.sent| ==> w.a.tx.queue == [] && w.a.tx.bytesAcked == w.a.tx.bytesSent
  {
    hide ReceiverInv, AllData, AllAcks, AcksMiss, Scoreboard, Copies, Epochs;
    var tx := w.a.tx;
    HeadIsCut(w.a, w.b, w.ab, w.ba);
    if First(tx) < n {
      OffMonotone(tx.sent, First(tx), n);
    }
  }

  /** Completion: when every chunk that was sent has arrived, and then an acknowledgement of them all, nothing is left to do. */
  lemma EverythingGetsThrough(run: seq<World>, turns: seq<Turn>, i: nat)
    requires IsTrace(run, turns) && i < |turns|
    requires forall k: nat :: k < |run[|turns|].a.tx.sent| ==> HasArrived(run, turns, k)
    requires AckArrivesAt(run[i], turns[i], |run[|turns|].a.tx.sent|)
    ensures var w := run[|turns|];
            && w.b.rx.delivered == w.a.tx.sent && Concat(w.b.rx.delivered) == Concat(w.a.tx.sent)
            && w.a.tx.queue == [] && w.a.tx.bytesAcked == w.a.tx.bytesSent
  {
    hide Init, AllTaken, Takes, HasArrived, AckArrivesAt;
    var n := |run[|turns|].a.tx.sent|;
    ArrivedIsDelivered(run, turns, n);
    EverythingIsAcknowledged(run, turns, n, i);
  }

  /** The packet acknowledges exactly what the endpoint has: a header with the acknowledgement flag and nothing behind it. */
  ghost predicate IsAckOf(c: Conn, p: Packet) {
    && p.meta.acked == |c.rx.delivered| && Parse(p.wire) == Parsed(MakeHeader(c, FLAG_ACK), |p.wire|)
  }

  /** Every packet that brings a chunk to the second endpoint is answered with an acknowledgement of everything it then has. */
  lemma ArrivalIsAnswered(w: World, w': World, t: Turn, k: nat)
    requires Inv(w) && Inv(w') && Takes(w, w', t) && SenderRuns.ShortChunks(w.a.tx) && t.AtB? && Brings(t.action, k)
    ensures exists p :: p in w'.ba && IsAckOf(w'.b, p)
  {
    hide Pair, Enabled, Act, MakeHeader, Serialized, TakesChunk, Carries, Parse;
    OtherSide(w);
    OtherSide(w');
    ReceiverStep(w.b, w.a, w.ba, w.ab, t.action);
    PairIs(w'.b, w'.a, w'.ba, w'.ab);
    var (me, outs) := Act(w.b, t.action);
    HeaderIsCarried(me, FLAG_ACK, []);
    var last := |outs| - 1;
    var p := FreshPacket(me, outs[last]);
    assert p in FreshPackets(me, outs);
    assert Serialized(MakeHeader(me, FLAG_ACK)) + [] == p.wire;
    CarriedWhole(p.wire, MakeHeader(me, FLAG_ACK));
    assert IsAckOf(w'.b, p);
  }

  lemma CarriedWhole(wire: seq<u8>, h: TransportHeader)
    requires Carries(wire, h, [])
    ensures Parse(wire) == Parsed(h, |wire|)
  {
    hide Parse;
    var n: nat :| n <= |wire| && Parse(wire) == Parsed(h, n) && wire[n..] == [];
  }

  // ---- Fast retransmission ----

  /**
   In every run: the acknowledgement in a packet makes the first endpoint send something again exactly when it repeats
   the acknowledged point for the third time since it moved, the last such epoch is over, and anything is outstanding;
   what it sends again is the first segment of the queue, the oldest that is not acknowledged.
   */
  lemma ThirdRepeatResendsHead(run: seq<World>, turns: seq<Turn>, i: nat)
    requires IsTrace(run, turns) && i < |turns| && turns[i].AtA? && turns[i].action.DoReceive?
    ensures var cfg, before, e := run[0].a.cfg, EventsOfA(turns[..i]), EventOf(turns[i].action);
            var c, c', outs := run[i].a, run[i + 1].a, Step(SenderRuns.After(cfg, before), e).1;
            && (SenderRuns.Includes(outs, FastResend) <==>
                  && SenderRuns.IsRepeat(cfg.iss, c.tx, e) && SenderRuns.Repeats(cfg, before) == 2
                  && !SenderRuns.EpochOpen(cfg, before) && c.tx.queue != [])
            && (SenderRuns.Includes(outs, FastResend) ==> c'.tx.queue != [] && outs[0] == Out(FastResend, c'.tx.queue[0].buffer)
                                                          && c'.tx.queue[0].buffer == c.tx.queue[0].buffer)
  {
    hide Init, AllTaken, Takes, Step, SenderInv, Pair, SenderRuns.After, SenderRuns.Includes, SenderRuns.IsRepeat, SenderRuns.Repeats,
      SenderRuns.EpochOpen;
    var cfg, before, e := run[0].a.cfg, EventsOfA(turns[..i]), EventOf(turns[i].action);
    EndpointIsRun(run, turns, i);
    TakesStep(run, turns, i);
    SenderRuns.FastResendsExactly(cfg, before, e);
    TraceIsRun(run, turns);
    RunKeepsInv(run, i + 1);
    PairScoreboard(run[i + 1].a, run[i + 1].b, run[i + 1].ab, run[i + 1].ba);
    HeadIsFirst(run[i + 1].a.tx.queue);
    RepeatKeepsQueue(run[i].a, e);
  }

  /** With the head unmarked, some segment is unmarked as soon as there is one, and the first is the head. */
  lemma HeadIsFirst(queue: seq<RetransmissionQueue.Pending<seq<u8>>>)
    requires HeadUnmarked(queue)
    ensures FastRetransmit.SomeUnmarked(queue) <==> queue != []
    ensures forall n: nat :: FastRetransmit.FirstUnmarked(queue, n) ==> n == 0
  {
    if queue != [] {
      assert !queue[0].sacked;
    }
  }

  /** An acknowledgement that repeats the point takes nothing out of the queue. */
  lemma RepeatKeepsQueue(c: Conn, e: Event)
    requires SenderInv(c.cfg.iss, c.tx)
    ensures SenderRuns.IsRepeat(c.cfg.iss, c.tx, e) ==>
              var queue := Step(c, e).0.tx.queue;
              |queue| == |c.tx.queue| && forall i :: 0 <= i < |queue| ==> queue[i].buffer == c.tx.queue[i].buffer
  {
    hide SenderInv, ProcessAck, OnSegment, SenderRuns.Includes, SenderRuns.MarkedAfter, Parse;
    SenderRuns.SenderIs(c.cfg.iss, c.tx);
    if SenderRuns.IsRepeat(c.cfg.iss, c.tx, e) {
      var h := SenderRuns.AckIn(e).value;
      SenderRuns.SegmentParts(c, e.segment, e.now, e.gate);
      SenderRuns.AckExactly(c.cfg.iss, c.tx, h, e.now);
      SenderRuns.FlightBound(c.cfg.iss, c.tx);
      SenderRuns.AheadIsSmall(c.cfg.iss, c.tx, h.cumulativeAck);
      var (tx', outs) := ProcessAck(c.tx, h, e.now);
      SameHead(c.cfg.iss, c.tx, tx');
      var m := |c.tx.queue| - |tx'.queue|;
      forall i | 0 <= i < |tx'.queue| ensures tx'.queue[i].buffer == c.tx.queue[i].buffer {
        MarkedAt(c.tx.queue[m..], h, e.now, tx'.queue, outs, i);
      }
    }
  }

  lemma SameHead(iss: u32, tx: Sender, tx': Sender)
    requires Tiled(iss, tx) && Tiled(iss, tx') && tx'.sent == tx.sent && tx'.bytesAcked == tx.bytesAcked && |tx'.queue| <= |tx.queue|
    ensures |tx'.queue| == |tx.queue|
  {
    if |tx'.queue| < |tx.queue| {
      OffMonotone(tx.sent, First(tx) + 1, First(tx'));
    }
  }
}
