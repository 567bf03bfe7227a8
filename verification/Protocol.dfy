/**
 Two connections over a network that may drop, duplicate and reorder.  The network
 of each direction is the set of all packets ever put on it: a step may receive any
 of them, any number of times, in any order, or never.
 */
module Protocol {
  import opened Numbers
  import opened Sequence
  import opened Wire
  import opened RetransmissionQueue
  import opened Intervals
  import opened ReceiveRanges
  import opened ConnectionModel
  import opened Stream
  import opened SenderInvariant
  import opened ReceiverAgreement
  import Congestion
  import FastRetransmit

  /**
   What the sender of a packet knew: how many payloads it had sent before this one,
   how many it had delivered, and which runs it reported.  This is history only; the
   receiver sees the bytes.
   */
  datatype Meta = Meta(index: nat, acked: nat, runs: seq<Run>)

  datatype Packet = Packet(wire: seq<u8>, meta: Meta)

  datatype World = World(a: Conn, b: Conn, ab: set<Packet>, ba: set<Packet>)

  // ---- Packets ----

  predicate IsFresh(reason: Reason) {
    reason == Control || reason == NewData
  }

  /** The packet of a segment that is transmitted for the first time, by an endpoint now in state c. */
  function FreshPacket(c: Conn, out: Out): Packet {
    Packet(out.bytes, Meta(Max(0, |c.tx.sent| - 1), |c.rx.delivered|, Nearest(c.rx.ranges.runs)))
  }

  /** The new packets of a step; a retransmission puts a copy of an old packet on the network. */
  function FreshPackets(c: Conn, outs: seq<Out>): set<Packet> {
    set i | 0 <= i < |outs| && IsFresh(outs[i].reason) :: FreshPacket(c, outs[i])
  }

  ghost predicate Carries(wire: seq<u8>, h: TransportHeader, payload: seq<u8>) {
    exists n: nat :: n <= |wire| && Parse(wire) == Parsed(h, n) && payload == wire[n..]
  }

  /** A packet of the stream: it has no payload, or exactly one chunk with the chunk's sequence number. */
  ghost predicate DataOk(iss: u32, chunks: Chunks, p: Packet) {
    exists h: TransportHeader, payload: seq<u8> :: Carries(p.wire, h, payload) &&
      (payload == [] ||
       (p.meta.index < |chunks| && payload == chunks[p.meta.index] && h.sequence == Wrap(iss + Off(chunks, p.meta.index))))
  }

  /** The header says what the note says. */
  ghost predicate Acknowledges(position: int, runs: seq<Run>, h: TransportHeader) {
    && h.cumulativeAck == Wrap(position)
    && h.sackCount == |runs| <= MAXIMUM_SACK_BLOCKS
    && (forall i :: 0 <= i < |runs| ==> h.sacks[i] == WrapRun(runs[i]))
  }

  /** An acknowledgement of the stream: whole chunks that were delivered, and runs above them that were received. */
  ghost predicate AckOk(iss: u32, chunks: Chunks, rx: Receiver, p: Packet) {
    && p.meta.acked <= |rx.delivered| <= |chunks|
    && (exists h: TransportHeader, payload: seq<u8> ::
          Carries(p.wire, h, payload) && Acknowledges(iss + Off(chunks, p.meta.acked), p.meta.runs, h))
    && (forall i :: 0 <= i < |p.meta.runs| ==> iss + Off(chunks, p.meta.acked) < p.meta.runs[i].lo < p.meta.runs[i].hi)
    && (forall i, x :: 0 <= i < |p.meta.runs| && p.meta.runs[i].lo <= x < p.meta.runs[i].hi ==> Has(rx.ranges, x))
  }

  ghost predicate Reports(runs: seq<Run>, x: int) {
    exists i :: 0 <= i < |runs| && runs[i].lo <= x < runs[i].hi
  }

  // ---- The invariant of one direction ----

  /** A marked segment is covered by a run that was reported. */
  ghost predicate Reported(iss: u32, chunks: Chunks, k: nat, acks: set<Packet>) {
    exists p, i :: p in acks && 0 <= i < |p.meta.runs| && k < |chunks| &&
      p.meta.runs[i].lo <= iss + Off(chunks, k) && iss + Off(chunks, k + 1) <= p.meta.runs[i].hi
  }

  ghost predicate Scoreboard(iss: u32, chunks: Chunks, first: nat, queue: seq<Pending<seq<u8>>>, acks: set<Packet>) {
    forall i :: 0 <= i < |queue| && queue[i].sacked ==> Reported(iss, chunks, first + i, acks)
  }

  ghost predicate OnNetwork(bytes: seq<u8>, data: set<Packet>) {
    exists p :: p in data && p.wire == bytes
  }

  /** Everything in the queue has been on the network. */
  ghost predicate Copies(queue: seq<Pending<seq<u8>>>, data: set<Packet>) {
    forall i :: 0 <= i < |queue| ==> OnNetwork(queue[i].buffer, data)
  }

  /** The run reports of all acknowledgements miss the cut after chunk k. */
  ghost predicate Missed(iss: u32, chunks: Chunks, k: nat, acks: set<Packet>) {
    k <= |chunks| ==> forall p :: p in acks ==> !Reports(p.meta.runs, iss + Off(chunks, k))
  }

  /** No acknowledged position lies in a reported run, whichever acknowledgements the two come from. */
  ghost predicate AcksMiss(iss: u32, chunks: Chunks, first: nat, acks: set<Packet>) {
    Missed(iss, chunks, first, acks) && forall q :: q in acks ==> Missed(iss, chunks, q.meta.acked, acks)
  }

  ghost predicate AllData(iss: u32, chunks: Chunks, data: set<Packet>) {
    forall p :: p in data ==> DataOk(iss, chunks, p)
  }

  ghost predicate AllAcks(iss: u32, chunks: Chunks, rx: Receiver, acks: set<Packet>) {
    forall p :: p in acks ==> AckOk(iss, chunks, rx, p)
  }

  /** The sender's cumulative point is a cut, and no later than the delivery point. */
  ghost predicate Behind(tx: Sender, rx: Receiver) {
    && |tx.queue| <= |tx.sent|
    && tx.bytesAcked == Off(tx.sent, First(tx))
    && First(tx) <= |rx.delivered|
  }

  /** How the sender of one direction, its receiver and the two networks hang together. */
  ghost predicate Linked(iss: u32, tx: Sender, cfg: Config, rx: Receiver, data: set<Packet>, acks: set<Packet>) {
    && ReceiverInv(cfg, iss, tx.sent, MAXIMUM_FLIGHT, rx)
    && Behind(tx, rx)
    && AllData(iss, tx.sent, data)
    && AllAcks(iss, tx.sent, rx, acks)
    && AcksMiss(iss, tx.sent, First(tx), acks)
    && Scoreboard(iss, tx.sent, First(tx), tx.queue, acks)
    && Copies(tx.queue, data)
  }

  ghost predicate Dir(iss: u32, tx: Sender, cfg: Config, rx: Receiver, data: set<Packet>, acks: set<Packet>) {
    SenderInv(iss, tx) && Linked(iss, tx, cfg, rx, data, acks)
  }

  /** Both directions, as one endpoint sees them: what it has put on the network, and what its peer has. */
  ghost predicate Pair(me: Conn, peer: Conn, outgoing: set<Packet>, incoming: set<Packet>) {
    && me.cfg.irs == peer.cfg.iss && peer.cfg.irs == me.cfg.iss
    && Dir(me.cfg.iss, me.tx, peer.cfg, peer.rx, outgoing, incoming)
    && Dir(peer.cfg.iss, peer.tx, me.cfg, me.rx, incoming, outgoing)
  }

  ghost predicate Inv(w: World) {
    Pair(w.a, w.b, w.ab, w.ba)
  }

  // ---- Steps ----

  datatype Action =
    | DoSend(payload: seq<u8>, now: u64)
    | DoTick(now: u64)
    | DoControl(established: bool, flags: u8)
    | DoReceive(p: Packet, now: u64, gate: Gate)

  /** The acknowledgement neither moves the oldest byte nor marks a segment. */
  predicate Inert(tx: Sender, h: TransportHeader)
    requires h.sackCount <= MAXIMUM_SACK_BLOCKS
  {
    || Greater(h.cumulativeAck, tx.next)
    || (!Greater(h.cumulativeAck, tx.oldest)
        && forall i :: 0 <= i < |tx.queue| && MarkedBy(tx.queue[i], h.sacks[..h.sackCount]) ==> tx.queue[i].sacked)
  }

  /** The acknowledgement is of the last 2^31 bytes, or does nothing. */
  ghost predicate AckReadable(tx: Sender, acked: nat, h: TransportHeader)
    requires h.sackCount <= MAXIMUM_SACK_BLOCKS
  {
    acked <= |tx.sent| ==> tx.bytesSent - Off(tx.sent, acked) < TWO_31 || Inert(tx, h)
  }

  /** The payload is not one that was delivered before and does not compare as old. */
  ghost predicate PayloadReadable(chunks: Chunks, rx: Receiver, k: nat) {
    k < |rx.delivered| && k < |chunks| ==> ReadsAsOld(chunks, rx, k)
  }

  /** The packet is not so old that its numbers are taken for those of other bytes. */
  ghost predicate Recent(me: Conn, peer: Conn, p: Packet) {
    match Parse(p.wire)
    case Rejected(_) => true
    case Parsed(h, n) =>
      && (HasAck(h.flags) ==> AckReadable(me.tx, p.meta.acked, h))
      && (n < |p.wire| ==> PayloadReadable(peer.tx.sent, me.rx, p.meta.index))
  }

  ghost predicate Enabled(me: Conn, peer: Conn, incoming: set<Packet>, action: Action) {
    action.DoReceive? ==> action.p in incoming && Recent(me, peer, action.p)
  }

  function Act(me: Conn, action: Action): (Conn, seq<Out>)
    requires Congestion.Bounded(me.tx.window)
  {
    match action
    case DoSend(payload, now) => Send(me, payload, now)
    case DoTick(now) => var (tx, outs) := Tick(me.tx, now); (me.(tx := tx), outs)
    case DoControl(established, flags) => ControlStep(me, established, flags)
    case DoReceive(p, now, gate) => OnSegment(me, p.wire, now, gate)
  }

  ghost predicate Init(w: World) {
    && w.a == InitialConn(w.a.cfg) && w.b == InitialConn(w.b.cfg) && w.ab == w.ba == {}
    && w.a.cfg.irs == w.b.cfg.iss && w.b.cfg.irs == w.a.cfg.iss
  }

  ghost predicate ActsA(w: World, w': World, action: Action) {
    && Congestion.Bounded(w.a.tx.window) && Enabled(w.a, w.b, w.ba, action)
    && var (me, outs) := Act(w.a, action); w' == w.(a := me, ab := w.ab + FreshPackets(me, outs))
  }

  ghost predicate ActsB(w: World, w': World, action: Action) {
    && Congestion.Bounded(w.b.tx.window) && Enabled(w.b, w.a, w.ab, action)
    && var (me, outs) := Act(w.b, action); w' == w.(b := me, ba := w.ba + FreshPackets(me, outs))
  }

  ghost predicate Next(w: World, w': World) {
    exists action :: ActsA(w, w', action) || ActsB(w, w', action)
  }

  lemma InitInv(w: World)
    requires Init(w)
    ensures Inv(w)
  {
    InitialSenderInv(w.a.cfg);
    InitialSenderInv(w.b.cfg);
    InitialReceiverInv(w.a.cfg, MAXIMUM_FLIGHT);
    InitialReceiverInv(w.b.cfg, MAXIMUM_FLIGHT);
  }

  // ---- What an endpoint transmits ----

  /** The header an endpoint makes is valid, and is what a receiver parses. */
  lemma HeaderIsCarried(c: Conn, flags: u8, payload: seq<u8>)
    requires Canonical(c.rx.ranges) && flags <= KNOWN_FLAGS
    ensures var h := MakeHeader(c, flags);
            && Validate(h) == Wire.Ok && Carries(Serialized(h) + payload, h, payload)
            && Acknowledges(c.rx.ranges.ack, Nearest(c.rx.ranges.runs), h)
  {
    HeaderIsValid(c, flags);
    SerializedCarries(MakeHeader(c, flags), payload);
  }

  lemma HeaderIsValid(c: Conn, flags: u8)
    requires Canonical(c.rx.ranges) && flags <= KNOWN_FLAGS
    ensures var h := MakeHeader(c, flags);
            && Validate(h) == Wire.Ok && h == h.(sacks := Padded(h.sacks[..h.sackCount]))
            && Acknowledges(c.rx.ranges.ack, Nearest(c.rx.ranges.runs), h)
  {
    var h := MakeHeader(c, flags);
    var runs := Nearest(c.rx.ranges.runs);
    forall i | 0 <= i < h.sackCount ensures h.sacks[i] == WrapRun(runs[i]) && h.sacks[i].start != h.sacks[i].end {
      WrapInjective(runs[i].lo, runs[i].hi);
    }
    assert h.sacks[..h.sackCount] == WrapRuns(runs);
  }

  lemma SerializedCarries(h: TransportHeader, payload: seq<u8>)
    requires Validate(h) == Wire.Ok && h == h.(sacks := Padded(h.sacks[..h.sackCount]))
    ensures Carries(Serialized(h) + payload, h, payload)
  {
    ParseOfSerialized(h, payload);
    var wire, n := Serialized(h) + payload, |Serialized(h)|;
    assert Parse(wire) == Parsed(h, n) && payload == wire[n..];
  }

  /** A fresh packet is a true acknowledgement. */
  lemma FreshAckOk(irs: u32, chunks: Chunks, cfg: Config, rx: Receiver, p: Packet, h: TransportHeader, payload: seq<u8>)
    requires ReceiverInv(cfg, irs, chunks, MAXIMUM_FLIGHT, rx)
    requires p.meta.acked == |rx.delivered| && p.meta.runs == Nearest(rx.ranges.runs)
    requires Carries(p.wire, h, payload) && Acknowledges(rx.ranges.ack, p.meta.runs, h)
    ensures AckOk(irs, chunks, rx, p)
  {
    forall i, x | 0 <= i < |p.meta.runs| && p.meta.runs[i].lo <= x < p.meta.runs[i].hi ensures Has(rx.ranges, x) {
      RunIn(rx.ranges.runs, i, x);
    }
  }

  // ---- The receiving side of a direction ----

  /** Receiving more keeps every acknowledgement true. */
  lemma ReceiverMoves(iss: u32, tx: Sender, cfg: Config, rx: Receiver, rx': Receiver, data: set<Packet>, acks: set<Packet>)
    requires Linked(iss, tx, cfg, rx, data, acks)
    requires ReceiverInv(cfg, iss, tx.sent, MAXIMUM_FLIGHT, rx')
    requires rx.delivered <= rx'.delivered && Grows(rx.ranges, rx'.ranges)
    ensures Linked(iss, tx, cfg, rx', data, acks)
  {
    forall p | p in acks ensures AckOk(iss, tx.sent, rx', p) {
      assert AckOk(iss, tx.sent, rx, p);
    }
  }

  /** The delivery point lies in no run reported so far: the byte there is still missing. */
  lemma OldReportsMissAck(iss: u32, chunks: Chunks, cfg: Config, rx: Receiver, p: Packet)
    requires ReceiverInv(cfg, iss, chunks, MAXIMUM_FLIGHT, rx) && AckOk(iss, chunks, rx, p)
    ensures !Reports(p.meta.runs, iss + Off(chunks, |rx.delivered|))
  {
    AckIsFirstMissing(rx.ranges);
  }

  lemma OldReportsMiss(iss: u32, chunks: Chunks, cfg: Config, rx: Receiver, acks: set<Packet>)
    requires ReceiverInv(cfg, iss, chunks, MAXIMUM_FLIGHT, rx) && AllAcks(iss, chunks, rx, acks)
    ensures Missed(iss, chunks, |rx.delivered|, acks)
  {
    forall p | p in acks ensures !Reports(p.meta.runs, iss + Off(chunks, |rx.delivered|)) {
      OldReportsMissAck(iss, chunks, cfg, rx, p);
    }
  }

  /** A true acknowledgement reports nothing at or below what it acknowledges. */
  lemma ReportsAreAbove(iss: u32, chunks: Chunks, rx: Receiver, p: Packet, k: nat)
    requires AckOk(iss, chunks, rx, p) && k <= p.meta.acked
    ensures !Reports(p.meta.runs, iss + Off(chunks, k))
  {
    OffMonotone(chunks, k, p.meta.acked);
  }

  /** Fresh acknowledgements miss what lies at or below the delivery point, as all the others do. */
  lemma MissedByAll(iss: u32, chunks: Chunks, rx: Receiver, k: nat, acks: set<Packet>, more: set<Packet>)
    requires Missed(iss, chunks, k, acks) && k <= |rx.delivered|
    requires forall p :: p in more ==> AckOk(iss, chunks, rx, p) && p.meta.acked == |rx.delivered|
    ensures Missed(iss, chunks, k, acks + more)
  {
    hide AckOk, Reports, Off;
    forall p | p in more && k <= |chunks| ensures !Reports(p.meta.runs, iss + Off(chunks, k)) {
      ReportsAreAbove(iss, chunks, rx, p, k);
    }
  }

  lemma EmissionMisses(iss: u32, tx: Sender, cfg: Config, rx: Receiver, data: set<Packet>, acks: set<Packet>, more: set<Packet>)
    requires Linked(iss, tx, cfg, rx, data, acks)
    requires forall p :: p in more ==> AckOk(iss, tx.sent, rx, p) && p.meta.acked == |rx.delivered|
    ensures AcksMiss(iss, tx.sent, First(tx), acks + more)
  {
    hide ReceiverInv, AllData, Scoreboard, Copies, Missed;
    OldReportsMiss(iss, tx.sent, cfg, rx, acks);
    MissedByAll(iss, tx.sent, rx, First(tx), acks, more);
    forall q | q in acks + more ensures Missed(iss, tx.sent, q.meta.acked, acks + more) {
      assert AckOk(iss, tx.sent, rx, q);
      MissedByAll(iss, tx.sent, rx, q.meta.acked, acks, more);
    }
  }

  lemma MoreReports(iss: u32, chunks: Chunks, first: nat, queue: seq<Pending<seq<u8>>>, acks: set<Packet>, more: set<Packet>)
    requires Scoreboard(iss, chunks, first, queue, acks)
    ensures Scoreboard(iss, chunks, first, queue, acks + more)
  {
    forall i | 0 <= i < |queue| && queue[i].sacked ensures Reported(iss, chunks, first + i, acks + more) {
      assert Reported(iss, chunks, first + i, acks);
    }
  }

  /** Transmitting acknowledgements of the present state. */
  lemma EmissionKeepsDir(iss: u32, tx: Sender, cfg: Config, rx: Receiver, data: set<Packet>, acks: set<Packet>, more: set<Packet>)
    requires Dir(iss, tx, cfg, rx, data, acks)
    requires forall p :: p in more ==> AckOk(iss, tx.sent, rx, p) && p.meta.acked == |rx.delivered|
    ensures Dir(iss, tx, cfg, rx, data, acks + more)
  {
    EmissionMisses(iss, tx, cfg, rx, data, acks, more);
    MoreReports(iss, tx.sent, First(tx), tx.queue, acks, more);
    assert AllAcks(iss, tx.sent, rx, acks + more);
  }

  // ---- The sending side: accepting a payload ----

  lemma DataOfLonger(iss: u32, chunks: Chunks, longer: Chunks, p: Packet)
    requires chunks <= longer && DataOk(iss, chunks, p)
    ensures DataOk(iss, longer, p)
  {
    if p.meta.index < |chunks| {
      OffOfPrefix(chunks, longer, p.meta.index);
    }
  }

  lemma AckOfLonger(iss: u32, chunks: Chunks, longer: Chunks, rx: Receiver, p: Packet)
    requires chunks <= longer && AckOk(iss, chunks, rx, p)
    ensures AckOk(iss, longer, rx, p)
  {
    OffOfPrefix(chunks, longer, p.meta.acked);
  }

  lemma ReportedOfLonger(iss: u32, chunks: Chunks, longer: Chunks, k: nat, acks: set<Packet>)
    requires chunks <= longer && Reported(iss, chunks, k, acks)
    ensures Reported(iss, longer, k, acks)
  {
    OffOfPrefix(chunks, longer, k);
    OffOfPrefix(chunks, longer, k + 1);
  }

  lemma MissesOfLonger(iss: u32, chunks: Chunks, longer: Chunks, first: nat, rx: Receiver, acks: set<Packet>)
    requires chunks <= longer && first <= |chunks| && AllAcks(iss, chunks, rx, acks) && AcksMiss(iss, chunks, first, acks)
    ensures AcksMiss(iss, longer, first, acks)
  {
    OffOfPrefix(chunks, longer, first);
    forall q | q in acks ensures Missed(iss, longer, q.meta.acked, acks) {
      assert AckOk(iss, chunks, rx, q) && Missed(iss, chunks, q.meta.acked, acks);
      OffOfPrefix(chunks, longer, q.meta.acked);
    }
  }

  /** Packets and marks of a stream stay right when the stream grows. */
  lemma NetworkOfLonger(iss: u32, tx: Sender, cfg: Config, rx: Receiver, data: set<Packet>, acks: set<Packet>, longer: Chunks)
    requires Linked(iss, tx, cfg, rx, data, acks) && tx.sent <= longer
    ensures AllData(iss, longer, data) && AllAcks(iss, longer, rx, acks)
    ensures AcksMiss(iss, longer, First(tx), acks) && Scoreboard(iss, longer, First(tx), tx.queue, acks)
  {
    forall p | p in data ensures DataOk(iss, longer, p) {
      DataOfLonger(iss, tx.sent, longer, p);
    }
    forall p | p in acks ensures AckOk(iss, longer, rx, p) {
      AckOfLonger(iss, tx.sent, longer, rx, p);
    }
    MissesOfLonger(iss, tx.sent, longer, First(tx), rx, acks);
    forall i | 0 <= i < |tx.queue| && tx.queue[i].sacked ensures Reported(iss, longer, First(tx) + i, acks) {
      ReportedOfLonger(iss, tx.sent, longer, First(tx) + i, acks);
    }
  }

  lemma NewCopy(queue: seq<Pending<seq<u8>>>, data: set<Packet>, entry: Pending<seq<u8>>, p: Packet)
    requires Copies(queue, data) && entry.buffer == p.wire
    ensures Copies(queue + [entry], data + {p})
  {
    forall i | 0 <= i < |queue| + 1 ensures OnNetwork((queue + [entry])[i].buffer, data + {p}) {
      if i < |queue| {
        assert OnNetwork(queue[i].buffer, data);
        var q :| q in data && q.wire == queue[i].buffer;
        assert q in data + {p};
      } else {
        assert p in data + {p};
      }
    }
  }

  lemma SendKeepsLinks(
    iss: u32, tx: Sender, cfg: Config, rx: Receiver, data: set<Packet>, acks: set<Packet>,
    payload: seq<u8>, now: u64, h: TransportHeader, p: Packet)
    requires Linked(iss, tx, cfg, rx, data, acks) && Tiled(iss, tx) && payload != []
    requires Carries(p.wire, h, payload) && h.sequence == tx.next && p.meta.index == |tx.sent|
    ensures Linked(iss, SentSender(tx, p.wire, payload, now), cfg, rx, data + {p}, acks)
  {
    var tx' := SentSender(tx, p.wire, payload, now);
    SendKeepsNetwork(iss, tx, cfg, rx, data, acks, payload, h, p, tx'.sent);
    NewCopy(tx.queue, data, tx'.queue[|tx.queue|], p);
    NotMarked(iss, tx'.sent, First(tx), tx.queue, tx'.queue[|tx.queue|], acks);
    assert First(tx') == First(tx);
  }

  /** A packet that carries the next chunk of the stream. */
  lemma NextChunk(iss: u32, chunks: Chunks, payload: seq<u8>, h: TransportHeader, p: Packet)
    requires Carries(p.wire, h, payload) && p.meta.index == |chunks|
    requires h.sequence == Wrap(iss + Off(chunks, |chunks|))
    ensures DataOk(iss, chunks + [payload], p)
  {
    OffOfPrefix(chunks, chunks + [payload], |chunks|);
  }

  lemma SendKeepsNetwork(
    iss: u32, tx: Sender, cfg: Config, rx: Receiver, data: set<Packet>, acks: set<Packet>,
    payload: seq<u8>, h: TransportHeader, p: Packet, longer: Chunks)
    requires Linked(iss, tx, cfg, rx, data, acks) && Tiled(iss, tx) && payload != [] && longer == tx.sent + [payload]
    requires Carries(p.wire, h, payload) && h.sequence == tx.next && p.meta.index == |tx.sent|
    ensures ReceiverInv(cfg, iss, longer, MAXIMUM_FLIGHT, rx) && Off(longer, First(tx)) == tx.bytesAcked
    ensures AllData(iss, longer, data + {p}) && AllAcks(iss, longer, rx, acks)
    ensures AcksMiss(iss, longer, First(tx), acks) && Scoreboard(iss, longer, First(tx), tx.queue, acks)
  {
    LongerStream(cfg, iss, tx.sent, longer, MAXIMUM_FLIGHT, rx);
    NetworkOfLonger(iss, tx, cfg, rx, data, acks, longer);
    OffOfPrefix(tx.sent, longer, First(tx));
    NextChunk(iss, tx.sent, payload, h, p);
  }

  lemma NotMarked(iss: u32, chunks: Chunks, first: nat, queue: seq<Pending<seq<u8>>>, entry: Pending<seq<u8>>, acks: set<Packet>)
    requires Scoreboard(iss, chunks, first, queue, acks) && !entry.sacked
    ensures Scoreboard(iss, chunks, first, queue + [entry], acks)
  {
  }

  // ---- The sending side: an acknowledgement arrives ----

  /** Received bytes are bytes that were sent. */
  lemma ReceivedWasSent(cfg: Config, iss: u32, chunks: Chunks, rx: Receiver, x: int)
    requires ReceiverInv(cfg, iss, chunks, MAXIMUM_FLIGHT, rx) && Has(rx.ranges, x)
    ensures x < iss + Off(chunks, |chunks|)
  {
    OffMonotone(chunks, |rx.delivered|, |chunks|);
    if i :| 0 <= i < |rx.slots| && SlotCovers(rx.slots[i], x) {
      var k: nat :| HoldsChunk(iss, chunks, |rx.delivered|, rx.bytesReceived + MAXIMUM_FLIGHT, rx.slots[i], k);
      OffMonotone(chunks, k + 1, |chunks|);
    }
  }

  /** How the sender's 32-bit tests read a recent acknowledgement. */
  lemma AckTests(iss: u32, tx: Sender, d: nat)
    requires Tiled(iss, tx) && d <= tx.bytesSent && tx.bytesSent - d < TWO_31
    ensures !Greater(Wrap(iss + d), tx.next)
    ensures Greater(Wrap(iss + d), tx.oldest) <==> tx.bytesAcked < d
    ensures tx.bytesAcked < d ==> Diff(Wrap(iss + d), tx.oldest) == d - tx.bytesAcked
  {
    AckTestsAt(iss + tx.bytesAcked, iss + tx.bytesSent, iss + d);
  }

  lemma AckTestsAt(acked: int, sent: int, p: int)
    requires acked <= sent <= acked + MAXIMUM_FLIGHT && p <= sent < p + TWO_31
    ensures !Greater(Wrap(p), Wrap(sent))
    ensures Greater(Wrap(p), Wrap(acked)) <==> acked < p
    ensures acked < p ==> Diff(Wrap(p), Wrap(acked)) == p - acked
  {
    LessIsOrder(sent, p);
    LessIsOrder(acked, p);
    DiffOfWraps(p, acked);
  }

  lemma RecentAckTests(iss: u32, tx: Sender, k: nat, ack: u32)
    requires Tiled(iss, tx) && k <= |tx.sent| && ack == Wrap(iss + Off(tx.sent, k))
    requires tx.bytesSent - Off(tx.sent, k) < TWO_31
    ensures !Greater(ack, tx.next)
    ensures Greater(ack, tx.oldest) <==> tx.bytesAcked < Off(tx.sent, k)
  {
    OffMonotone(tx.sent, k, |tx.sent|);
    AckTests(iss, tx, Off(tx.sent, k));
  }

  /** A cumulative acknowledgement of whole chunks leaves the queue starting at a cut. */
  lemma AckedAtCut(iss: u32, tx: Sender, k: nat)
    requires Tiled(iss, tx) && k <= |tx.sent| && tx.bytesAcked == Off(tx.sent, k)
    ensures First(tx) == k
  {
    if k < First(tx) {
      OffMonotone(tx.sent, k, First(tx));
    } else if First(tx) < k {
      OffMonotone(tx.sent, First(tx) + 1, k);
    }
  }

  /** A recent acknowledgement of k whole chunks, above the present one, moves the sender to exactly that cut. */
  lemma ProgressLands(iss: u32, tx: Sender, k: nat, ack: u32, now: u64)
    requires Tiled(iss, tx) && Congestion.Bounded(tx.window)
    requires k <= |tx.sent| && ack == Wrap(iss + Off(tx.sent, k))
    requires tx.bytesAcked < Off(tx.sent, k)
    ensures var tx' := AckProgress(tx, ack, now);
            && Tiled(iss, tx') && tx'.bytesAcked == Off(tx.sent, k) && First(tx') == k
            && k == First(tx) + AckedPrefix(tx.queue, ack)
  {
    OffMonotone(tx.sent, k, |tx.sent|);
    AckTests(iss, tx, Off(tx.sent, k));
    ProgressKeepsTiling(iss, tx, ack, now);
    AckedAtCut(iss, AckProgress(tx, ack, now), k);
  }

  lemma ProgressKeepsLinks(
    iss: u32, tx: Sender, cfg: Config, rx: Receiver, data: set<Packet>, acks: set<Packet>, p: Packet, ack: u32, now: u64)
    requires Linked(iss, tx, cfg, rx, data, acks) && Tiled(iss, tx) && Congestion.Bounded(tx.window) && p in acks
    requires p.meta.acked <= |tx.sent| && ack == Wrap(iss + Off(tx.sent, p.meta.acked))
    requires tx.bytesAcked < Off(tx.sent, p.meta.acked)
    ensures Linked(iss, AckProgress(tx, ack, now), cfg, rx, data, acks)
  {
    hide Tiled, ReceiverInv, AllData, Scoreboard, Copies, Reports, Wrap, Congestion.Bounded, ProgressWindow, ProgressTimer;
    ProgressLands(iss, tx, p.meta.acked, ack, now);
    var tx', n := AckProgress(tx, ack, now), AckedPrefix(tx.queue, ack);
    SuffixKeepsMarks(iss, tx.sent, First(tx), tx.queue, n, data, acks);
    AtAcknowledgedCut(iss, tx, tx', cfg, rx, data, acks, p, n);
  }

  /** The links at a cut that was acknowledged. */
  lemma AtAcknowledgedCut(
    iss: u32, tx: Sender, tx': Sender, cfg: Config, rx: Receiver, data: set<Packet>, acks: set<Packet>, p: Packet, n: nat)
    requires Linked(iss, tx, cfg, rx, data, acks) && p in acks && n <= |tx.queue|
    requires tx'.sent == tx.sent && tx'.queue == tx.queue[n..] && First(tx') == p.meta.acked == First(tx) + n
    requires tx'.bytesAcked == Off(tx.sent, p.meta.acked)
    requires Scoreboard(iss, tx.sent, First(tx) + n, tx.queue[n..], acks) && Copies(tx.queue[n..], data)
    ensures Linked(iss, tx', cfg, rx, data, acks)
  {
    hide ReceiverInv, AllData, Scoreboard, Copies, Reports;
    assert AckOk(iss, tx.sent, rx, p) && Missed(iss, tx.sent, p.meta.acked, acks);
  }

  /** Marks and copies of the segments that stay in the queue. */
  lemma SuffixKeepsMarks(
    iss: u32, chunks: Chunks, first: nat, queue: seq<Pending<seq<u8>>>, n: nat, data: set<Packet>, acks: set<Packet>)
    requires Scoreboard(iss, chunks, first, queue, acks) && Copies(queue, data) && n <= |queue|
    ensures Scoreboard(iss, chunks, first + n, queue[n..], acks) && Copies(queue[n..], data)
  {
    forall i | 0 <= i < |queue[n..]| && queue[n..][i].sacked ensures Reported(iss, chunks, first + n + i, acks) {
      assert queue[n..][i] == queue[n + i];
      assert Reported(iss, chunks, first + (n + i), acks);
    }
  }

  /** Where segment i of a queue that starts at a cut lies. */
  lemma TileBounds(iss: u32, tx: Sender, i: nat)
    requires Tiled(iss, tx) && tx.bytesAcked == Off(tx.sent, First(tx)) && i < |tx.queue|
    ensures Tile(iss, tx.sent, First(tx) + i, tx.queue[i])
    ensures tx.bytesAcked <= Off(tx.sent, First(tx) + i) < Off(tx.sent, First(tx) + i + 1) <= tx.bytesSent
  {
    var k := First(tx) + i;
    assert Tile(iss, tx.sent, First(tx) + i, tx.queue[i]);
    OffMonotone(tx.sent, First(tx), k);
    OffMonotone(tx.sent, k, k + 1);
    OffMonotone(tx.sent, k + 1, |tx.sent|);
  }

  /** The two 32-bit tests of the scoreboard, on a recent report: the block covers the segment. */
  lemma CoverTests(iss: u32, tx: Sender, d: nat, run: Run, i: nat)
    requires Tiled(iss, tx) && tx.bytesAcked == Off(tx.sent, First(tx)) && i < |tx.queue|
    requires tx.bytesSent - d < TWO_31 && iss + d < run.lo < run.hi <= iss + tx.bytesSent
    requires Covers(WrapRun(run), tx.queue[i])
    ensures run.lo <= iss + Off(tx.sent, First(tx) + i) && iss + Off(tx.sent, First(tx) + i + 1) <= run.hi
  {
    TileBounds(iss, tx, i);
    CoverIsContainment(run, iss + Off(tx.sent, First(tx) + i), iss + Off(tx.sent, First(tx) + i + 1), tx.queue[i]);
  }

  lemma CoverIsContainment(run: Run, start: int, end: int, q: Pending<seq<u8>>)
    requires -TWO_31 < run.lo - start < TWO_31 && -TWO_31 < run.hi - end < TWO_31
    requires q.start == Wrap(start) && q.end == Wrap(end)
    ensures Covers(WrapRun(run), q) <==> run.lo <= start && end <= run.hi
  {
    LessIsOrder(run.lo, start);
    LessIsOrder(end, run.hi);
  }

  /** What a segment is marked for has been reported. */
  lemma MarksAreReported(
    iss: u32, tx: Sender, cfg: Config, rx: Receiver, data: set<Packet>, acks: set<Packet>, p: Packet, h: TransportHeader)
    requires Linked(iss, tx, cfg, rx, data, acks) && Tiled(iss, tx) && p in acks && p.meta.acked <= |tx.sent|
    requires tx.bytesSent - Off(tx.sent, p.meta.acked) < TWO_31
    requires Acknowledges(iss + Off(tx.sent, p.meta.acked), p.meta.runs, h)
    ensures Scoreboard(iss, tx.sent, First(tx), Sacked(tx.queue, h.sacks[..h.sackCount]), acks)
  {
    var blocks := h.sacks[..h.sackCount];
    var queue := Sacked(tx.queue, blocks);
    assert AckOk(iss, tx.sent, rx, p);
    forall i | 0 <= i < |queue| && queue[i].sacked ensures Reported(iss, tx.sent, First(tx) + i, acks) {
      if !tx.queue[i].sacked {
        var j :| 0 <= j < |blocks| && blocks[j].start != blocks[j].end && Covers(blocks[j], tx.queue[i]);
        var run := p.meta.runs[j];
        assert Has(rx.ranges, run.hi - 1);
        ReceivedWasSent(cfg, iss, tx.sent, rx, run.hi - 1);
        CoverTests(iss, tx, Off(tx.sent, p.meta.acked), run, i);
      }
    }
  }

  /** Resending changes neither marks nor bytes. */
  lemma ResendKeepsMarks(
    iss: u32, chunks: Chunks, first: nat, queue: seq<Pending<seq<u8>>>, n: nat, now: u64, data: set<Packet>, acks: set<Packet>)
    requires Scoreboard(iss, chunks, first, queue, acks) && Copies(queue, data) && n < |queue|
    ensures var queue' := queue[n := Resent(queue[n], now)];
            Scoreboard(iss, chunks, first, queue', acks) && Copies(queue', data)
  {
    var queue' := queue[n := Resent(queue[n], now)];
    forall i | 0 <= i < |queue'| ensures OnNetwork(queue'[i].buffer, data) {
      assert OnNetwork(queue[i].buffer, data);
    }
    forall i | 0 <= i < |queue'| && queue'[i].sacked ensures Reported(iss, chunks, first + i, acks) {
      assert queue[i].sacked;
    }
  }

  lemma SackedKeepsCopies(queue: seq<Pending<seq<u8>>>, blocks: seq<SackBlock>, data: set<Packet>)
    requires Copies(queue, data)
    ensures Copies(Sacked(queue, blocks), data)
  {
    forall i | 0 <= i < |queue| ensures OnNetwork(Sacked(queue, blocks)[i].buffer, data) {
      assert OnNetwork(queue[i].buffer, data);
    }
  }

  /** Only retransmissions of what the network has already carried. */
  ghost predicate OnlyCopies(outs: seq<Out>, data: set<Packet>) {
    forall i :: 0 <= i < |outs| ==> !IsFresh(outs[i].reason) && OnNetwork(outs[i].bytes, data)
  }

  /** The scoreboard step, and the retransmission it may cause. */
  lemma ScoreboardKeepsLinks(
    iss: u32, tx: Sender, cfg: Config, rx: Receiver, data: set<Packet>, acks: set<Packet>, p: Packet, h: TransportHeader, now: u64)
    requires Linked(iss, tx, cfg, rx, data, acks) && Tiled(iss, tx) && Congestion.Bounded(tx.window)
    requires p in acks && p.meta.acked <= |tx.sent|
    requires tx.bytesSent - Off(tx.sent, p.meta.acked) < TWO_31
    requires Acknowledges(iss + Off(tx.sent, p.meta.acked), p.meta.runs, h)
    ensures var (tx', outs) := AckScoreboard(tx, h.cumulativeAck, h.sacks[..h.sackCount], now);
            && Linked(iss, tx', cfg, rx, data, acks) && tx'.sent == tx.sent
            && OnlyCopies(outs, data)
  {
    var blocks := h.sacks[..h.sackCount];
    MarksAreReported(iss, tx, cfg, rx, data, acks, p, h);
    SackedKeepsCopies(tx.queue, blocks, data);
    ScoreboardQueue(iss, tx, data, acks, h.cumulativeAck, blocks, now);
    OtherQueue(iss, tx, AckScoreboard(tx, h.cumulativeAck, blocks, now).0, cfg, rx, data, acks);
  }

  lemma OtherQueue(iss: u32, tx: Sender, tx': Sender, cfg: Config, rx: Receiver, data: set<Packet>, acks: set<Packet>)
    requires Linked(iss, tx, cfg, rx, data, acks) && tx'.sent == tx.sent && tx'.bytesAcked == tx.bytesAcked
    requires |tx'.queue| == |tx.queue| && Scoreboard(iss, tx.sent, First(tx), tx'.queue, acks) && Copies(tx'.queue, data)
    ensures Linked(iss, tx', cfg, rx, data, acks)
  {
  }

  /** The queue after the scoreboard step, and what is transmitted. */
  lemma ScoreboardQueue(iss: u32, tx: Sender, data: set<Packet>, acks: set<Packet>, ack: u32, blocks: seq<SackBlock>, now: u64)
    requires Congestion.Bounded(tx.window)
    requires Scoreboard(iss, tx.sent, First(tx), Sacked(tx.queue, blocks), acks) && Copies(Sacked(tx.queue, blocks), data)
    ensures var (tx', outs) := AckScoreboard(tx, ack, blocks, now);
            && Scoreboard(iss, tx.sent, First(tx), tx'.queue, acks) && Copies(tx'.queue, data) && |tx'.queue| == |tx.queue|
            && tx'.sent == tx.sent && tx'.bytesAcked == tx.bytesAcked && OnlyCopies(outs, data)
  {
    var queue := Sacked(tx.queue, blocks);
    var d := FastRetransmit.Acked(tx.fast, queue, ack, now);
    if d.resend < |queue| {
      ResendKeepsMarks(iss, tx.sent, First(tx), queue, d.resend, now, data, acks);
    }
  }

  lemma ProcessAckCases(tx: Sender, h: TransportHeader, now: u64)
    requires Congestion.Bounded(tx.window) && h.sackCount <= MAXIMUM_SACK_BLOCKS && !Greater(h.cumulativeAck, tx.next)
    ensures var tx' := tx.(peerWindow := h.window);
            ProcessAck(tx, h, now)
            == AckScoreboard(if Greater(h.cumulativeAck, tx.oldest) then AckProgress(tx', h.cumulativeAck, now) else tx',
                             h.cumulativeAck, h.sacks[..h.sackCount], now)
  {
  }

  /** The cumulative part of a recent acknowledgement. */
  lemma CumulativePart(
    iss: u32, tx: Sender, cfg: Config, rx: Receiver, data: set<Packet>, acks: set<Packet>, p: Packet, ack: u32, now: u64)
    returns (tx': Sender)
    requires Linked(iss, tx, cfg, rx, data, acks) && Tiled(iss, tx) && Congestion.Bounded(tx.window)
    requires p in acks && p.meta.acked <= |tx.sent| && ack == Wrap(iss + Off(tx.sent, p.meta.acked))
    requires Greater(ack, tx.oldest) <==> tx.bytesAcked < Off(tx.sent, p.meta.acked)
    ensures tx' == if Greater(ack, tx.oldest) then AckProgress(tx, ack, now) else tx
    ensures Linked(iss, tx', cfg, rx, data, acks) && Tiled(iss, tx') && Congestion.Bounded(tx'.window)
    ensures tx'.sent == tx.sent && tx'.bytesSent == tx.bytesSent
  {
    tx' := tx;
    if Greater(ack, tx.oldest) {
      ProgressLands(iss, tx, p.meta.acked, ack, now);
      ProgressKeepsLinks(iss, tx, cfg, rx, data, acks, p, ack, now);
      tx' := AckProgress(tx, ack, now);
    }
  }

  lemma WindowKeepsLinks(iss: u32, tx: Sender, cfg: Config, rx: Receiver, data: set<Packet>, acks: set<Packet>, window: u16)
    requires Linked(iss, tx, cfg, rx, data, acks) && Tiled(iss, tx)
    ensures Linked(iss, tx.(peerWindow := window), cfg, rx, data, acks) && Tiled(iss, tx.(peerWindow := window))
  {
    hide ReceiverInv, AllData, AllAcks, AcksMiss, Scoreboard, Copies, Tile;
    SameTiles(iss, tx, tx.(peerWindow := window));
  }

  lemma ProcessAckKeepsLinks(
    iss: u32, tx: Sender, cfg: Config, rx: Receiver, data: set<Packet>, acks: set<Packet>, p: Packet, h: TransportHeader, now: u64)
    requires Linked(iss, tx, cfg, rx, data, acks) && Tiled(iss, tx) && Congestion.Bounded(tx.window)
    requires p in acks && p.meta.acked <= |tx.sent|
    requires tx.bytesSent - Off(tx.sent, p.meta.acked) < TWO_31
    requires Acknowledges(iss + Off(tx.sent, p.meta.acked), p.meta.runs, h)
    requires !Greater(h.cumulativeAck, tx.next)
    requires Greater(h.cumulativeAck, tx.oldest) <==> tx.bytesAcked < Off(tx.sent, p.meta.acked)
    ensures var (tx', outs) := ProcessAck(tx, h, now);
            && Linked(iss, tx', cfg, rx, data, acks) && tx'.sent == tx.sent
            && OnlyCopies(outs, data)
  {
    hide Linked, Tiled, OnlyCopies, AckScoreboard, AckProgress, ProcessAck, Greater, Wrap, Congestion.Bounded;
    ProcessAckCases(tx, h, now);
    WindowKeepsLinks(iss, tx, cfg, rx, data, acks, h.window);
    var tx' := CumulativePart(iss, tx.(peerWindow := h.window), cfg, rx, data, acks, p, h.cumulativeAck, now);
    ScoreboardKeepsLinks(iss, tx', cfg, rx, data, acks, p, h, now);
  }

  lemma AckKeepsDir(
    iss: u32, tx: Sender, cfg: Config, rx: Receiver, data: set<Packet>, acks: set<Packet>, p: Packet, h: TransportHeader, now: u64)
    requires Dir(iss, tx, cfg, rx, data, acks) && p in acks && p.meta.acked <= |tx.sent|
    requires Acknowledges(iss + Off(tx.sent, p.meta.acked), p.meta.runs, h) && AckReadable(tx, p.meta.acked, h)
    ensures var (tx', outs) := ProcessAck(tx, h, now);
            && Dir(iss, tx', cfg, rx, data, acks) && tx'.sent == tx.sent
            && OnlyCopies(outs, data)
  {
    hide Linked, OnlyCopies, ProcessAck, Greater, Wrap, Inert, Tiled, Epochs;
    AckKeepsSender(iss, tx, h, now);
    if tx.bytesSent - Off(tx.sent, p.meta.acked) < TWO_31 {
      RecentAckTests(iss, tx, p.meta.acked, h.cumulativeAck);
      ProcessAckKeepsLinks(iss, tx, cfg, rx, data, acks, p, h, now);
    } else {
      InertKeepsLinks(iss, tx, cfg, rx, data, acks, h, now);
    }
  }

  /** An acknowledgement that does nothing may be as old as it likes. */
  lemma InertKeepsLinks(
    iss: u32, tx: Sender, cfg: Config, rx: Receiver, data: set<Packet>, acks: set<Packet>, h: TransportHeader, now: u64)
    requires Linked(iss, tx, cfg, rx, data, acks) && Tiled(iss, tx) && Congestion.Bounded(tx.window)
    requires h.sackCount <= MAXIMUM_SACK_BLOCKS && Inert(tx, h)
    ensures var (tx', outs) := ProcessAck(tx, h, now);
            && Linked(iss, tx', cfg, rx, data, acks) && tx'.sent == tx.sent
            && OnlyCopies(outs, data)
  {
    WindowKeepsLinks(iss, tx, cfg, rx, data, acks, h.window);
    if !Greater(h.cumulativeAck, tx.next) {
      ProcessAckCases(tx, h, now);
      var tx', blocks := tx.(peerWindow := h.window), h.sacks[..h.sackCount];
      assert Sacked(tx.queue, blocks) == tx.queue;
      ScoreboardQueue(iss, tx', data, acks, h.cumulativeAck, blocks, now);
      OtherQueue(iss, tx', AckScoreboard(tx', h.cumulativeAck, blocks, now).0, cfg, rx, data, acks);
    }
  }

  /** An acknowledgement that is 2^31 to 2^32 bytes old, or any number of times 2^32 more, is turned away. */
  lemma OldAckIsInert(iss: u32, tx: Sender, k: nat, h: TransportHeader)
    requires Tiled(iss, tx) && k <= |tx.sent| && h.cumulativeAck == Wrap(iss + Off(tx.sent, k))
    requires h.sackCount <= MAXIMUM_SACK_BLOCKS && (tx.bytesSent - Off(tx.sent, k)) % TWO_32 >= TWO_31
    ensures Inert(tx, h)
  {
    DiffOfWraps(iss + tx.bytesSent, iss + Off(tx.sent, k));
  }

  // ---- Every step keeps both directions ----

  /** The acknowledgement in a packet that was made in the present state. */
  lemma FreshPacketAcks(me: Conn, peer: Conn, p: Packet, flags: u8, payload: seq<u8>)
    requires ReceiverInv(me.cfg, peer.cfg.iss, peer.tx.sent, MAXIMUM_FLIGHT, me.rx)
    requires Validate(MakeHeader(me, flags)) == Wire.Ok && p.wire == Serialized(MakeHeader(me, flags)) + payload
    requires p.meta.acked == |me.rx.delivered| && p.meta.runs == Nearest(me.rx.ranges.runs)
    ensures AckOk(peer.cfg.iss, peer.tx.sent, me.rx, p)
  {
    HeaderIsCarried(me, flags, payload);
    FreshAckOk(peer.cfg.iss, peer.tx.sent, me.cfg, me.rx, p, MakeHeader(me, flags), payload);
  }

  lemma SendKeepsPair(me: Conn, peer: Conn, outgoing: set<Packet>, incoming: set<Packet>, payload: seq<u8>, now: u64, p: Packet)
    requires Pair(me, peer, outgoing, incoming) && SendOutcome(me, payload) == Sent
    requires p == Packet(Serialized(MakeHeader(me, FLAG_ACK)) + payload,
                         Meta(|me.tx.sent|, |me.rx.delivered|, Nearest(me.rx.ranges.runs)))
    ensures Pair(Send(me, payload, now).0, peer, outgoing + {p}, incoming)
  {
    hide Linked, SenderInv, ReceiverInv, Serialized, Tiled, Validate, Carries, Acknowledges, Padded, WrapRuns, AdvertisedWindow, Fits;
    PairIs(me, peer, outgoing, incoming);
    assert Dir(peer.cfg.iss, peer.tx, me.cfg, me.rx, incoming, outgoing + {p}) by {
      HeaderIsCarried(me, FLAG_ACK, payload);
      FreshPacketAcks(me, peer, p, FLAG_ACK, payload);
      EmissionKeepsDir(peer.cfg.iss, peer.tx, me.cfg, me.rx, incoming, outgoing, {p});
    }
    SendKeepsSender(me, payload, now);
    HeaderIsCarried(me, FLAG_ACK, payload);
    SendKeepsLinks(me.cfg.iss, me.tx, peer.cfg, peer.rx, outgoing, incoming, payload, now, MakeHeader(me, FLAG_ACK), p);
  }

  /** A header without payload says nothing about the stream. */
  lemma HeaderKeepsPair(me: Conn, peer: Conn, outgoing: set<Packet>, incoming: set<Packet>, p: Packet, flags: u8)
    requires Pair(me, peer, outgoing, incoming)
    requires Validate(MakeHeader(me, flags)) == Wire.Ok && p.wire == Serialized(MakeHeader(me, flags))
    requires p.meta.acked == |me.rx.delivered| && p.meta.runs == Nearest(me.rx.ranges.runs)
    ensures Pair(me, peer, outgoing + {p}, incoming)
  {
    hide Serialized, SenderInv, Wrap, Parse, Acknowledges, Nearest, Padded, WrapRuns, AdvertisedWindow;
    assert p.wire == Serialized(MakeHeader(me, flags)) + [];
    HeaderIsCarried(me, flags, []);
    FreshPacketAcks(me, peer, p, flags, []);
    EmissionKeepsDir(peer.cfg.iss, peer.tx, me.cfg, me.rx, incoming, outgoing, {p});
    assert DataOk(me.cfg.iss, me.tx.sent, p);
    MorePackets(me.cfg.iss, me.tx, peer.cfg, peer.rx, outgoing, incoming, p);
  }

  lemma MorePackets(iss: u32, tx: Sender, cfg: Config, rx: Receiver, data: set<Packet>, acks: set<Packet>, p: Packet)
    requires Linked(iss, tx, cfg, rx, data, acks) && DataOk(iss, tx.sent, p)
    ensures Linked(iss, tx, cfg, rx, data + {p}, acks)
  {
    forall i | 0 <= i < |tx.queue| ensures OnNetwork(tx.queue[i].buffer, data + {p}) {
      assert OnNetwork(tx.queue[i].buffer, data);
      var q :| q in data && q.wire == tx.queue[i].buffer;
      assert q in data + {p};
    }
    assert AllData(iss, tx.sent, data + {p});
  }

  lemma EstablishedDoesNotMatter(me: Conn, peer: Conn, outgoing: set<Packet>, incoming: set<Packet>, established: bool)
    requires Pair(me, peer, outgoing, incoming)
    ensures Pair(me.(established := established), peer, outgoing, incoming)
  {
  }

  /** What each side of a pair is known to be. */
  lemma PairIs(me: Conn, peer: Conn, outgoing: set<Packet>, incoming: set<Packet>)
    requires Pair(me, peer, outgoing, incoming)
    ensures ReceiverInv(me.cfg, peer.cfg.iss, peer.tx.sent, MAXIMUM_FLIGHT, me.rx) && Canonical(me.rx.ranges)
    ensures SenderInv(me.cfg.iss, me.tx) && Tiled(me.cfg.iss, me.tx)
  {
  }

  lemma ControlKeepsPair(me: Conn, peer: Conn, outgoing: set<Packet>, incoming: set<Packet>, flags: u8)
    requires Pair(me, peer, outgoing, incoming)
    ensures Pair(me, peer, outgoing + FreshPackets(me, ControlSegment(me, flags)), incoming)
  {
    var outs := ControlSegment(me, flags);
    if flags <= KNOWN_FLAGS {
      HeaderIsCarried(me, flags, []);
      var p := FreshPacket(me, outs[0]);
      assert FreshPackets(me, outs) == {p};
      HeaderKeepsPair(me, peer, outgoing, incoming, p, flags);
    } else {
      assert outgoing + FreshPackets(me, outs) == outgoing;
    }
  }

  lemma TickKeepsDir(iss: u32, tx: Sender, cfg: Config, rx: Receiver, data: set<Packet>, acks: set<Packet>, now: u64)
    requires Dir(iss, tx, cfg, rx, data, acks)
    ensures Dir(iss, Tick(tx, now).0, cfg, rx, data, acks) && OnlyCopies(Tick(tx, now).1, data)
    ensures Tick(tx, now).0.sent == tx.sent
  {
    hide ReceiverInv, AllData, AllAcks, AcksMiss, SenderInv;
    TickKeepsSender(iss, tx, now);
    var n := LowestUnsacked(tx.queue);
    if n < |tx.queue| {
      ResendKeepsMarks(iss, tx.sent, First(tx), tx.queue, n, now, data, acks);
    }
  }

  lemma CopiesAreNotFresh(c: Conn, outs: seq<Out>, data: set<Packet>)
    requires OnlyCopies(outs, data)
    ensures FreshPackets(c, outs) == {}
  {
  }

  /** A chunk the peer has sent is in the receive window. */
  lemma SentChunkInWindow(iss: u32, tx: Sender, cfg: Config, rx: Receiver, data: set<Packet>, acks: set<Packet>, k: nat)
    requires Dir(iss, tx, cfg, rx, data, acks) && k < |tx.sent|
    requires PayloadReadable(tx.sent, rx, k)
    ensures InWindow(tx.sent, MAXIMUM_FLIGHT, rx, k)
  {
    OffMonotone(tx.sent, k + 1, |tx.sent|);
    OffMonotone(tx.sent, First(tx), |rx.delivered|);
  }

  lemma PayloadKeepsDir(
    iss: u32, tx: Sender, cfg: Config, rx: Receiver, data: set<Packet>, acks: set<Packet>, start: u32, payload: seq<u8>, k: nat)
    requires Dir(iss, tx, cfg, rx, data, acks)
    requires payload != [] ==> k < |tx.sent| && payload == tx.sent[k] && start == Wrap(iss + Off(tx.sent, k))
    requires payload != [] ==> PayloadReadable(tx.sent, rx, k)
    ensures Dir(iss, tx, cfg, ProcessPayload(cfg, rx, start, payload), data, acks)
  {
    if payload != [] {
      SentChunkInWindow(iss, tx, cfg, rx, data, acks, k);
      ChunkKeepsLinks(iss, tx, cfg, rx, data, acks, start, k);
    } else {
      assert ProcessPayload(cfg, rx, start, payload) == rx;
    }
  }

  lemma ChunkKeepsLinks(iss: u32, tx: Sender, cfg: Config, rx: Receiver, data: set<Packet>, acks: set<Packet>, start: u32, k: nat)
    requires Linked(iss, tx, cfg, rx, data, acks) && InWindow(tx.sent, MAXIMUM_FLIGHT, rx, k)
    requires start == Wrap(iss + Off(tx.sent, k))
    ensures Linked(iss, tx, cfg, ProcessPayload(cfg, rx, start, tx.sent[k]), data, acks)
  {
    ReceiverAgrees(cfg, iss, tx.sent, MAXIMUM_FLIGHT, rx, k, start);
    ReceiverMoves(iss, tx, cfg, rx, ProcessPayload(cfg, rx, start, tx.sent[k]), data, acks);
  }

  /** What an endpoint reads in any packet of its peer. */
  lemma PacketMeans(me: Conn, peer: Conn, outgoing: set<Packet>, incoming: set<Packet>, p: Packet)
    returns (h: TransportHeader, n: nat)
    requires Pair(me, peer, outgoing, incoming) && p in incoming
    ensures Parse(p.wire) == Parsed(h, n) && n <= |p.wire|
    ensures p.meta.acked <= |me.tx.sent|
    ensures Acknowledges(me.cfg.iss + Off(me.tx.sent, p.meta.acked), p.meta.runs, h)
    ensures p.wire[n..] != [] ==>
              && p.meta.index < |peer.tx.sent| && p.wire[n..] == peer.tx.sent[p.meta.index]
              && h.sequence == Wrap(peer.cfg.iss + Off(peer.tx.sent, p.meta.index))
  {
    assert DataOk(peer.cfg.iss, peer.tx.sent, p);
    assert AckOk(me.cfg.iss, me.tx.sent, peer.rx, p);
    h, n := Parse(p.wire).header, Parse(p.wire).consumed;
  }

  /** The acknowledgement part of a received segment. */
  lemma ReceiveAck(me: Conn, peer: Conn, outgoing: set<Packet>, incoming: set<Packet>, p: Packet, now: u64, gate: Gate, h: TransportHeader)
    returns (tx: Sender, outs: seq<Out>)
    requires Pair(me, peer, outgoing, incoming) && p in incoming && p.meta.acked <= |me.tx.sent|
    requires Acknowledges(me.cfg.iss + Off(me.tx.sent, p.meta.acked), p.meta.runs, h)
    requires HasAck(h.flags) ==> AckReadable(me.tx, p.meta.acked, h)
    ensures Pair(me.(tx := tx, established := gate.established), peer, outgoing, incoming) && OnlyCopies(outs, outgoing)
    ensures (tx, outs) == if HasAck(h.flags) then ProcessAck(me.tx, h, now) else (me.tx, [])
  {
    tx, outs := me.tx, [];
    if HasAck(h.flags) {
      tx, outs := ProcessAck(me.tx, h, now).0, ProcessAck(me.tx, h, now).1;
      AckKeepsDir(me.cfg.iss, me.tx, peer.cfg, peer.rx, outgoing, incoming, p, h, now);
    }
  }

  /** A payload changes the receiving half only, and is answered from the new state unless there is none or it fits no buffer. */
  lemma PayloadAnswers(me: Conn, start: u32, payload: seq<u8>)
    ensures var (me', outs) := OnPayload(me, start, payload);
            && me' == me.(rx := ProcessPayload(me.cfg, me.rx, start, payload))
            && outs in {[], Reply(me')} && (0 < |payload| <= 2048 ==> outs == Reply(me'))
  {
  }

  lemma AnswerKeepsPair(me: Conn, peer: Conn, outgoing: set<Packet>, incoming: set<Packet>, rx: Receiver, outs: seq<Out>)
    requires Pair(me, peer, outgoing, incoming) && Dir(peer.cfg.iss, peer.tx, me.cfg, rx, incoming, outgoing)
    requires outs in {[], Reply(me.(rx := rx))}
    ensures Pair(me.(rx := rx), peer, outgoing + FreshPackets(me.(rx := rx), outs), incoming)
  {
    var me' := me.(rx := rx);
    assert Pair(me', peer, outgoing, incoming);
    if outs == [] {
      assert outgoing + FreshPackets(me', []) == outgoing;
    } else {
      ControlKeepsPair(me', peer, outgoing, incoming, FLAG_ACK);
    }
  }

  /** The payload part of a received segment, and the reply to it. */
  lemma ReceivePayload(me: Conn, peer: Conn, outgoing: set<Packet>, incoming: set<Packet>, start: u32, payload: seq<u8>, k: nat)
    returns (me': Conn, outs: seq<Out>)
    requires Pair(me, peer, outgoing, incoming)
    requires payload != [] ==>
               && k < |peer.tx.sent| && payload == peer.tx.sent[k] && start == Wrap(peer.cfg.iss + Off(peer.tx.sent, k))
               && PayloadReadable(peer.tx.sent, me.rx, k)
    ensures (me', outs) == OnPayload(me, start, payload)
    ensures Pair(me', peer, outgoing + FreshPackets(me', outs), incoming)
  {
    hide Linked, SenderInv, Wrap, ProcessPayload;
    PayloadAnswers(me, start, payload);
    me', outs := OnPayload(me, start, payload).0, OnPayload(me, start, payload).1;
    PayloadKeepsDir(peer.cfg.iss, peer.tx, me.cfg, me.rx, incoming, outgoing, start, payload, k);
    AnswerKeepsPair(me, peer, outgoing, incoming, me'.rx, outs);
  }

  lemma FreshOfBoth(c: Conn, copies: seq<Out>, outs: seq<Out>, data: set<Packet>)
    requires OnlyCopies(copies, data)
    ensures FreshPackets(c, copies + outs) == FreshPackets(c, outs)
  {
    var both := copies + outs;
    forall p ensures p in FreshPackets(c, both) <==> p in FreshPackets(c, outs) {
      if p in FreshPackets(c, both) {
        var i :| 0 <= i < |both| && IsFresh(both[i].reason) && p == FreshPacket(c, both[i]);
        assert both[i] == outs[i - |copies|];
      }
      if p in FreshPackets(c, outs) {
        var i :| 0 <= i < |outs| && IsFresh(outs[i].reason) && p == FreshPacket(c, outs[i]);
        assert both[i + |copies|] == outs[i];
      }
    }
  }

  /** A segment whose payload is looked at. */
  lemma ReceiveOpen(
    me: Conn, peer: Conn, outgoing: set<Packet>, incoming: set<Packet>, p: Packet, now: u64, gate: Gate,
    h: TransportHeader, n: nat, tx: Sender, copies: seq<Out>)
    returns (me': Conn, outs: seq<Out>)
    requires Congestion.Bounded(me.tx.window) && gate.accepted && gate.established
    requires Parse(p.wire) == Parsed(h, n) && n <= |p.wire| && (n < |p.wire| ==> PayloadReadable(peer.tx.sent, me.rx, p.meta.index))
    requires (tx, copies) == if HasAck(h.flags) then ProcessAck(me.tx, h, now) else (me.tx, [])
    requires Pair(me.(tx := tx, established := gate.established), peer, outgoing, incoming) && OnlyCopies(copies, outgoing)
    requires p.wire[n..] != [] ==>
              && p.meta.index < |peer.tx.sent| && p.wire[n..] == peer.tx.sent[p.meta.index]
              && h.sequence == Wrap(peer.cfg.iss + Off(peer.tx.sent, p.meta.index))
    ensures (me', outs) == OnSegment(me, p.wire, now, gate)
    ensures Pair(me', peer, outgoing + FreshPackets(me', outs), incoming)
  {
    var mid := me.(tx := tx, established := gate.established);
    var replies;
    me', replies := ReceivePayload(mid, peer, outgoing, incoming, h.sequence, p.wire[n..], p.meta.index);
    FreshOfBoth(me', copies, replies, outgoing);
    outs := copies + replies;
  }

  lemma ReceiveKeepsPair(me: Conn, peer: Conn, outgoing: set<Packet>, incoming: set<Packet>, p: Packet, now: u64, gate: Gate)
    requires Pair(me, peer, outgoing, incoming) && p in incoming && Recent(me, peer, p)
    ensures var (me', outs) := OnSegment(me, p.wire, now, gate);
            Pair(me', peer, outgoing + FreshPackets(me', outs), incoming)
  {
    var h, n := PacketMeans(me, peer, outgoing, incoming, p);
    var tx, copies := ReceiveAck(me, peer, outgoing, incoming, p, now, gate, h);
    if gate.accepted && gate.established {
      var me', outs := ReceiveOpen(me, peer, outgoing, incoming, p, now, gate, h, n, tx, copies);
    } else {
      var me' := me.(tx := tx, established := gate.established);
      CopiesAreNotFresh(me', copies, outgoing);
      assert outgoing + FreshPackets(me', copies) == outgoing;
    }
  }

  /** The one-step theorem: whatever an endpoint does, both directions stay right. */
  lemma ActSendKeepsPair(me: Conn, peer: Conn, outgoing: set<Packet>, incoming: set<Packet>, payload: seq<u8>, now: u64)
    requires Pair(me, peer, outgoing, incoming)
    ensures var (me', outs) := Send(me, payload, now);
            Pair(me', peer, outgoing + FreshPackets(me', outs), incoming)
  {
    var (me', outs) := Send(me, payload, now);
    if SendOutcome(me, payload) == Sent {
      var p := FreshPacket(me', outs[0]);
      assert FreshPackets(me', outs) == {p};
      SendKeepsPair(me, peer, outgoing, incoming, payload, now, p);
    } else {
      assert outgoing + FreshPackets(me', outs) == outgoing;
    }
  }

  lemma ActTickKeepsPair(me: Conn, peer: Conn, outgoing: set<Packet>, incoming: set<Packet>, now: u64)
    requires Pair(me, peer, outgoing, incoming)
    ensures var (tx, outs) := Tick(me.tx, now);
            Pair(me.(tx := tx), peer, outgoing + FreshPackets(me.(tx := tx), outs), incoming)
  {
    TickKeepsDir(me.cfg.iss, me.tx, peer.cfg, peer.rx, outgoing, incoming, now);
    var (tx, outs) := Tick(me.tx, now);
    CopiesAreNotFresh(me.(tx := tx), outs, outgoing);
    assert outgoing + {} == outgoing;
  }

  lemma ActKeepsPair(me: Conn, peer: Conn, outgoing: set<Packet>, incoming: set<Packet>, action: Action)
    requires Pair(me, peer, outgoing, incoming) && Enabled(me, peer, incoming, action)
    ensures var (me', outs) := Act(me, action);
            Pair(me', peer, outgoing + FreshPackets(me', outs), incoming)
  {
    hide Pair, FreshPackets, OnSegment, Send, Tick, Recent;
    match action
    case DoSend(payload, now) =>
      ActSendKeepsPair(me, peer, outgoing, incoming, payload, now);
    case DoTick(now) =>
      ActTickKeepsPair(me, peer, outgoing, incoming, now);
    case DoControl(established, flags) =>
      EstablishedDoesNotMatter(me, peer, outgoing, incoming, established);
      ControlKeepsPair(me.(established := established), peer, outgoing, incoming, flags);
      assert ControlSegment(me.(established := established), flags) == ControlSegment(me, flags);
    case DoReceive(p, now, gate) =>
      ReceiveKeepsPair(me, peer, outgoing, incoming, p, now, gate);
  }

  lemma NextKeepsInv(w: World, w': World)
    requires Inv(w) && Next(w, w')
    ensures Inv(w')
  {
    var action :| ActsA(w, w', action) || ActsB(w, w', action);
    if ActsA(w, w', action) {
      ActKeepsPair(w.a, w.b, w.ab, w.ba, action);
    } else {
      OtherSide(w);
      ActKeepsPair(w.b, w.a, w.ba, w.ab, action);
    }
  }

  // ---- Every run ----

  ghost predicate IsRun(run: seq<World>) {
    && run != [] && Init(run[0])
    && (forall i :: 0 <= i < |run| - 1 ==> Next(run[i], run[i + 1]))
  }

  lemma {:induction false} RunKeepsInv(run: seq<World>, i: nat)
    requires IsRun(run) && i < |run|
    ensures Inv(run[i])
    decreases i
  {
    if i == 0 {
      InitInv(run[0]);
    } else {
      RunKeepsInv(run, i - 1);
      assert Next(run[i - 1], run[i - 1 + 1]);
      NextKeepsInv(run[i - 1], run[i]);
    }
  }

  /** What one endpoint has handed to its application is a prefix of what its peer accepted, and is all that is acknowledged. */
  ghost predicate DeliversPrefix(from: Conn, to: Conn) {
    && to.rx.delivered <= from.tx.sent
    && Concat(to.rx.delivered) <= Concat(from.tx.sent)
    && from.tx.bytesAcked <= |Concat(to.rx.delivered)| == to.rx.bytesReceived
    && from.tx.oldest == Wrap(from.cfg.iss + from.tx.bytesAcked)
    && to.rx.delivery == Wrap(from.cfg.iss + to.rx.bytesReceived) == Wrap(to.rx.ranges.ack)
  }

  lemma PairDelivers(me: Conn, peer: Conn, outgoing: set<Packet>, incoming: set<Packet>)
    requires Pair(me, peer, outgoing, incoming)
    ensures DeliversPrefix(me, peer)
  {
    hide AllData, AllAcks, AcksMiss, Scoreboard, Copies, Epochs, SameBytes, SlotsHold, Canonical, Tile, Off, Concat;
    PrefixBytes(me.tx.sent, peer.rx.delivered, First(me.tx));
  }

  lemma PrefixBytes(sent: Chunks, delivered: Chunks, first: nat)
    requires delivered <= sent && first <= |delivered|
    ensures Concat(delivered) <= Concat(sent)
    ensures Off(sent, first) <= |Concat(delivered)| == Off(sent, |delivered|)
  {
    ConcatOfPrefix(delivered, sent);
    ConcatLength(delivered);
    OffOfPrefix(delivered, sent, |delivered|);
    OffMonotone(sent, first, |delivered|);
  }

  /**
   End-to-end safety.  In every run over a network that drops, duplicates and reorders,
   in both directions: the payloads handed to the application are, in order and
   unchanged, a prefix of those the peer accepted for sending; and the sender never
   takes a byte for acknowledged that was not delivered.
   */
  lemma EndToEndSafety(run: seq<World>, i: nat)
    requires IsRun(run) && i < |run|
    ensures DeliversPrefix(run[i].a, run[i].b) && DeliversPrefix(run[i].b, run[i].a)
  {
    hide Pair, DeliversPrefix;
    RunKeepsInv(run, i);
    var w := run[i];
    OtherSide(w);
    PairDelivers(w.a, w.b, w.ab, w.ba);
    PairDelivers(w.b, w.a, w.ba, w.ab);
  }

  /** Every byte of chunk k has been received. */
  ghost predicate ChunkReceived(iss: u32, chunks: Chunks, k: nat, rx: Receiver) {
    k < |chunks| && forall x :: iss + Off(chunks, k) <= x < iss + Off(chunks, k + 1) ==> Has(rx.ranges, x)
  }

  lemma ReceivedIsKept(cfg: Config, iss: u32, chunks: Chunks, ahead: nat, rx: Receiver, k: nat)
    requires ReceiverInv(cfg, iss, chunks, ahead, rx) && ChunkReceived(iss, chunks, k, rx)
    ensures ChunkKept(iss, chunks, k, rx)
  {
    if k >= |rx.delivered| {
      var x := iss + Off(chunks, k);
      OffMonotone(chunks, |rx.delivered|, k);
      OffMonotone(chunks, k, k + 1);
      assert Has(rx.ranges, x);
      var i :| 0 <= i < |rx.slots| && SlotCovers(rx.slots[i], x);
      var j: nat :| HoldsChunk(iss, chunks, |rx.delivered|, rx.bytesReceived + ahead, rx.slots[i], j);
      if j < k { OffMonotone(chunks, j + 1, k); } else if k < j { OffMonotone(chunks, k, j); }
      assert SlotKeeps(iss, chunks, k, rx.slots[i]);
    }
  }

  /** A marked segment has been delivered or is held, and the segment at the head of the queue is never marked. */
  ghost predicate ScoreboardSound(from: Conn, to: Conn) {
    && MarksReceived(from.cfg.iss, from.tx.sent, First(from.tx), from.tx.queue, to.rx)
    && HeadUnmarked(from.tx.queue)
  }

  ghost predicate MarksReceived(iss: u32, chunks: Chunks, first: nat, queue: seq<Pending<seq<u8>>>, rx: Receiver) {
    forall i :: 0 <= i < |queue| && queue[i].sacked ==> ChunkKept(iss, chunks, first + i, rx)
  }

  ghost predicate HeadUnmarked(queue: seq<Pending<seq<u8>>>) {
    queue != [] ==> !queue[0].sacked && LowestUnsacked(queue) == 0
  }

  lemma ReportedIsReceived(iss: u32, chunks: Chunks, k: nat, rx: Receiver, acks: set<Packet>)
    requires Reported(iss, chunks, k, acks) && AllAcks(iss, chunks, rx, acks)
    ensures ChunkReceived(iss, chunks, k, rx)
  {
    var p, j :| p in acks && 0 <= j < |p.meta.runs| && p.meta.runs[j].lo <= iss + Off(chunks, k) &&
      iss + Off(chunks, k + 1) <= p.meta.runs[j].hi;
    assert AckOk(iss, chunks, rx, p);
  }

  /** The chunk after a cut that no report covers is not reported. */
  lemma MissedIsNotReported(iss: u32, chunks: Chunks, k: nat, acks: set<Packet>)
    requires Missed(iss, chunks, k, acks) && NonEmpty(chunks)
    ensures !Reported(iss, chunks, k, acks)
  {
    if k < |chunks| {
      OffMonotone(chunks, k, k + 1);
    }
  }

  lemma MarkedWasReceived(
    iss: u32, chunks: Chunks, first: nat, queue: seq<Pending<seq<u8>>>, rx: Receiver, acks: set<Packet>, i: nat)
    requires Scoreboard(iss, chunks, first, queue, acks) && AllAcks(iss, chunks, rx, acks) && i < |queue| && queue[i].sacked
    ensures ChunkReceived(iss, chunks, first + i, rx)
  {
    ReportedIsReceived(iss, chunks, first + i, rx, acks);
  }

  lemma HeadIsNotMarked(iss: u32, chunks: Chunks, first: nat, queue: seq<Pending<seq<u8>>>, acks: set<Packet>)
    requires Scoreboard(iss, chunks, first, queue, acks) && Missed(iss, chunks, first, acks) && NonEmpty(chunks)
    ensures HeadUnmarked(queue)
  {
    MissedIsNotReported(iss, chunks, first, acks);
    if queue != [] {
      ReportedAt(iss, chunks, first, queue, acks, 0);
    }
  }

  lemma ReportedAt(iss: u32, chunks: Chunks, first: nat, queue: seq<Pending<seq<u8>>>, acks: set<Packet>, i: nat)
    requires Scoreboard(iss, chunks, first, queue, acks) && i < |queue|
    ensures queue[i].sacked ==> Reported(iss, chunks, first + i, acks)
  {
  }

  lemma MarksAreSound(
    iss: u32, chunks: Chunks, first: nat, queue: seq<Pending<seq<u8>>>, cfg: Config, ahead: nat, rx: Receiver, acks: set<Packet>)
    requires Scoreboard(iss, chunks, first, queue, acks) && AllAcks(iss, chunks, rx, acks)
    requires ReceiverInv(cfg, iss, chunks, ahead, rx)
    ensures MarksReceived(iss, chunks, first, queue, rx)
  {
    hide ReceiverInv, AllAcks, Scoreboard, ChunkKept, ChunkReceived;
    forall i | 0 <= i < |queue| && queue[i].sacked ensures ChunkKept(iss, chunks, first + i, rx) {
      MarkedWasReceived(iss, chunks, first, queue, rx, acks, i);
      ReceivedIsKept(cfg, iss, chunks, ahead, rx, first + i);
    }
  }

  lemma PairScoreboard(me: Conn, peer: Conn, outgoing: set<Packet>, incoming: set<Packet>)
    requires Pair(me, peer, outgoing, incoming)
    ensures ScoreboardSound(me, peer)
  {
    HeadIsNotMarked(me.cfg.iss, me.tx.sent, First(me.tx), me.tx.queue, incoming);
    MarksAreSound(me.cfg.iss, me.tx.sent, First(me.tx), me.tx.queue, peer.cfg, MAXIMUM_FLIGHT, peer.rx, incoming);
  }

  /** In every run, for any two acknowledgements ever issued, the one's cumulative point lies in no block of the other. */
  lemma AcknowledgementsAgree(run: seq<World>, i: nat)
    requires IsRun(run) && i < |run|
    ensures AcksAgree(run[i].a.cfg.iss, run[i].a.tx.sent, run[i].ba)
    ensures AcksAgree(run[i].b.cfg.iss, run[i].b.tx.sent, run[i].ab)
  {
    hide ReceiverInv, SenderInv, AcksAgree, Scoreboard, Copies, AllData, AllAcks, AcksMiss;
    RunKeepsInv(run, i);
    var w := run[i];
    LinkedAcksAgree(w.a.cfg.iss, w.a.tx.sent, First(w.a.tx), w.b.rx, w.ba);
    LinkedAcksAgree(w.b.cfg.iss, w.b.tx.sent, First(w.b.tx), w.a.rx, w.ab);
  }

  ghost predicate AcksAgree(iss: u32, chunks: Chunks, acks: set<Packet>) {
    forall p, q :: p in acks && q in acks ==>
      q.meta.acked <= |chunks| && !Reports(p.meta.runs, iss + Off(chunks, q.meta.acked))
  }

  lemma LinkedAcksAgree(iss: u32, chunks: Chunks, first: nat, rx: Receiver, acks: set<Packet>)
    requires AllAcks(iss, chunks, rx, acks) && AcksMiss(iss, chunks, first, acks)
    ensures AcksAgree(iss, chunks, acks)
  {
    forall p, q | p in acks && q in acks
      ensures q.meta.acked <= |chunks| && !Reports(p.meta.runs, iss + Off(chunks, q.meta.acked))
    {
      assert AckOk(iss, chunks, rx, q) && Missed(iss, chunks, q.meta.acked, acks);
    }
  }

  /** The timer, once it runs out and not before, resends exactly the oldest unacknowledged segment. */
  ghost predicate TimerResendsHead(from: Conn, outgoing: set<Packet>) {
    && Congestion.Bounded(from.tx.window)
    && (from.tx.queue != [] ==> OnNetwork(from.tx.queue[0].buffer, outgoing))
    && (forall now: u64 :: if TimeIsOver(from.tx, now) then Tick(from.tx, now).1 == [Out(RtoResend, from.tx.queue[0].buffer)]
                           else Tick(from.tx, now) == (from.tx, []))
  }

  predicate TimeIsOver(tx: Sender, now: u64) {
    tx.queue != [] && tx.queue[0].sentAt + tx.timer.current <= now
  }

  /**
   Scoreboard soundness.  In every run: a segment marked as selectively acknowledged
   has been received, the head of the queue is never marked, and so while data is
   outstanding the timer always has a segment to resend, namely the head.
   */
  lemma ScoreboardSafety(run: seq<World>, i: nat)
    requires IsRun(run) && i < |run|
    ensures ScoreboardSound(run[i].a, run[i].b) && ScoreboardSound(run[i].b, run[i].a)
    ensures TimerResendsHead(run[i].a, run[i].ab) && TimerResendsHead(run[i].b, run[i].ba)
  {
    hide Pair, ScoreboardSound, TimerResendsHead;
    RunKeepsInv(run, i);
    var w := run[i];
    OtherSide(w);
    PairScoreboard(w.a, w.b, w.ab, w.ba);
    PairTimer(w.a, w.b, w.ab, w.ba);
    PairScoreboard(w.b, w.a, w.ba, w.ab);
    PairTimer(w.b, w.a, w.ba, w.ab);
  }

  lemma OtherSide(w: World)
    requires Inv(w)
    ensures Pair(w.b, w.a, w.ba, w.ab)
  {
  }

  lemma PairTimer(me: Conn, peer: Conn, outgoing: set<Packet>, incoming: set<Packet>)
    requires Pair(me, peer, outgoing, incoming)
    ensures TimerResendsHead(me, outgoing)
  {
    hide ReceiverInv, AllData, AllAcks, AcksMiss, Scoreboard, Tiled, Epochs;
    PairScoreboard(me, peer, outgoing, incoming);
    if me.tx.queue != [] {
      assert OnNetwork(me.tx.queue[0].buffer, outgoing);
    }
  }
}
