/** The sending half of a connection: retransmission queue, loss control and the pool of transmit buffers. */
module SendHalf {
  import opened Numbers
  import opened Sequence
  import opened Wire
  import opened PacketPool
  import opened RetransmissionQueue
  import opened ConnectionModel
  import FastRetransmit
  import Congestion
  import Rto

  /** What lies in buffers that the queue does not own does not matter. */
  lemma SameBytes(q: seq<Pending<int>>, bytes: seq<seq<u8>>, bytes': seq<seq<u8>>)
    requires |bytes'| == |bytes|
    requires forall i :: 0 <= i < |q| ==> 0 <= q[i].buffer < |bytes| && bytes'[q[i].buffer] == bytes[q[i].buffer]
    ensures WithBytes(q, bytes') == WithBytes(q, bytes)
  {
  }

  lemma SuffixBytes(q: seq<Pending<int>>, bytes: seq<seq<u8>>, n: nat)
    requires n <= |q| && forall i :: 0 <= i < |q| ==> 0 <= q[i].buffer < |bytes|
    ensures WithBytes(q[n..], bytes) == WithBytes(q, bytes)[n..]
  {
  }

  /** Dropping the first n segments and returning their buffers leaves the others and their bytes alone. */
  lemma ReleasedBytes(q: seq<Pending<int>>, used: set<int>, n: nat, bytes: seq<seq<u8>>, bytes': seq<seq<u8>>)
    requires Owns(q, used) && n <= |q| && |bytes'| == |bytes|
    requires forall i :: 0 <= i < |q| ==> 0 <= q[i].buffer < |bytes|
    requires forall k :: k in used - Handles(q[..n]) && 0 <= k < |bytes| ==> bytes'[k] == bytes[k]
    ensures Owns(q[n..], used - Handles(q[..n])) && WithBytes(q[n..], bytes') == WithBytes(q, bytes)[n..]
  {
    hide WithBytes;
    OwnsSuffix(q, used, n);
    SuffixBytes(q, bytes, n);
    SameBytes(q[n..], bytes, bytes');
  }

  /** A queue that owns buffers keeps owning them when a segment with a new buffer joins. */
  lemma OwnsOneMore(q: seq<Pending<int>>, used: set<int>, p: Pending<int>)
    requires Owns(q, used) && p.buffer !in used
    ensures Owns(q + [p], used + {p.buffer})
  {
    var q' := q + [p];
    forall k ensures k in used + {p.buffer} <==> k in Handles(q') {
      if k in used {
        var i :| 0 <= i < |q| && q[i].buffer == k;
        assert q'[i].buffer == k;
      }
      if k == p.buffer {
        assert q'[|q|].buffer == k;
      }
    }
  }

  lemma SameHandles(q: seq<Pending<int>>, q': seq<Pending<int>>, used: set<int>)
    requires Owns(q, used) && |q'| == |q| && forall i :: 0 <= i < |q| ==> q'[i].buffer == q[i].buffer
    ensures Owns(q', used)
  {
    forall k ensures k in Handles(q') <==> k in Handles(q) {
      if k in Handles(q) {
        var i :| 0 <= i < |q| && q[i].buffer == k;
        assert q'[i].buffer == k;
      }
    }
  }

  lemma FastIgnoresBytes(f: FastRetransmit.Fast, q: seq<Pending<int>>, bytes: seq<seq<u8>>, ack: u32, now: u64)
    requires forall i :: 0 <= i < |q| ==> 0 <= q[i].buffer < |bytes|
    ensures var d := FastRetransmit.Acked(f, q, ack, now);
            && (forall i :: 0 <= i < |q| ==> d.queue[i].buffer == q[i].buffer)
            && FastRetransmit.Acked(f, WithBytes(q, bytes), ack, now)
               == FastRetransmit.Decision(d.fast, WithBytes(d.queue, bytes), d.resend)
  {
    hide Sacked, LowestUnsacked;
    QueueIgnoresBytes(q, bytes, ack, []);
    var n := LowestUnsacked(q);
    if n < |q| {
      assert WithBytes(q, bytes)[n := Resent(WithBytes(q, bytes)[n], now)] == WithBytes(q[n := Resent(q[n], now)], bytes);
    }
  }

  lemma EnqueueIgnoresBytes(q: seq<Pending<int>>, bytes: seq<seq<u8>>, capacity: nat, p: Pending<int>)
    requires forall i :: 0 <= i < |q| ==> 0 <= q[i].buffer < |bytes|
    requires 0 <= p.buffer < |bytes|
    ensures EnqueueOutcome(WithBytes(q, bytes), capacity, true, p.start, p.end) == EnqueueOutcome(q, capacity, true, p.start, p.end)
    ensures WithBytes(q + [p], bytes)
         == WithBytes(q, bytes) + [Pending(p.start, p.end, bytes[p.buffer], p.sentAt, p.retransmits, p.sacked)]
  {
  }

  /** The bytes of a segment, if they fit a packet buffer. */
  method Segment(h: TransportHeader, payload: seq<u8>) returns (fits: bool, bytes: seq<u8>)
    ensures fits == Fits(h, payload)
    ensures fits ==> bytes == Serialized(h) + payload
  {
    var data := new u8[PACKET_BUFFER_BYTES];
    var status, headerBytes := SerializeHeader(h, data);
    fits := status == Ok && headerBytes + |payload| <= PACKET_BUFFER_BYTES;
    bytes := if fits then data[..headerBytes] + payload else [];
  }

  class SendHalf {
    const cfg: Config
    const pool: PacketPool
    const queue: RetransmissionQueue
    const fast: FastRetransmit.FastRetransmitController
    const congestion: Congestion.CongestionController
    const rto: Rto.RtoEstimator
    var next: u32
    var oldest: u32
    var peerWindow: u16
    var bytesSent: nat
    var bytesAcked: nat
    ghost var sent: seq<seq<u8>>
    ghost var losses: seq<Loss>
    ghost var resends: seq<Loss>
    ghost const Repr: set<object>

    /** The parts are in order and apart from each other. */
    ghost predicate Shape()
      reads this, Repr
    {
      && Repr == {this, queue, queue.segments, fast, congestion, rto} + pool.Repr
      && this !in pool.Repr && queue !in pool.Repr && queue.segments !in pool.Repr
      && fast !in pool.Repr && congestion !in pool.Repr && rto !in pool.Repr
      && pool in pool.Repr && pool.Valid() && queue.Valid()
      && queue.capacity == QueueCapacity(cfg) && pool.capacity == cfg.txBuffers
      && Congestion.Bounded(congestion.View()) && Rto.InRange(rto.View())
    }

    /** The queue owns exactly these buffers. */
    ghost predicate QueueHolds(buffers: set<int>)
      reads queue, queue.segments, pool, pool.Repr
    {
      && pool.Valid() && queue.Valid()
      && Owns(queue.View(), buffers)
      && (forall i :: 0 <= i < |queue.View()| ==> 0 <= queue.View()[i].buffer < pool.storage.Length)
    }

    /** The buffers in use are exactly those of the queue. */
    ghost predicate Valid()
      reads this, Repr
    {
      Shape() && QueueHolds(pool.used)
    }

    ghost function Bytes(): seq<Pending<seq<u8>>>
      requires pool.Valid() && queue.Valid()
      requires forall i :: 0 <= i < |queue.View()| ==> 0 <= queue.View()[i].buffer < pool.storage.Length
      reads queue, queue.segments, pool, pool.Repr
    {
      WithBytes(queue.View(), pool.storage[..])
    }

    ghost function View(): Sender
      requires Valid()
      reads this, Repr
    {
      Sender(next, oldest, peerWindow, Bytes(), fast.View(), congestion.View(), rto.View(),
             bytesSent, bytesAcked, sent, losses, resends)
    }

    constructor (cfg: Config, p: PacketPool)
      requires p.Valid() && p.capacity == cfg.txBuffers && p.used == {}
      ensures Valid() && pool == p && fresh(Repr - p.Repr)
      ensures this.cfg == cfg && View() == InitialSender(cfg)
    {
      hide Congestion.Bounded, Congestion.Initial;
      this.cfg := cfg;
      var f := new FastRetransmit.FastRetransmitController(cfg.iss);
      var c := new Congestion.CongestionController(cfg.mss, Congestion.MAXIMUM_U32);
      var r := new Rto.RtoEstimator();
      var q := new RetransmissionQueue(cfg.txCapacity);
      pool, queue, fast, congestion, rto := p, q, f, c, r;
      next, oldest, peerWindow, bytesSent, bytesAcked := cfg.iss, cfg.iss, TWO_16 - 1, 0, 0;
      sent, losses, resends := [], [], [];
      Repr := {this, q, q.segments, f, c, r} + p.Repr;
      new;
      assert queue.View() == [] && Handles([]) == {};
    }

    static method Create(cfg: Config) returns (half: SendHalf)
      ensures half.Valid() && half in half.Repr && fresh(half.Repr) && half.cfg == cfg && half.View() == InitialSender(cfg)
    {
      var p := new PacketPool(cfg.txBuffers);
      half := new SendHalf(cfg, p);
    }

    /** Drops the segments a cumulative acknowledgement covers; the pool takes back every one of their buffers. */
    method ReleaseAcked(ack: u32)
      requires Valid()
      modifies queue, queue.segments, pool.Repr
      ensures Valid() && Bytes() == old(Bytes())[AckedPrefix(old(Bytes()), ack)..]
    {
      hide Owns, Handles, AckedPrefix, WithBytes;
      ghost var q, bytes, used := queue.View(), pool.storage[..], pool.used;
      QueueIgnoresBytes(q, bytes, ack, []);
      var released, poolError := queue.Acknowledge(ack, pool);
      if poolError {
        OwnedIsInUse(q, used, released);
        assert false;  // the queue owns its buffers, so the pool never refuses one
      }
      ReleasedBytes(q, used, released, bytes, pool.storage[..]);
    }

    function InFlight(): u32
      reads this
    {
      Diff(next, oldest)
    }

    /** When the head segment, if it is acknowledged now, was sent; 0 stands for no sample. */
    method HeadSample(ack: u32) returns (sentAt: u64, retransmitted: bool)
      requires Valid()
      ensures sentAt == SampleTime(Bytes(), ack) && retransmitted == SampleResent(Bytes())
    {
      sentAt, retransmitted := 0, queue.size > 0 && queue.segments[0].retransmits != 0;
      if queue.size > 0 && LessEqual(queue.segments[0].end, ack) {
        sentAt := queue.segments[0].sentAt;
      }
    }

    /** A cumulative acknowledgement that moves forward. */
    method Progress(ack: u32, now: u64)
      requires Valid()
      modifies Repr
      ensures Valid() && View() == AckProgress(old(View()), ack, now)
    {
      hide PacketPool.Valid, Owns, WithBytes;
      var acknowledged := Diff(ack, oldest);
      var sentAt, retransmitted := HeadSample(ack);
      ReleaseAcked(ack);
      oldest := ack;
      bytesAcked := bytesAcked + acknowledged;
      AdjustControl(acknowledged, ack, sentAt, retransmitted, now);
    }

    method AdjustControl(acknowledged: u32, ack: u32, sentAt: u64, retransmitted: bool, now: u64)
      requires Valid()
      modifies congestion, rto
      ensures Valid()
      ensures View() == old(View()).(window := ProgressWindow(old(congestion.View()), acknowledged, ack),
                                     timer := ProgressTimer(old(rto.View()), sentAt, retransmitted, now))
    {
      hide PacketPool.Valid, Owns, WithBytes;
      GrowWindow(acknowledged, ack);
      UpdateTimer(sentAt, retransmitted, now);
    }

    method GrowWindow(acknowledged: u32, ack: u32)
      requires Valid()
      modifies congestion
      ensures Valid()
      ensures congestion.View() == ProgressWindow(old(congestion.View()), acknowledged, ack)
    {
      hide PacketPool.Valid, Owns, WithBytes;
      congestion.OnAck(acknowledged);
      var ended := congestion.OnRecoveryAck(ack);
    }

    /** Forward progress clears the back-off; a segment that was just acknowledged gives a sample. */
    method UpdateTimer(sentAt: u64, retransmitted: bool, now: u64)
      requires Valid()
      modifies rto
      ensures Valid()
      ensures rto.View() == ProgressTimer(old(rto.View()), sentAt, retransmitted, now)
    {
      hide PacketPool.Valid, Owns, WithBytes;
      rto.OnForwardProgress();
      if sentAt != 0 {
        var status := rto.Observe(sentAt, now, retransmitted);
      }
    }

    /** Asks for a loss response; the recovery point is the end of the flight. */
    method RespondToLoss(signal: Congestion.LossSignal)
      requires Valid() && queue.size > 0
      modifies this`losses, congestion
      ensures Valid() && View() == LossResponse(old(View()), signal)
    {
      hide PacketPool.Valid, Owns;
      var applied := congestion.OnLoss(signal, InFlight(), queue.segments[queue.size - 1].end);
      if applied {
        losses := losses + [Loss(bytesAcked, bytesSent)];
      }
    }

    method MarkSacked(blocks: seq<SackBlock>)
      requires Valid()
      modifies queue.segments
      ensures Valid() && Bytes() == Sacked(old(Bytes()), blocks)
    {
      ghost var q := queue.View();
      var newlySacked, invalidBlocks := queue.ApplySacks(blocks);
      QueueIgnoresBytes(q, pool.storage[..], 0, blocks);
      SameHandles(q, queue.View(), pool.used);
    }

    /** Counts the acknowledgement; `resend` is the segment to resend, or the size of the queue. */
    method CountAck(ack: u32, now: u64) returns (resend: nat)
      requires Valid()
      modifies fast, queue.segments
      ensures Valid()
      ensures FastRetransmit.Decision(fast.View(), Bytes(), resend) == FastRetransmit.Acked(old(fast.View()), old(Bytes()), ack, now)
    {
      ghost var q := queue.View();
      FastIgnoresBytes(fast.View(), q, pool.storage[..], ack, now);
      var recoveryComplete, duplicates;
      resend, recoveryComplete, duplicates := fast.OnAck(ack, now, queue);
      SameHandles(q, queue.View(), pool.used);
    }

    method MarkAndCount(ack: u32, blocks: seq<SackBlock>, now: u64) returns (resend: nat)
      requires Valid()
      modifies fast, queue.segments
      ensures Valid()
      ensures var d := FastRetransmit.Acked(old(fast.View()), Sacked(old(Bytes()), blocks), ack, now);
              && resend == d.resend && View() == old(View()).(queue := d.queue, fast := d.fast)
              && (resend < queue.size ==> Bytes()[resend].buffer == Sacked(old(Bytes()), blocks)[resend].buffer)
    {
      hide PacketPool.Valid, Owns;
      MarkSacked(blocks);
      resend := CountAck(ack, now);
    }

    /** Scoreboard and duplicate counting, for every acknowledgement. */
    method UpdateScoreboard(ack: u32, blocks: seq<SackBlock>, now: u64) returns (outs: seq<Out>)
      requires Valid()
      modifies Repr
      ensures Valid() && (View(), outs) == AckScoreboard(old(View()), ack, blocks, now)
    {
      hide PacketPool.Valid, Owns, WithBytes;
      var resend := MarkAndCount(ack, blocks, now);
      outs := [];
      if resend < queue.size {
        outs := ResendFast(resend);
      }
    }

    method ResendFast(n: nat) returns (outs: seq<Out>)
      requires Valid() && n < queue.size
      modifies this`losses, this`resends, congestion
      ensures Valid() && outs == [Out(FastResend, Bytes()[n].buffer)]
      ensures View() == LossResponse(old(View()), Congestion.SackFastRecovery).(
                resends := old(resends) + [Loss(bytesAcked, bytesSent)])
    {
      hide PacketPool.Valid, Owns;
      RespondToLoss(Congestion.SackFastRecovery);
      resends := resends + [Loss(bytesAcked, bytesSent)];
      outs := [Out(FastResend, pool.storage[queue.segments[n].buffer])];
    }

    method ProcessAck(h: TransportHeader, now: u64) returns (outs: seq<Out>)
      requires Valid() && h.sackCount <= MAXIMUM_SACK_BLOCKS
      modifies Repr
      ensures Valid() && (View(), outs) == ConnectionModel.ProcessAck(old(View()), h, now)
    {
      hide PacketPool.Valid, Owns, WithBytes;
      peerWindow := h.window;
      if Greater(h.cumulativeAck, next) {
        return [];
      }
      if Greater(h.cumulativeAck, oldest) {
        Progress(h.cumulativeAck, now);
      }
      outs := UpdateScoreboard(h.cumulativeAck, h.sacks[..h.sackCount], now);
    }

    method Tick(now: u64) returns (outs: seq<Out>)
      requires Valid()
      modifies Repr
      ensures Valid() && (View(), outs) == ConnectionModel.Tick(old(View()), now)
    {
      hide PacketPool.Valid, Owns;
      ghost var q := queue.View();
      QueueIgnoresBytes(q, pool.storage[..], 0, []);
      var n := queue.FindLowestUnsacked();
      if n == queue.size || now < queue.segments[n].sentAt || now - queue.segments[n].sentAt < rto.current {
        return [];
      }
      outs := Expire(n, now);
    }

    /** The timer of segment n has run out. */
    method Expire(n: nat, now: u64) returns (outs: seq<Out>)
      requires Valid() && n < queue.size
      modifies Repr
      ensures Valid() && outs == [Out(RtoResend, old(Bytes())[n].buffer)]
      ensures View() == LossResponse(old(View()), Congestion.RtoTimeout).(
                queue := old(Bytes())[n := Resent(old(Bytes())[n], now)], timer := Rto.TimedOut(old(rto.View())))
    {
      hide PacketPool.Valid, Owns;
      RespondToLoss(Congestion.RtoTimeout);
      outs := [Out(RtoResend, pool.storage[queue.segments[n].buffer])];
      Resend(n, now);
      var timeout := rto.OnTimeout();
    }

    method Resend(n: nat, now: u64)
      requires Valid() && n < queue.size
      modifies queue.segments
      ensures Valid() && Bytes() == old(Bytes())[n := Resent(old(Bytes())[n], now)]
    {
      ghost var q := queue.View();
      queue.MarkResent(n, now);
      SameHandles(q, queue.View(), pool.used);
    }

    /** Takes a transmit buffer, if there is one. */
    method TakeBuffer() returns (buffer: int)
      requires Valid()
      modifies pool.Repr
      ensures Shape() && QueueHolds(old(pool.used)) && Bytes() == old(Bytes())
      ensures buffer == NO_BUFFER <==> |old(Bytes())| >= cfg.txBuffers
      ensures buffer == NO_BUFFER ==> pool.used == old(pool.used)
      ensures buffer != NO_BUFFER ==> pool.used == old(pool.used) + {buffer} && buffer !in old(pool.used)
                                      && 0 <= buffer < pool.storage.Length
    {
      ghost var q, bytes := queue.View(), pool.storage[..];
      OwnsCount(q, pool.used);
      buffer := pool.Acquire();
      SameBytes(q, bytes, pool.storage[..]);
    }

    method ReturnBuffer(buffer: int, ghost owned: set<int>)
      requires Shape() && QueueHolds(owned) && pool.used == owned + {buffer} && buffer !in owned
      modifies pool.Repr
      ensures Valid() && Bytes() == old(Bytes())
    {
      ghost var q, bytes := queue.View(), pool.storage[..];
      var ok := pool.Release(buffer);
      assert pool.used == owned;
      SameBytes(q, bytes, pool.storage[..]);
    }

    /** Fills a buffer that the queue does not own yet. */
    method FillBuffer(buffer: int, bytes: seq<u8>, ghost owned: set<int>)
      requires Shape() && QueueHolds(owned) && pool.used == owned + {buffer} && buffer !in owned
      requires 0 <= buffer < pool.storage.Length
      modifies pool.storage
      ensures Shape() && QueueHolds(owned) && pool.used == old(pool.used)
      ensures Bytes() == old(Bytes()) && pool.storage[buffer] == bytes
    {
      ghost var q, storage := queue.View(), pool.storage[..];
      pool.Fill(buffer, bytes);
      SameBytes(q, storage, pool.storage[..]);
    }

    /** Puts a filled buffer at the end of the queue, or gives it back. */
    method Enqueue(buffer: int, start: u32, end: u32, now: u64, ghost owned: set<int>) returns (accepted: bool)
      requires Shape() && QueueHolds(owned) && pool.used == owned + {buffer} && buffer !in owned
      requires 0 <= buffer < pool.storage.Length
      modifies queue, queue.segments, pool.Repr
      ensures Valid()
      ensures accepted == (EnqueueOutcome(old(Bytes()), queue.capacity, true, start, end) == EnqueueStatus.Accepted)
      ensures Bytes() == if accepted then old(Bytes()) + [Pending(start, end, old(pool.storage[buffer]), now, 0, false)] else old(Bytes())
    {
      ghost var q := queue.View();
      var entry := Pending(start, end, buffer, now, 0, false);
      EnqueueIgnoresBytes(q, pool.storage[..], queue.capacity, entry);
      OwnsOneMore(q, owned, entry);
      var status := queue.Enqueue(entry);
      accepted := status == EnqueueStatus.Accepted;
      if !accepted {
        ReturnBuffer(buffer, owned);
      }
    }

    /** Fills the buffer with the segment and queues it, or gives the buffer back. */
    method Prepare(fits: bool, bytes: seq<u8>, end: u32, now: u64, buffer: int, ghost owned: set<int>) returns (status: SendStatus)
      requires Shape() && QueueHolds(owned) && pool.used == owned + {buffer} && buffer !in owned
      requires 0 <= buffer < pool.storage.Length
      modifies queue, queue.segments, pool.Repr
      ensures Valid()
      ensures status == PrepareCheck(old(Bytes()), queue.capacity, next, end, fits)
      ensures Bytes() == if status == Sent then old(Bytes()) + [Pending(next, end, bytes, now, 0, false)] else old(Bytes())
    {
      if !fits {
        ReturnBuffer(buffer, owned);
        return PayloadTooLarge;
      }
      FillBuffer(buffer, bytes, owned);
      var accepted := Enqueue(buffer, next, end, now, owned);
      status := if accepted then Sent else WouldBlock;
    }

    method Queue(fits: bool, bytes: seq<u8>, end: u32, now: u64) returns (status: SendStatus)
      requires Valid()
      modifies queue, queue.segments, pool.Repr
      ensures Valid()
      ensures status == QueueCheck(cfg, old(Bytes()), next, end, fits)
      ensures Bytes() == if status == Sent then old(Bytes()) + [Pending(next, end, bytes, now, 0, false)] else old(Bytes())
    {
      ghost var owned := pool.used;
      var buffer := TakeBuffer();
      if buffer == NO_BUFFER {
        return WouldBlock;
      }
      status := Prepare(fits, bytes, end, now, buffer, owned);
    }

    /** Accepts a payload for sending, in the segment with the given bytes. */
    method Send(established: bool, fits: bool, bytes: seq<u8>, payload: seq<u8>, now: u64) returns (status: SendStatus)
      requires Valid()
      modifies Repr
      ensures Valid()
      ensures status == SendCheck(cfg, established, old(View()), fits, payload)
      ensures View() == if status == Sent then SentSender(old(View()), bytes, payload, now) else old(View())
    {
      hide PacketPool.Valid, Owns, WithBytes, Wrap;
      if !established {
        return Closed;
      }
      if payload == [] || |payload| > SegmentLimit(cfg) {
        return PayloadTooLarge;
      }
      if queue.size >= queue.capacity || Congestion.Allowance(congestion.View(), InFlight(), peerWindow) < |payload| {
        return WouldBlock;
      }
      var end := Wrap(next + |payload|);
      status := Queue(fits, bytes, end, now);
      if status == Sent {
        CountSent(end, payload);
      }
    }

    /** Counts a segment that was queued. */
    method CountSent(end: u32, payload: seq<u8>)
      requires Valid()
      modifies this
      ensures Valid()
      ensures View() == old(View()).(next := end, bytesSent := old(bytesSent) + |payload|, sent := old(sent) + [payload])
    {
      next := end;
      bytesSent := bytesSent + |payload|;
      sent := sent + [payload];
    }

    /** Teardown: every buffer goes back to the pool. */
    method TearDown()
      requires Valid()
      modifies Repr
      ensures Valid() && queue.View() == [] && pool.used == {} && pool.available == pool.capacity
    {
      ghost var q, used := queue.View(), pool.used;
      var released, poolError := queue.Clear(pool);
      if poolError {
        OwnedIsInUse(q, used, released);
        assert false;  // the queue owns its buffers, so the pool never refuses one
      }
      OwnsSuffix(q, used, released);
      assert q[released..] == [];
      OwnsCount([], pool.used);
    }
  }
}
