/**
 One connection endpoint.  Each operation does exactly what the specification says
 it does to the state and transmits exactly the segments it says, and the two pools
 lend out exactly the buffers that the queue and the slots own.
 */
module Connection {
  import opened Numbers
  import opened Wire
  import opened ReceiveRanges
  import opened ConnectionModel
  import opened SendHalf
  import opened ReceiveHalf

  class Connection {
    const cfg: Config
    const tx: SendHalf
    const rx: ReceiveHalf
    var established: bool
    ghost const Repr: set<object>

    ghost predicate Valid()
      reads this, Repr
    {
      && tx in Repr && rx in Repr && tx.Repr <= Repr && rx.Repr <= Repr
      && this !in tx.Repr && this !in rx.Repr && tx.Repr !! rx.Repr
      && this in Repr
      && tx.Valid() && rx.Valid()
      && tx.cfg == cfg && rx.cfg == cfg
    }

    ghost function View(): Conn
      requires Valid()
      reads this, Repr
    {
      Conn(cfg, established, tx.View(), rx.View())
    }

    constructor (t: SendHalf, r: ReceiveHalf)
      requires t.Valid() && r.Valid() && t in t.Repr && r in r.Repr && t.Repr !! r.Repr && t.cfg == r.cfg
      ensures Valid() && Repr == {this} + t.Repr + r.Repr && View() == Conn(t.cfg, false, t.View(), r.View())
    {
      cfg, tx, rx, established := t.cfg, t, r, false;
      Repr := {this} + t.Repr + r.Repr;
    }

    static method Create(config: Config) returns (connection: Connection)
      ensures connection.Valid() && fresh(connection.Repr) && connection.View() == InitialConn(config)
    {
      hide SendHalf.Valid, ReceiveHalf.Valid, SendHalf.View, ReceiveHalf.View;
      var t := SendHalf.Create(config);
      var r := ReceiveHalf.Create(config);
      ghost var halves := t.Repr + r.Repr;
      assert fresh(halves);
      connection := new Connection(t, r);
      assert connection.Repr == {connection} + halves && fresh({connection} + halves);
    }

    /** The header of whatever is sent next. */
    method MakeHeader(flags: u8) returns (h: TransportHeader)
      requires Valid()
      ensures h == ConnectionModel.MakeHeader(View(), flags)
    {
      var window := rx.AdvertisedWindow();
      var blocks := rx.ranges.GenerateSacks(MAXIMUM_SACK_BLOCKS);
      assert blocks == WrapRuns(Nearest(View().rx.ranges.runs));
      h := Fields(tx.next, rx.ranges.cumulativeAck, flags, |blocks|, window, Padded(blocks));
    }

    /** A control segment of the present state. */
    method SendControl(flags: u8) returns (outs: seq<Out>)
      requires Valid()
      ensures outs == ControlSegment(View(), flags)
    {
      hide SendHalf.Valid, ReceiveHalf.Valid, SendHalf.View, ReceiveHalf.View;
      var h := MakeHeader(flags);
      var buffer := new u8[MAXIMUM_HEADER_BYTES];
      var status, bytes := SerializeHeader(h, buffer);
      if status != Ok {
        return [];
      }
      return [Out(Control, buffer[..bytes])];
    }

    method Send(payload: seq<u8>, now: u64) returns (status: SendStatus, outs: seq<Out>)
      requires Valid()
      modifies Repr
      ensures Valid()
      ensures status == SendOutcome(old(View()), payload)
      ensures (View(), outs) == ConnectionModel.Send(old(View()), payload, now)
    {
      hide ReceiveHalf.View, ReceiveHalf.Valid, SentSender;
      var h := MakeHeader(FLAG_ACK);
      var fits, bytes := Segment(h, payload);
      status := tx.Send(established, fits, bytes, payload, now);
      outs := if status == Sent then [Out(NewData, bytes)] else [];
    }

    /** The payload part of a segment. */
    method OnPayload(start: u32, payload: seq<u8>) returns (outs: seq<Out>)
      requires Valid()
      modifies Repr
      ensures Valid() && (View(), outs) == ConnectionModel.OnPayload(old(View()), start, payload)
    {
      var result := rx.ProcessPayload(start, payload);
      outs := [];
      if result != Ignored && result != Oversized {
        outs := SendControl(FLAG_ACK);
      }
    }

    /** A segment arrives; `gate` is what the connection state machine makes of its flags. */
    method OnSegment(segment: seq<u8>, now: u64, gate: Gate) returns (outs: seq<Out>)
      requires Valid()
      modifies Repr
      ensures Valid() && (View(), outs) == ConnectionModel.OnSegment(old(View()), segment, now, gate)
    {
      var parsed := ParseHeader(segment);
      if parsed.Rejected? {
        return [];
      }
      outs := OnParsed(parsed.header, segment[parsed.consumed..], now, gate);
    }

    /** The acknowledgement part of a segment, if it has one. */
    method OnAck(h: TransportHeader, now: u64) returns (outs: seq<Out>)
      requires Valid() && h.sackCount <= MAXIMUM_SACK_BLOCKS
      modifies tx.Repr
      ensures Valid() && established == old(established) && rx.View() == old(rx.View())
      ensures (tx.View(), outs) == if HasAck(h.flags) then ConnectionModel.ProcessAck(old(tx.View()), h, now) else (old(tx.View()), [])
    {
      outs := [];
      if HasAck(h.flags) {
        outs := tx.ProcessAck(h, now);
      }
    }

    method OnParsed(h: TransportHeader, payload: seq<u8>, now: u64, gate: Gate) returns (outs: seq<Out>)
      requires Valid() && h.sackCount <= MAXIMUM_SACK_BLOCKS
      modifies Repr
      ensures Valid() && (View(), outs) == ConnectionModel.OnParsed(old(View()), h, payload, now, gate)
    {
      hide SendHalf.Valid, ReceiveHalf.Valid, SendHalf.View, ReceiveHalf.View;
      outs := OnAck(h, now);
      established := gate.established;
      if gate.accepted && gate.established {
        var replies := OnPayload(h.sequence, payload);
        outs := outs + replies;
      }
    }

    method Tick(now: u64) returns (outs: seq<Out>)
      requires Valid()
      modifies Repr
      ensures Valid() && View().rx == old(View()).rx && View().established == old(established)
      ensures (View().tx, outs) == ConnectionModel.Tick(old(View()).tx, now)
    {
      outs := tx.Tick(now);
    }

    /** Teardown gives every buffer back to its pool. */
    method TearDown()
      requires Valid()
      modifies Repr
      ensures tx.pool.used == {} && tx.pool.available == cfg.txBuffers
      ensures rx.pool.used == {} && rx.pool.available == cfg.rxCapacity
    {
      tx.TearDown();
      rx.TearDown();
    }
  }
}
