/** Cutting a payload into IPv4 packets that fit a link. */
module Fragmentation {
  import opened Numbers
  import opened Ipv4
  import opened ReassemblyModel

  /** The part of an MTU that a fragment other than the last one fills. */
  function FragmentSize(mtu: nat): nat
    requires HEADER_BYTES <= mtu
  {
    (mtu - HEADER_BYTES) / 8 * 8
  }

  /** The fragment that starts at an offset and holds at most `size` bytes. */
  function Piece(payload: seq<u8>, size: nat, offset: nat): Fragment
    requires offset <= |payload|
  {
    Fragment(offset, payload[offset..Min(offset + size, |payload|)], offset + size < |payload|)
  }

  function FlagsOffset(f: Fragment): nat {
    (if f.more then MORE_FRAGMENTS else 0) + f.offset / 8
  }

  /** The packet that carries a fragment. */
  function PacketOf(h: Ipv4Header, f: Fragment): seq<u8>
    requires f.offset <= MAXIMUM_PAYLOAD_BYTES && |f.payload| <= MAXIMUM_PAYLOAD_BYTES
  {
    Built(h.(flagsOffset := FlagsOffset(f)), f.payload)
  }

  /** The packets for the bytes from an offset on. */
  function PacketsFrom(h: Ipv4Header, payload: seq<u8>, size: nat, offset: nat): seq<seq<u8>>
    requires size > 0 && |payload| <= MAXIMUM_PAYLOAD_BYTES
    decreases |payload| - offset
  {
    if offset >= |payload| then [] else [PacketOf(h, Piece(payload, size, offset))] + PacketsFrom(h, payload, size, offset + size)
  }

  /** Packet number k carries the bytes from k * size on, and the packets end where the payload does. */
  lemma {:induction false} PacketAt(h: Ipv4Header, payload: seq<u8>, size: nat, offset: nat, k: nat)
    requires size > 0 && |payload| <= MAXIMUM_PAYLOAD_BYTES
    ensures k < |PacketsFrom(h, payload, size, offset)| <==> offset + k * size < |payload|
    ensures k < |PacketsFrom(h, payload, size, offset)| ==>
              PacketsFrom(h, payload, size, offset)[k] == PacketOf(h, Piece(payload, size, offset + k * size))
    decreases k
  {
    hide PacketOf, Piece;
    if k > 0 {
      assert offset + size + (k - 1) * size == offset + k * size;
      PacketAt(h, payload, size, offset + size, k - 1);
    }
  }

  lemma PacketsStep(h: Ipv4Header, payload: seq<u8>, size: nat, offset: nat, bytes: nat)
    requires size > 0 && offset < |payload| <= MAXIMUM_PAYLOAD_BYTES && bytes == Min(size, |payload| - offset)
    ensures PacketsFrom(h, payload, size, offset)
         == [PacketOf(h, Fragment(offset, payload[offset..offset + bytes], offset + bytes < |payload|))]
            + PacketsFrom(h, payload, size, offset + bytes)
  {
  }

  /** What is to be sent, or why nothing can be. */
  datatype Plan = Refused(status: Status) | Send(packets: seq<seq<u8>>)

  function PlanFor(h: Ipv4Header, payload: seq<u8>, mtu: nat, scratchBytes: nat): Plan {
    if mtu < HEADER_BYTES || scratchBytes < mtu then Refused(InvalidMtu)
    else if |payload| > MAXIMUM_PAYLOAD_BYTES then Refused(PayloadTooLarge)
    else if |payload| <= mtu - HEADER_BYTES then Send([Built(h.(flagsOffset := 0), payload)])
    else if FragmentSize(mtu) == 0 then Refused(InvalidMtu)
    else Send(PacketsFrom(h, payload, FragmentSize(mtu), 0))
  }

  lemma SizeFills(mtu: nat)
    requires HEADER_BYTES <= mtu
    ensures FragmentSize(mtu) % 8 == 0 && 20 + FragmentSize(mtu) <= mtu < 28 + FragmentSize(mtu)
  {
  }

  lemma OffsetIsWhole(size: nat, k: nat)
    requires size % 8 == 0
    ensures (k * size) % 8 == 0
  {
    var q := size / 8;
    assert k * size == 8 * (k * q);
  }

  /**
   The packet is the fragment of the payload from `start` on: the fields are those of the header, with the offset in
   units of eight bytes and the more-fragments bit; the last one ends with the payload, any other one fills the MTU to
   the last multiple of eight bytes.
   */
  predicate IsFragment(p: seq<u8>, h: Ipv4Header, payload: seq<u8>, mtu: nat, start: nat, last: bool) {
    && 20 < |p| <= mtu && start + |p| - 20 <= |payload| && p[20..] == payload[start..start + |p| - 20]
    && LaysOutWith(p, h, |p|, (if last then 0 else 0x2000) + start / 8) && start % 8 == 0 && AddsUp(p)
    && (if last then start + |p| - 20 == |payload| else |p| % 8 == 4 && mtu < |p| + 8)
  }

  lemma PieceIsFragment(h: Ipv4Header, payload: seq<u8>, mtu: nat, size: nat, start: nat)
    requires 0 < size && size % 8 == 0 && 20 + size <= mtu < 28 + size
    requires start % 8 == 0 && start < |payload| <= MAXIMUM_PAYLOAD_BYTES
    ensures var p := PacketOf(h, Piece(payload, size, start));
            IsFragment(p, h, payload, mtu, start, start + size >= |payload|) && (start + size < |payload| ==> |p| == 20 + size)
  {
    hide LaysOutWith, AddsUp, Built;
    var f := Piece(payload, size, start);
    BuiltLaysOut(h.(flagsOffset := FlagsOffset(f)), f.payload);
    LaysOutAgain(PacketOf(h, f), h, FlagsOffset(f), 20 + |f.payload|);
  }

  lemma LaysOutAgain(p: seq<u8>, h: Ipv4Header, flagsOffset: u16, length: u16)
    requires LaysOut(p, h.(flagsOffset := flagsOffset, totalLength := length))
    ensures LaysOutWith(p, h, length, flagsOffset)
  {
  }

  /** Every packet is the fragment at its place, so that together they are the payload. */
  predicate AreFragments(packets: seq<seq<u8>>, h: Ipv4Header, payload: seq<u8>, mtu: nat) {
    && |packets| > 1 && |packets[0]| >= 28
    && (forall k :: 0 <= k < |packets| ==>
          IsFragment(packets[k], h, payload, mtu, k * (|packets[0]| - 20), k == |packets| - 1))
  }

  lemma FragmentsLayOut(h: Ipv4Header, payload: seq<u8>, mtu: nat, scratchBytes: nat)
    requires 28 <= mtu <= scratchBytes && mtu - 20 < |payload| <= 65515
    ensures PlanFor(h, payload, mtu, scratchBytes).Send?
    ensures AreFragments(PlanFor(h, payload, mtu, scratchBytes).packets, h, payload, mtu)
  {
    hide Piece, PacketOf, PacketsFrom, IsFragment;
    var size, packets := FragmentSize(mtu), PlanFor(h, payload, mtu, scratchBytes).packets;
    SizeFills(mtu);
    PacketAt(h, payload, size, 0, 0);
    PacketAt(h, payload, size, 0, 1);
    PieceIsFragment(h, payload, mtu, size, 0);
    forall k | 0 <= k < |packets| ensures IsFragment(packets[k], h, payload, mtu, k * size, k == |packets| - 1) {
      PacketAt(h, payload, size, 0, k);
      PacketAt(h, payload, size, 0, k + 1);
      OffsetIsWhole(size, k);
      PieceIsFragment(h, payload, mtu, size, k * size);
      assert (k + 1) * size == k * size + size;
    }
  }

  /** When there is no plan and why, and that a payload that fits goes out as one packet with no flags. */
  lemma PlanExactly(h: Ipv4Header, payload: seq<u8>, mtu: nat, scratchBytes: nat)
    ensures var plan := PlanFor(h, payload, mtu, scratchBytes);
            && (plan == Refused(InvalidMtu) <==>
                  mtu < 20 || scratchBytes < mtu || (mtu - 20 < |payload| <= 65515 && mtu < 28))
            && (plan == Refused(PayloadTooLarge) <==> 20 <= mtu <= scratchBytes && |payload| > 65515)
            && (plan.Refused? ==> plan.status in {InvalidMtu, PayloadTooLarge})
            && (20 <= mtu <= scratchBytes && |payload| <= mtu - 20 && |payload| <= 65515 ==>
                  && |plan.packets| == 1
                  && LaysOutWith(plan.packets[0], h, 20 + |payload|, 0) && AddsUp(plan.packets[0])
                  && plan.packets[0][20..] == payload)
  {
    hide LaysOutWith, AddsUp, Built, PacketsFrom;
    if 20 <= mtu {
      SizeFills(mtu);
    }
    if 20 <= mtu <= scratchBytes && |payload| <= mtu - 20 && |payload| <= 65515 {
      BuiltLaysOut(h.(flagsOffset := 0), payload);
      LaysOutAgain(Built(h.(flagsOffset := 0), payload), h, 0, 20 + |payload|);
    }
  }

  /** The callback was given the packets in order, up to and including the first one it turned down. */
  predicate HandedOver(packets: seq<seq<u8>>, accepts: nat -> bool, status: Status, emitted: seq<seq<u8>>) {
    && emitted <= packets
    && (forall i :: 0 <= i < |emitted| - 1 ==> accepts(i))
    && if status == Ok then emitted == packets && (emitted != [] ==> accepts(|emitted| - 1))
       else status == CallbackRejected && emitted != [] && !accepts(|emitted| - 1)
  }

  /** Some packets have been accepted, the rest is still to come. */
  predicate Underway(packets: seq<seq<u8>>, accepts: nat -> bool, emitted: seq<seq<u8>>, rest: seq<seq<u8>>) {
    packets == emitted + rest && forall i :: 0 <= i < |emitted| ==> accepts(i)
  }

  lemma HandOverStep(packets: seq<seq<u8>>, accepts: nat -> bool, emitted: seq<seq<u8>>, packet: seq<u8>, rest: seq<seq<u8>>)
    requires Underway(packets, accepts, emitted, [packet] + rest)
    ensures if accepts(|emitted|) then Underway(packets, accepts, emitted + [packet], rest)
            else HandedOver(packets, accepts, CallbackRejected, emitted + [packet])
  {
    assert emitted + ([packet] + rest) == (emitted + [packet]) + rest;
  }

  method EmitPiece(h: Ipv4Header, payload: seq<u8>, offset: nat, bytes: nat, scratch: array<u8>) returns (packet: seq<u8>)
    requires offset + bytes <= |payload| <= MAXIMUM_PAYLOAD_BYTES && HEADER_BYTES + bytes <= scratch.Length
    modifies scratch
    ensures packet == PacketOf(h, Fragment(offset, payload[offset..offset + bytes], offset + bytes < |payload|))
  {
    var more := offset + bytes < |payload|;
    if offset / 8 > OFFSET_MASK {
      assert false;  // the payload is at most 65515 bytes
    }
    var f := Fragment(offset, payload[offset..offset + bytes], more);
    var status, packetBytes := BuildPacket(h.(flagsOffset := FlagsOffset(f)), f.payload, scratch);
    if status != Ok {
      assert false;  // the fragment fits the buffer
    }
    packet := scratch[..packetBytes];
  }

  /** Builds the next fragment. */
  method EmitNext(h: Ipv4Header, payload: seq<u8>, size: nat, offset: nat, scratch: array<u8>) returns (packet: seq<u8>, bytes: nat)
    requires 0 < size && offset < |payload| <= MAXIMUM_PAYLOAD_BYTES && HEADER_BYTES + size <= scratch.Length
    modifies scratch
    ensures 0 < bytes <= |payload| - offset
    ensures PacketsFrom(h, payload, size, offset) == [packet] + PacketsFrom(h, payload, size, offset + bytes)
  {
    bytes := Min(size, |payload| - offset);
    packet := EmitPiece(h, payload, offset, bytes, scratch);
    PacketsStep(h, payload, size, offset, bytes);
  }

  method EmitFragments(h: Ipv4Header, payload: seq<u8>, size: nat, scratch: array<u8>, accepts: nat -> bool)
    returns (status: Status, emitted: seq<seq<u8>>)
    requires 0 < size && HEADER_BYTES + size <= scratch.Length && |payload| <= MAXIMUM_PAYLOAD_BYTES
    modifies scratch
    ensures HandedOver(PacketsFrom(h, payload, size, 0), accepts, status, emitted)
  {
    hide PacketOf, Piece, Built;
    ghost var packets := PacketsFrom(h, payload, size, 0);
    var offset := 0;
    emitted := [];
    while offset < |payload|
      invariant Underway(packets, accepts, emitted, PacketsFrom(h, payload, size, offset))
      decreases |payload| - offset
    {
      var packet, bytes := EmitNext(h, payload, size, offset, scratch);
      HandOverStep(packets, accepts, emitted, packet, PacketsFrom(h, payload, size, offset + bytes));
      emitted := emitted + [packet];
      if !accepts(|emitted| - 1) {
        return CallbackRejected, emitted;
      }
      offset := offset + bytes;
    }
    return Ok, emitted;
  }

  /** The accepts function answers for the callback: its argument is the number of the packet. */
  datatype Sink = NoSink | Sink(accepts: nat -> bool)

  method FragmentPayload(h: Ipv4Header, payload: seq<u8>, mtu: nat, scratch: array<u8>, sink: Sink)
    returns (status: Status, emitted: seq<seq<u8>>)
    modifies scratch
    ensures sink.NoSink? ==> status == InvalidMtu && emitted == []
    ensures sink.Sink? ==>
              match PlanFor(h, payload, mtu, scratch.Length)
              case Refused(reason) => status == reason && emitted == []
              case Send(packets) => HandedOver(packets, sink.accepts, status, emitted)
  {
    if sink.NoSink? || mtu < HEADER_BYTES || scratch.Length < mtu {
      return InvalidMtu, [];
    }
    if |payload| > MAXIMUM_PAYLOAD_BYTES {
      return PayloadTooLarge, [];
    }
    if |payload| <= mtu - HEADER_BYTES {
      var packetBytes;
      status, packetBytes := BuildPacket(h.(flagsOffset := 0), payload, scratch);
      if status != Ok {
        assert false;  // the packet fits the buffer
      }
      emitted := [scratch[..packetBytes]];
      return if sink.accepts(0) then Ok else CallbackRejected, emitted;
    }
    var size := FragmentSize(mtu);
    if size == 0 {
      return InvalidMtu, [];
    }
    status, emitted := EmitFragments(h, payload, size, scratch, sink.accepts);
  }
}
