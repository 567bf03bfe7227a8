/** ARP messages for IPv4 over Ethernet (RFC 826). */
module ArpWire {
  import opened Numbers
  import opened BigEndian
  import opened Layout
  import opened ArpModel

  const ARP_BYTES: nat := 28
  const HARDWARE_ETHERNET: u16 := 1
  const PROTOCOL_IPV4: u16 := 0x0800

  datatype ParseResult = Parsed(message: ArpMessage) | Rejected(status: ArpStatus)

  function Code(operation: Operation): u16 {
    if operation.Request? then 1 else 2
  }

  function Front(operation: Operation): (s: seq<u8>)
    ensures |s| == 8
  {
    U16Bytes(HARDWARE_ETHERNET) + U16Bytes(PROTOCOL_IPV4) + [6, 4] + U16Bytes(Code(operation))
  }

  function Built(m: ArpMessage): (s: seq<u8>)
    ensures |s| == ARP_BYTES
  {
    Front(m.operation) + m.senderHardware + U32Bytes(m.senderProtocol) + m.targetHardware + U32Bytes(m.targetProtocol)
  }

  function Parse(p: seq<u8>): ParseResult {
    if |p| < ARP_BYTES then Rejected(Malformed)
    else if ReadU16(p, 0) != HARDWARE_ETHERNET || ReadU16(p, 2) != PROTOCOL_IPV4 || p[4] != 6 || p[5] != 4 then Rejected(Unsupported)
    else if ReadU16(p, 6) != 1 && ReadU16(p, 6) != 2 then Rejected(Unsupported)
    else Parsed(ArpMessage(if ReadU16(p, 6) == 1 then Request else Reply, p[8..14], ReadU32(p, 14), p[18..24], ReadU32(p, 24)))
  }

  /** The message lies at the front of the bytes as RFC 826 has it, for 6-byte hardware and 4-byte protocol addresses. */
  predicate LaysOut(p: seq<u8>, m: ArpMessage) {
    && |p| >= 28 && Two(p, 0, 1) && Two(p, 2, 0x0800) && Byte(p, 4, 6) && Byte(p, 5, 4)
    && Two(p, 6, if m.operation.Request? then 1 else 2)
    && p[8..14] == m.senderHardware && Four(p, 14, m.senderProtocol)
    && p[18..24] == m.targetHardware && Four(p, 24, m.targetProtocol)
  }

  /** Bytes are accepted exactly when some message lies at their front, and that is the message. */
  lemma ParseLaysOut(p: seq<u8>)
    ensures Parse(p).Parsed? ==> LaysOut(p, Parse(p).message)
    ensures forall m :: LaysOut(p, m) ==> Parse(p) == Parsed(m)
    ensures Parse(p) == Rejected(Malformed) <==> |p| < 28
  {
    if |p| >= 28 {
      ReadIsLaidOut(p, 0);
      ReadIsLaidOut(p, 2);
      ReadIsLaidOut(p, 6);
      ReadIsLaidOut(p, 14);
      ReadIsLaidOut(p, 24);
    }
  }

  /** A built message has every field at its place. */
  lemma BuiltLaysOut(m: ArpMessage)
    ensures LaysOut(Built(m), m)
  {
    hide Built, Parse, LaysOut;
    ParseOfBuilt(m, []);
    assert Built(m) + [] == Built(m);
    ParseLaysOut(Built(m));
  }

  /** A built message, with any padding behind it, parses to itself. */
  lemma ParseOfBuilt(m: ArpMessage, padding: seq<u8>)
    ensures Parse(Built(m) + padding) == Parsed(m)
  {
    var p := Built(m) + padding;
    assert p[..8] == Front(m.operation) && p[8..14] == m.senderHardware && p[18..24] == m.targetHardware;
    assert HoldsAt(p, 14, U32Bytes(m.senderProtocol)) && HoldsAt(p, 24, U32Bytes(m.targetProtocol));
    ReadOfU32(m.senderProtocol, p, 14);
    ReadOfU32(m.targetProtocol, p, 24);
    assert forall i :: 0 <= i < 8 ==> p[i] == p[..8][i];
  }

  /** Building what was parsed gives back the bytes that were read. */
  lemma BuiltOfParse(p: seq<u8>)
    requires Parse(p).Parsed?
    ensures Built(Parse(p).message) == p[..ARP_BYTES]
  {
    hide U16Bytes, U32Bytes, ReadU16, ReadU32, FromDigits;
    var m := Parse(p).message;
    U16OfRead(p, 0);
    U16OfRead(p, 2);
    U16OfRead(p, 6);
    U32OfRead(p, 14);
    U32OfRead(p, 24);
    assert Front(m.operation) == p[..8] by {
      assert p[..8] == p[0..2] + p[2..4] + [p[4], p[5]] + p[6..8];
    }
    assert p[..28] == p[..8] + p[8..14] + p[14..18] + p[18..24] + p[24..28];
  }
}
