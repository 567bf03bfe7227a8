/**
 IPv4 headers without options (section 3.1 of RFC 791) and the Internet checksum
 (section 1 of RFC 1071).
 */
module Ipv4 {
  import opened Numbers
  import opened BigEndian
  import opened Layout

  const HEADER_BYTES: nat := 20
  const VERSION_AND_WORDS: u8 := 0x45
  const MAXIMUM_PAYLOAD_BYTES: nat := 65515

  datatype Ipv4Header = Ipv4Header(
    dscpEcn: u8, totalLength: u16, identification: u16, flagsOffset: u16, ttl: u8, protocol: u8,
    checksum: u16, source: u32, destination: u32)

  datatype Status =
    | Ok | Truncated | UnsupportedVersion | UnsupportedOptions | InvalidTotalLength | InvalidChecksum
    | PayloadTooLarge | OutputTooSmall | InvalidMtu | CallbackRejected

  datatype ParseResult = Parsed(header: Ipv4Header, payload: seq<u8>) | Rejected(status: Status)

  // ---- The checksum ----

  /** The sum of the 16-bit words, the last one filled up with a zero byte. */
  function WordSum(bytes: seq<u8>): nat {
    if bytes == [] then 0
    else if |bytes| == 1 then bytes[0] as int * 0x100
    else ReadU16(bytes, 0) + WordSum(bytes[2..])
  }

  lemma NoWords()
    ensures WordSum([]) == 0
  {
  }

  /** The ones'-complement sum: the representative modulo 65535, with 0 only for 0. */
  function OnesSum(total: nat): (r: nat)
    ensures r <= 0xFFFF && (r == 0 <==> total == 0) && r % 0xFFFF == total % 0xFFFF
  {
    if total == 0 then 0 else (total - 1) % 0xFFFF + 1
  }

  function Checksum(bytes: seq<u8>): u16 {
    0xFFFF - OnesSum(WordSum(bytes))
  }

  lemma OnesSumUnique(total: nat, r: nat)
    requires r <= 0xFFFF && (r == 0 <==> total == 0) && r % 0xFFFF == total % 0xFFFF
    ensures r == OnesSum(total)
  {
  }

  /** Adding to a ones'-complement sum. */
  lemma OnesSumAdd(total: nat, more: nat)
    ensures OnesSum(OnesSum(total) + more) == OnesSum(total + more)
  {
    var r := OnesSum(total);
    ModAdd(r, total, more);
    OnesSumUnique(total + more, OnesSum(r + more));
  }

  lemma ModAdd(a: nat, b: nat, c: nat)
    requires a % 0xFFFF == b % 0xFFFF
    ensures (a + c) % 0xFFFF == (b + c) % 0xFFFF
  {
  }

  /** Folding the carry back in once. */
  lemma FoldOnce(x: nat)
    requires x <= 0x1FFFE
    ensures x % 0x1_0000 + x / 0x1_0000 == OnesSum(x)
  {
  }

  lemma {:induction false} WordSumConcat(a: seq<u8>, b: seq<u8>)
    requires |a| % 2 == 0
    ensures WordSum(a + b) == WordSum(a) + WordSum(b)
    decreases |a|
  {
    if a == [] {
      assert a + b == b;
    } else {
      WordSumConcat(a[2..], b);
      assert (a + b)[2..] == a[2..] + b;
    }
  }

  /** An odd byte string has the checksum it would have with a zero byte behind it. */
  lemma OddIsPadded(bytes: seq<u8>)
    requires |bytes| % 2 == 1
    ensures Checksum(bytes) == Checksum(bytes + [0])
  {
    var n := |bytes| - 1;
    assert bytes == bytes[..n] + [bytes[n]] && bytes + [0] == bytes[..n] + [bytes[n], 0];
    WordSumConcat(bytes[..n], [bytes[n]]);
    WordSumConcat(bytes[..n], [bytes[n], 0]);
    assert [bytes[n], 0][2..] == [];
  }

  /** Two more bytes: their word is added and the carry folded in at once. */
  lemma AddWord(bytes: seq<u8>, offset: nat, sum: nat)
    requires offset % 2 == 0 && offset + 1 < |bytes| && sum == OnesSum(WordSum(bytes[..offset]))
    ensures var total := sum + ReadU16(bytes, offset);
            total % 0x1_0000 + total / 0x1_0000 == OnesSum(WordSum(bytes[..offset + 2]))
  {
    var word := ReadU16(bytes, offset);
    OnesSumAdd(WordSum(bytes[..offset]), word);
    FoldOnce(sum + word);
    assert bytes[..offset + 2] == bytes[..offset] + bytes[offset..offset + 2];
    WordSumConcat(bytes[..offset], bytes[offset..offset + 2]);
  }

  method SumWords(bytes: seq<u8>) returns (sum: u32, offset: nat)
    ensures offset == |bytes| / 2 * 2 && sum == OnesSum(WordSum(bytes[..offset]))
  {
    hide OnesSum, WordSum, ReadU16;
    sum, offset := 0, 0;
    assert bytes[..0] == [];
    NoWords();
    while offset + 1 < |bytes|
      invariant 0 <= offset <= |bytes| && offset % 2 == 0
      invariant sum == OnesSum(WordSum(bytes[..offset]))
    {
      AddWord(bytes, offset, sum);
      sum := sum as int + ReadU16(bytes, offset);
      sum := sum % 0x1_0000 + sum / 0x1_0000;
      offset := offset + 2;
    }
  }

  method FoldAll(start: u32) returns (sum: u32)
    requires start <= 0x1FFFE
    ensures sum == OnesSum(start)
  {
    sum := start;
    while sum / 0x1_0000 != 0
      invariant sum <= 0x1FFFE && OnesSum(sum) == OnesSum(start)
      decreases sum
    {
      FoldOnce(sum);
      OnesSumAdd(sum, 0);
      sum := sum % 0x1_0000 + sum / 0x1_0000;
    }
    FoldOnce(sum);
  }

  /** Words are added with their carries, then an odd byte, then the last carries are folded in. */
  method InternetChecksum(bytes: seq<u8>) returns (checksum: u16)
    ensures checksum == Checksum(bytes)
  {
    var sum, offset := SumWords(bytes);
    if offset < |bytes| {
      assert bytes == bytes[..offset] + [bytes[offset]];
      WordSumConcat(bytes[..offset], [bytes[offset]]);
      OnesSumAdd(WordSum(bytes[..offset]), bytes[offset] as int * 0x100);
      sum := sum as int + bytes[offset] as int * 0x100;
    } else {
      assert bytes == bytes[..offset];
      OnesSumAdd(WordSum(bytes), 0);
    }
    sum := FoldAll(sum);
    checksum := 0xFFFF - sum;
  }

  // ---- Headers ----

  /** Everything before the checksum. */
  function FrontBytes(h: Ipv4Header): (s: seq<u8>)
    ensures |s| == 10
  {
    [VERSION_AND_WORDS, h.dscpEcn] + U16Bytes(h.totalLength) + U16Bytes(h.identification) + U16Bytes(h.flagsOffset)
    + [h.ttl, h.protocol]
  }

  function HeaderBytes(h: Ipv4Header): (s: seq<u8>)
    ensures |s| == HEADER_BYTES
  {
    FrontBytes(h) + U16Bytes(h.checksum) + (U32Bytes(h.source) + U32Bytes(h.destination))
  }

  /** The header of a packet with the given payload length, its checksum filled in. */
  function Sealed(h: Ipv4Header, payloadBytes: nat): Ipv4Header
    requires payloadBytes <= MAXIMUM_PAYLOAD_BYTES
  {
    var blank := h.(totalLength := HEADER_BYTES + payloadBytes, checksum := 0);
    blank.(checksum := Checksum(HeaderBytes(blank)))
  }

  function Built(h: Ipv4Header, payload: seq<u8>): seq<u8>
    requires |payload| <= MAXIMUM_PAYLOAD_BYTES
  {
    HeaderBytes(Sealed(h, |payload|)) + payload
  }

  function ReadHeader(p: seq<u8>): Ipv4Header
    requires HEADER_BYTES <= |p|
  {
    Ipv4Header(p[1], ReadU16(p, 2), ReadU16(p, 4), ReadU16(p, 6), p[8], p[9], ReadU16(p, 10), ReadU32(p, 12), ReadU32(p, 16))
  }

  function Parse(p: seq<u8>): ParseResult {
    if |p| < HEADER_BYTES then Rejected(Truncated)
    else if p[0] / 16 != 4 then Rejected(UnsupportedVersion)
    else if p[0] % 16 != 5 then Rejected(UnsupportedOptions)
    else if ReadU16(p, 2) < HEADER_BYTES || ReadU16(p, 2) > |p| then Rejected(InvalidTotalLength)
    else if Checksum(p[..HEADER_BYTES]) != 0 then Rejected(InvalidChecksum)
    else Parsed(ReadHeader(p), p[HEADER_BYTES..ReadU16(p, 2)])
  }

  lemma SumOfTwo(v: u16)
    ensures WordSum(U16Bytes(v)) == v
  {
    assert U16Bytes(v)[2..] == [];
  }

  /** The checksum field adds itself to the sum of the rest. */
  lemma SumWithChecksum(h: Ipv4Header)
    ensures WordSum(HeaderBytes(h)) == WordSum(HeaderBytes(h.(checksum := 0))) + h.checksum
  {
    var after := U32Bytes(h.source) + U32Bytes(h.destination);
    assert FrontBytes(h.(checksum := 0)) == FrontBytes(h);
    ThreeParts(FrontBytes(h), h.checksum, after);
    ThreeParts(FrontBytes(h), 0, after);
  }

  lemma ThreeParts(before: seq<u8>, v: u16, after: seq<u8>)
    requires |before| % 2 == 0
    ensures WordSum(before + U16Bytes(v) + after) == WordSum(before) + v + WordSum(after)
  {
    WordSumConcat(before + U16Bytes(v), after);
    WordSumConcat(before, U16Bytes(v));
    SumOfTwo(v);
  }

  /** A checksum field is right exactly when it completes the sum to a multiple of 65535. */
  lemma VerifiesExactly(h: Ipv4Header)
    ensures Checksum(HeaderBytes(h)) == 0 <==>
            h.checksum % 0xFFFF == Checksum(HeaderBytes(h.(checksum := 0))) % 0xFFFF
  {
    SumWithChecksum(h);
    var rest := WordSum(HeaderBytes(h.(checksum := 0)));
    HeaderSumPositive(h.(checksum := 0));
    CompletesSum(rest, h.checksum);
  }

  lemma CompletesSum(rest: nat, c: nat)
    requires rest > 0
    ensures OnesSum(rest + c) == 0xFFFF <==> c % 0xFFFF == (0xFFFF - OnesSum(rest)) % 0xFFFF
  {
    hide OnesSum;
    FullSum(rest + c);
    ModAdd(OnesSum(rest), rest, c);
    Complement(OnesSum(rest), c);
  }

  lemma FullSum(total: nat)
    requires total > 0
    ensures OnesSum(total) == 0xFFFF <==> total % 0xFFFF == 0
  {
  }

  lemma Complement(r: nat, c: nat)
    requires r <= 0xFFFF
    ensures (r + c) % 0xFFFF == 0 <==> c % 0xFFFF == (0xFFFF - r) % 0xFFFF
  {
  }

  lemma HeaderSumPositive(h: Ipv4Header)
    ensures WordSum(HeaderBytes(h)) > 0
  {
    assert HeaderBytes(h)[0] == VERSION_AND_WORDS;
  }

  lemma ReadOfHeader(h: Ipv4Header, rest: seq<u8>)
    ensures ReadHeader(HeaderBytes(h) + rest) == h
    ensures (HeaderBytes(h) + rest)[0] == VERSION_AND_WORDS
  {
    var p := HeaderBytes(h) + rest;
    assert HoldsAt(p, 12, U32Bytes(h.source)) && HoldsAt(p, 16, U32Bytes(h.destination));
    ReadOfU32(h.source, p, 12);
    ReadOfU32(h.destination, p, 16);
    assert p[2] == h.totalLength / 0x100 && p[3] == h.totalLength % 0x100;
    assert p[4] == h.identification / 0x100 && p[5] == h.identification % 0x100;
    assert p[6] == h.flagsOffset / 0x100 && p[7] == h.flagsOffset % 0x100;
    assert p[10] == h.checksum / 0x100 && p[11] == h.checksum % 0x100;
  }

  lemma HeaderOfRead(p: seq<u8>)
    requires HEADER_BYTES <= |p| && p[0] == VERSION_AND_WORDS
    ensures HeaderBytes(ReadHeader(p)) == p[..HEADER_BYTES]
  {
    U16OfRead(p, 2);
    U16OfRead(p, 4);
    U16OfRead(p, 6);
    U16OfRead(p, 10);
    U32OfRead(p, 12);
    U32OfRead(p, 16);
    assert p[..20] == [p[0], p[1]] + p[2..4] + p[4..6] + p[6..8] + [p[8], p[9]] + p[10..12] + (p[12..16] + p[16..20]);
  }

  /** A built packet, with any padding behind it, parses to its own fields and payload. */
  lemma ParseOfBuilt(h: Ipv4Header, payload: seq<u8>, padding: seq<u8>)
    requires |payload| <= MAXIMUM_PAYLOAD_BYTES
    ensures Parse(Built(h, payload) + padding) == Parsed(Sealed(h, |payload|), payload)
  {
    var sealed := Sealed(h, |payload|);
    var p := Built(h, payload) + padding;
    assert p == HeaderBytes(sealed) + (payload + padding);
    ReadOfHeader(sealed, payload + padding);
    VerifiesExactly(sealed);
    assert p[..HEADER_BYTES] == HeaderBytes(sealed);
    assert p[HEADER_BYTES..sealed.totalLength] == payload;
  }

  /** Building from what was parsed gives back the packet, except when its checksum is the other zero. */
  lemma BuiltOfParse(p: seq<u8>)
    requires Parse(p).Parsed?
    ensures var Parsed(h, payload) := Parse(p);
            && |payload| <= MAXIMUM_PAYLOAD_BYTES && h.totalLength == HEADER_BYTES + |payload| <= |p|
            && (Built(h, payload) == p[..h.totalLength] <==> h.checksum != 0xFFFF)
  {
    var Parsed(h, payload) := Parse(p);
    HeaderOfRead(p);
    SealedAgain(h, payload);
    assert p[..h.totalLength] == HeaderBytes(h) + payload;
  }

  /** Sealing a header whose checksum is right changes nothing, unless the checksum is the other zero. */
  lemma SealedAgain(h: Ipv4Header, payload: seq<u8>)
    requires Checksum(HeaderBytes(h)) == 0 && |payload| <= MAXIMUM_PAYLOAD_BYTES && h.totalLength == HEADER_BYTES + |payload|
    ensures Built(h, payload) == HeaderBytes(h) + payload <==> h.checksum != 0xFFFF
  {
    SealedIs(h, |payload|);
    HeaderIsFront(h, payload);
    HeaderIsFront(Sealed(h, |payload|), payload);
  }

  lemma SealedIs(h: Ipv4Header, payloadBytes: nat)
    requires Checksum(HeaderBytes(h)) == 0 && payloadBytes <= MAXIMUM_PAYLOAD_BYTES && h.totalLength == HEADER_BYTES + payloadBytes
    ensures Sealed(h, payloadBytes) == h.(checksum := if h.checksum == 0xFFFF then 0 else h.checksum)
  {
    VerifiesExactly(h);
    HeaderSumPositive(h.(checksum := 0));
    assert h.(checksum := 0) == h.(totalLength := HEADER_BYTES + payloadBytes, checksum := 0);
    SameChecksum(h.checksum, Checksum(HeaderBytes(h.(checksum := 0))));
  }

  lemma SameChecksum(a: u16, b: u16)
    requires a % 0xFFFF == b % 0xFFFF && b < 0xFFFF
    ensures b == if a == 0xFFFF then 0 else a
  {
  }

  lemma HeaderIsFront(h: Ipv4Header, payload: seq<u8>)
    ensures (HeaderBytes(h) + payload)[..HEADER_BYTES] == HeaderBytes(h) && ReadHeader(HeaderBytes(h) + payload) == h
  {
    ReadOfHeader(h, payload);
  }

  // ---- Where everything lies ----

  /**
   The fields other than the checksum lie at the front of the packet as in section 3.1 of RFC 791: version 4 and
   five words, no options.
   */
  predicate LaysOut(p: seq<u8>, h: Ipv4Header) {
    LaysOutWith(p, h, h.totalLength, h.flagsOffset)
  }

  /** The same with another length, flags and fragment offset. */
  predicate LaysOutWith(p: seq<u8>, h: Ipv4Header, length: int, flagsOffset: int) {
    && Byte(p, 0, 0x45) && Byte(p, 1, h.dscpEcn) && Two(p, 2, length)
    && Two(p, 4, h.identification) && Two(p, 6, flagsOffset)
    && Byte(p, 8, h.ttl) && Byte(p, 9, h.protocol)
    && Four(p, 12, h.source) && Four(p, 16, h.destination)
  }

  /** The sum of the ten words of the header. */
  function TenWords(p: seq<u8>): nat
    requires 20 <= |p|
  {
    256 * (p[0] as int + p[2] + p[4] + p[6] + p[8] + p[10] + p[12] + p[14] + p[16] + p[18])
    + p[1] + p[3] + p[5] + p[7] + p[9] + p[11] + p[13] + p[15] + p[17] + p[19]
  }

  predicate AddsUp(p: seq<u8>)
    requires 20 <= |p|
  {
    TenWords(p) % 65535 == 0
  }

  /** What a packet must be to be accepted. */
  predicate Acceptable(p: seq<u8>) {
    20 <= |p| && p[0] == 0x45 && 20 <= 256 * p[2] as int + p[3] <= |p| && AddsUp(p)
  }

  lemma WordSumStep(p: seq<u8>, k: nat)
    requires k + 2 <= 20 <= |p|
    ensures WordSum(p[k..20]) == 256 * p[k] as int + p[k + 1] + WordSum(p[k + 2..20])
  {
    assert p[k..20][2..] == p[k + 2..20] && p[k..20][0] == p[k] && p[k..20][1] == p[k + 1];
  }

  lemma SumIsTenWords(p: seq<u8>)
    requires 20 <= |p|
    ensures WordSum(p[..HEADER_BYTES]) == TenWords(p)
  {
    hide WordSum;
    WordSumStep(p, 0); WordSumStep(p, 2); WordSumStep(p, 4); WordSumStep(p, 6); WordSumStep(p, 8);
    WordSumStep(p, 10); WordSumStep(p, 12); WordSumStep(p, 14); WordSumStep(p, 16); WordSumStep(p, 18);
    NoWords();
    assert p[20..20] == [] && p[0..20] == p[..HEADER_BYTES];
  }

  lemma VerifiesIsAddsUp(p: seq<u8>)
    requires 20 <= |p| && p[0] == 0x45
    ensures Checksum(p[..HEADER_BYTES]) == 0 <==> AddsUp(p)
  {
    hide WordSum, OnesSum;
    SumIsTenWords(p);
    FullSum(TenWords(p));
  }

  lemma ReadLaysOut(p: seq<u8>)
    requires HEADER_BYTES <= |p| && p[0] == VERSION_AND_WORDS
    ensures LaysOut(p, ReadHeader(p)) && Two(p, 10, ReadHeader(p).checksum)
  {
    hide ReadU16, ReadU32, Two, Four;
    ReadIsLaidOut(p, 2);
    ReadIsLaidOut(p, 4);
    ReadIsLaidOut(p, 6);
    ReadIsLaidOut(p, 10);
    ReadIsLaidOut(p, 12);
    ReadIsLaidOut(p, 16);
  }

  /** A built packet has every field of the header at its place, the length, a checksum that adds up, and the payload. */
  lemma BuiltLaysOut(h: Ipv4Header, payload: seq<u8>)
    requires |payload| <= MAXIMUM_PAYLOAD_BYTES
    ensures var p := Built(h, payload);
            && |p| == 20 + |payload| && LaysOut(p, h.(totalLength := 20 + |payload|)) && p[20..] == payload
            && AddsUp(p) && !Two(p, 10, 0xFFFF)
  {
    hide Checksum, HeaderBytes, ReadHeader, AddsUp, WordSum, Four;
    var sealed, p := Sealed(h, |payload|), Built(h, payload);
    ReadOfHeader(sealed, payload);
    ReadLaysOut(p);
    VerifiesExactly(sealed);
    assert p[..HEADER_BYTES] == HeaderBytes(sealed);
    VerifiesIsAddsUp(p);
    SealedChecksum(h, |payload|);
  }

  lemma LaysOutLonger(p: seq<u8>, longer: seq<u8>, h: Ipv4Header)
    requires LaysOut(p, h) && AddsUp(p) && !Two(p, 10, 0xFFFF) && p <= longer
    ensures LaysOut(longer, h) && AddsUp(longer) && !Two(longer, 10, 0xFFFF) && longer[20..|p|] == p[20..]
  {
  }

  lemma SealedChecksum(h: Ipv4Header, payloadBytes: nat)
    requires payloadBytes <= MAXIMUM_PAYLOAD_BYTES
    ensures Sealed(h, payloadBytes).checksum != 0xFFFF
  {
    HeaderSumPositive(h.(totalLength := HEADER_BYTES + payloadBytes, checksum := 0));
  }

  /** Exactly the acceptable packets are accepted, every field is read from its place, and the payload is what the length says. */
  lemma ParseLaysOut(p: seq<u8>)
    ensures Parse(p).Parsed? <==> Acceptable(p)
    ensures Parse(p).Parsed? ==>
              var Parsed(h, payload) := Parse(p);
              LaysOut(p, h) && Two(p, 10, h.checksum) && h.totalLength <= |p| && payload == p[20..h.totalLength]
    ensures Parse(p) == Rejected(Truncated) <==> |p| < 20
    ensures Parse(p) == Rejected(UnsupportedVersion) <==> 20 <= |p| && !(64 <= p[0] < 80)
    ensures Parse(p) == Rejected(UnsupportedOptions) <==> 20 <= |p| && 64 <= p[0] < 80 && p[0] != 69
    ensures Parse(p) == Rejected(InvalidTotalLength) <==> 20 <= |p| && p[0] == 69 && !(20 <= 256 * p[2] as int + p[3] <= |p|)
  {
    hide ReadHeader, Checksum, AddsUp, LaysOut;
    if HEADER_BYTES <= |p| {
      LengthIsRead(p);
      if p[0] == VERSION_AND_WORDS {
        VerifiesIsAddsUp(p);
        ReadLaysOut(p);
      }
    }
  }

  lemma LengthIsRead(p: seq<u8>)
    requires HEADER_BYTES <= |p|
    ensures ReadHeader(p).totalLength == ReadU16(p, 2) == 256 * p[2] as int + p[3]
  {
  }

  // ---- The implementation ----

  method ParsePacket(packet: seq<u8>) returns (result: ParseResult)
    ensures result == Parse(packet)
    ensures result.Parsed? <==> Acceptable(packet)
    ensures result.Parsed? ==> LaysOut(packet, result.header) && Two(packet, 10, result.header.checksum)
                               && result.header.totalLength <= |packet|
                               && result.payload == packet[20..result.header.totalLength]
  {
    hide LaysOut, Acceptable, ReadHeader, Checksum;
    ParseLaysOut(packet);
    if |packet| < HEADER_BYTES {
      return Rejected(Truncated);
    }
    if packet[0] / 16 != 4 {
      return Rejected(UnsupportedVersion);
    }
    if packet[0] % 16 != 5 {
      return Rejected(UnsupportedOptions);
    }
    var totalLength := ReadU16(packet, 2);
    if totalLength < HEADER_BYTES || totalLength > |packet| {
      return Rejected(InvalidTotalLength);
    }
    var checksum := InternetChecksum(packet[..HEADER_BYTES]);
    if checksum != 0 {
      return Rejected(InvalidChecksum);
    }
    return Parsed(ReadHeader(packet), packet[HEADER_BYTES..totalLength]);
  }

  method WriteFront(h: Ipv4Header, output: array<u8>)
    requires HEADER_BYTES <= output.Length
    modifies output
    ensures output[..12] == FrontBytes(h) + U16Bytes(h.checksum) && output[12..] == old(output[12..])
  {
    output[0], output[1] := VERSION_AND_WORDS, h.dscpEcn;
    output[2], output[3] := h.totalLength / 0x100, h.totalLength % 0x100;
    output[4], output[5] := h.identification / 0x100, h.identification % 0x100;
    output[6], output[7] := h.flagsOffset / 0x100, h.flagsOffset % 0x100;
    output[8], output[9] := h.ttl, h.protocol;
    output[10], output[11] := h.checksum / 0x100, h.checksum % 0x100;
  }

  method WriteHeader(h: Ipv4Header, output: array<u8>)
    requires HEADER_BYTES <= output.Length
    modifies output
    ensures output[..] == HeaderBytes(h) + old(output[HEADER_BYTES..])
  {
    WriteFront(h, output);
    ghost var front := output[..];
    assert front[20..] == output[12..][8..] == old(output[12..])[8..] == old(output[20..]);
    WriteU32(output, 12, h.source);
    ghost var most := output[..];
    assert most[..16] == front[..12] + U32Bytes(h.source) && most[20..] == front[20..];
    WriteU32(output, 16, h.destination);
    assert output[..] == front[..12] + U32Bytes(h.source) + U32Bytes(h.destination) + front[20..];
  }

  /** Writes the packet to the front of the output: a header with a zero checksum first, then the checksum of that. */
  method BuildPacket(h: Ipv4Header, payload: seq<u8>, output: array<u8>) returns (status: Status, packetBytes: nat)
    modifies output
    ensures status == if |payload| > MAXIMUM_PAYLOAD_BYTES then PayloadTooLarge
                      else if output.Length < HEADER_BYTES + |payload| then OutputTooSmall else Ok
    ensures status == Ok ==> packetBytes == HEADER_BYTES + |payload|
                             && output[..] == Built(h, payload) + old(output[..])[packetBytes..]
    ensures status == Ok ==> LaysOut(output[..], h.(totalLength := packetBytes)) && output[20..packetBytes] == payload
                             && AddsUp(output[..]) && !Two(output[..], 10, 0xFFFF)
    ensures status != Ok ==> packetBytes == 0 && output[..] == old(output[..])
  {
    hide LaysOut, AddsUp;
    if |payload| > MAXIMUM_PAYLOAD_BYTES {
      return PayloadTooLarge, 0;
    }
    var required := HEADER_BYTES + |payload|;
    if output.Length < required {
      return OutputTooSmall, 0;
    }
    var blank := h.(totalLength := required, checksum := 0);
    WriteHeader(blank, output);
    assert output[..HEADER_BYTES] == HeaderBytes(blank);
    var checksum := InternetChecksum(output[..HEADER_BYTES]);
    WriteHeader(blank.(checksum := checksum), output);
    assert output[HEADER_BYTES..] == old(output[HEADER_BYTES..]) && output[..HEADER_BYTES] == HeaderBytes(Sealed(h, |payload|));
    assert output[HEADER_BYTES..][|payload|..] == output[required..];
    CopyPayload(payload, output, HEADER_BYTES);
    assert output[..] == Built(h, payload) + old(output[..])[required..];
    BuiltLaysOut(h, payload);
    LaysOutLonger(Built(h, payload), output[..], h.(totalLength := required));
    return Ok, required;
  }

  method CopyPayload(payload: seq<u8>, output: array<u8>, at: nat)
    requires at + |payload| <= output.Length
    modifies output
    ensures output[..] == old(output[..at]) + payload + old(output[at + |payload|..])
  {
    for i := 0 to |payload|
      invariant forall j :: 0 <= j < i ==> output[at + j] == payload[j]
      invariant forall j :: 0 <= j < at ==> output[j] == old(output[j])
      invariant forall j :: at + i <= j < output.Length ==> output[j] == old(output[j])
    {
      output[at + i] := payload[i];
    }
  }
}
