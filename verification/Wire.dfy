/**
 The transport header on the wire: a fixed part of twelve bytes in network byte
 order, followed by up to four SACK blocks of eight bytes each.
 */
module Wire {
  import opened Numbers
  import opened BigEndian
  import opened Layout

  const FIXED_HEADER_BYTES: nat := 12
  const SACK_BLOCK_BYTES: nat := 8
  const MAXIMUM_SACK_BLOCKS: nat := 4
  const MAXIMUM_HEADER_BYTES: nat := FIXED_HEADER_BYTES + MAXIMUM_SACK_BLOCKS * SACK_BLOCK_BYTES
  const FLAG_ACK: u8 := 2
  /** SYN, ACK, FIN and RST are the four low bits; a byte with any other bit set is at least 16. */
  const KNOWN_FLAGS: u8 := 15

  datatype SackBlock = SackBlock(start: u32, end: u32)

  const NO_BLOCK := SackBlock(0, 0)

  datatype Fields = Fields(
    sequence: u32, cumulativeAck: u32, flags: u8, sackCount: u8, window: u16, sacks: seq<SackBlock>)

  /** A header always has room for four blocks; `sackCount` says how many are in use. */
  type TransportHeader = f: Fields | |f.sacks| == MAXIMUM_SACK_BLOCKS
    witness Fields(0, 0, 0, 0, 0, [NO_BLOCK, NO_BLOCK, NO_BLOCK, NO_BLOCK])

  datatype WireStatus = Ok | BufferTooSmall | InvalidFlags | TooManySacks | InvalidSackRange

  datatype ParseResult = Parsed(header: TransportHeader, consumed: nat) | Rejected(status: WireStatus)

  function OneBlock(block: SackBlock): (s: seq<u8>)
    ensures |s| == SACK_BLOCK_BYTES
  {
    U32Bytes(block.start) + U32Bytes(block.end)
  }

  function BlockBytes(blocks: seq<SackBlock>): (s: seq<u8>)
    ensures |s| == |blocks| * SACK_BLOCK_BYTES
  {
    if blocks == [] then []
    else BlockBytes(blocks[..|blocks| - 1]) + OneBlock(blocks[|blocks| - 1])
  }

  function ReadBlock(s: seq<u8>, at: nat): SackBlock
    requires at + SACK_BLOCK_BYTES <= |s|
  {
    SackBlock(ReadU32(s, at), ReadU32(s, at + 4))
  }

  function ReadBlocks(s: seq<u8>, at: nat, count: nat): (blocks: seq<SackBlock>)
    requires at + count * SACK_BLOCK_BYTES <= |s|
    ensures |blocks| == count
  {
    if count == 0 then []
    else
      ReadBlocks(s, at, count - 1) +
      [ReadBlock(s, at + (count - 1) * SACK_BLOCK_BYTES)]
  }

  function Padded(blocks: seq<SackBlock>): (s: seq<SackBlock>)
    requires |blocks| <= MAXIMUM_SACK_BLOCKS
    ensures |s| == MAXIMUM_SACK_BLOCKS
  {
    blocks + seq(MAXIMUM_SACK_BLOCKS - |blocks|, _ => NO_BLOCK)
  }

  function Validate(h: TransportHeader): WireStatus {
    if h.flags > KNOWN_FLAGS then InvalidFlags
    else if h.sackCount > MAXIMUM_SACK_BLOCKS then TooManySacks
    else if exists i :: 0 <= i < h.sackCount && h.sacks[i].start == h.sacks[i].end then InvalidSackRange
    else Ok
  }

  function NeededBytes(sackCount: u8): nat {
    FIXED_HEADER_BYTES + sackCount * SACK_BLOCK_BYTES
  }

  function FixedBytes(h: TransportHeader): (s: seq<u8>)
    ensures |s| == FIXED_HEADER_BYTES
  {
    U32Bytes(h.sequence) + U32Bytes(h.cumulativeAck) + [h.flags, h.sackCount] + U16Bytes(h.window)
  }

  /** The bytes of a valid header. */
  function Serialized(h: TransportHeader): (s: seq<u8>)
    requires Validate(h) == Ok
    ensures |s| == NeededBytes(h.sackCount)
  {
    FixedBytes(h) + BlockBytes(h.sacks[..h.sackCount])
  }

  function ReadFixed(s: seq<u8>, sacks: seq<SackBlock>): TransportHeader
    requires |s| >= FIXED_HEADER_BYTES && |sacks| == MAXIMUM_SACK_BLOCKS
  {
    Fields(ReadU32(s, 0), ReadU32(s, 4), s[8], s[9], ReadU16(s, 10), sacks)
  }

  function Parse(s: seq<u8>): ParseResult {
    if |s| < FIXED_HEADER_BYTES then Rejected(BufferTooSmall)
    else if s[9] > MAXIMUM_SACK_BLOCKS then Rejected(TooManySacks)
    else if |s| < NeededBytes(s[9]) then Rejected(BufferTooSmall)
    else
      var h := ReadFixed(s, Padded(ReadBlocks(s, FIXED_HEADER_BYTES, s[9])));
      if Validate(h) != Ok then Rejected(Validate(h)) else Parsed(h, NeededBytes(s[9]))
  }

  // ---- Both directions of the codec ----

  lemma {:induction false} ReadOfBlocks(blocks: seq<SackBlock>, s: seq<u8>, at: nat)
    requires HoldsAt(s, at, BlockBytes(blocks))
    ensures ReadBlocks(s, at, |blocks|) == blocks
    decreases |blocks|
  {
    hide U32Bytes, ReadU32, HoldsAt;
    if blocks != [] {
      var init, b := blocks[..|blocks| - 1], blocks[|blocks| - 1];
      HoldsAtParts(s, at, BlockBytes(init), OneBlock(b));
      HoldsAtParts(s, at + |BlockBytes(init)|, U32Bytes(b.start), U32Bytes(b.end));
      ReadOfBlocks(init, s, at);
      ReadOfU32(b.start, s, at + |BlockBytes(init)|);
      ReadOfU32(b.end, s, at + |BlockBytes(init)| + 4);
    }
  }

  lemma BlockOfRead(s: seq<u8>, at: nat)
    requires at + SACK_BLOCK_BYTES <= |s|
    ensures OneBlock(ReadBlock(s, at)) == s[at..at + SACK_BLOCK_BYTES]
  {
    U32OfRead(s, at);
    U32OfRead(s, at + 4);
  }

  lemma {:induction false} BlocksOfRead(s: seq<u8>, at: nat, count: nat)
    requires at + count * SACK_BLOCK_BYTES <= |s|
    ensures BlockBytes(ReadBlocks(s, at, count)) == s[at..at + count * SACK_BLOCK_BYTES]
    decreases count
  {
    if count > 0 {
      var from := at + (count - 1) * SACK_BLOCK_BYTES;
      BlocksOfRead(s, at, count - 1);
      BlockOfRead(s, from);
      var blocks := ReadBlocks(s, at, count);
      assert blocks[..count - 1] == ReadBlocks(s, at, count - 1);
      assert s[at..from] + s[from..from + 8] == s[at..at + count * SACK_BLOCK_BYTES];
    }
  }

  /** Reading the fixed part of a header back. */
  lemma ReadOfFixed(h: TransportHeader, rest: seq<u8>, sacks: seq<SackBlock>)
    requires |sacks| == MAXIMUM_SACK_BLOCKS
    ensures ReadFixed(FixedBytes(h) + rest, sacks) == h.(sacks := sacks)
  {
    var s := FixedBytes(h) + rest;
    assert HoldsAt(s, 0, U32Bytes(h.sequence));
    assert HoldsAt(s, 4, U32Bytes(h.cumulativeAck));
    ReadOfU32(h.sequence, s, 0);
    ReadOfU32(h.cumulativeAck, s, 4);
    assert s[10] == h.window / 0x100 && s[11] == h.window % 0x100;
  }

  lemma FixedOfRead(s: seq<u8>, sacks: seq<SackBlock>)
    requires |s| >= FIXED_HEADER_BYTES && |sacks| == MAXIMUM_SACK_BLOCKS
    ensures FixedBytes(ReadFixed(s, sacks)) == s[..FIXED_HEADER_BYTES]
  {
    U32OfRead(s, 0);
    U32OfRead(s, 4);
    U16OfRead(s, 10);
    assert s[..12] == s[0..4] + s[4..8] + [s[8], s[9]] + s[10..12];
  }

  /** Parsing a serialized header followed by any payload gives back the header and its exact length. */
  lemma ParseOfSerialized(h: TransportHeader, payload: seq<u8>)
    requires Validate(h) == Ok
    ensures Parse(Serialized(h) + payload)
         == Parsed(h.(sacks := Padded(h.sacks[..h.sackCount])), |Serialized(h)|)
  {
    hide U32Bytes, U16Bytes, ReadU32, ReadU16, BlockBytes, ReadBlocks;
    var s := Serialized(h) + payload;
    var blocks := h.sacks[..h.sackCount];
    assert s == FixedBytes(h) + (BlockBytes(blocks) + payload);
    assert s[8] == FixedBytes(h)[8] == h.flags && s[9] == FixedBytes(h)[9] == h.sackCount;
    assert HoldsAt(s, 12, BlockBytes(blocks));
    ReadOfBlocks(blocks, s, 12);
    ReadOfFixed(h, BlockBytes(blocks) + payload, Padded(blocks));
    assert forall i :: 0 <= i < h.sackCount ==> Padded(blocks)[i] == h.sacks[i];
  }

  /** Serializing any header that the parser accepts reproduces exactly the bytes it consumed. */
  lemma SerializedOfParse(s: seq<u8>)
    requires Parse(s).Parsed?
    ensures var Parsed(h, consumed) := Parse(s);
            && consumed <= |s| && Validate(h) == Ok && Serialized(h) == s[..consumed]
            && h.sacks == Padded(h.sacks[..h.sackCount])
  {
    var Parsed(h, consumed) := Parse(s);
    var count: nat := s[9];
    var blocks := ReadBlocks(s, 12, count);
    assert h.sacks[..count] == blocks;
    BlocksOfRead(s, 12, count);
    FixedOfRead(s, Padded(blocks));
    assert s[..consumed] == s[..12] + s[12..consumed];
  }

  // ---- Where everything lies ----

  /** The bytes from `at` on are a block. */
  predicate BlockAt(s: seq<u8>, at: nat, block: SackBlock) {
    Four(s, at, block.start) && Four(s, at + 4, block.end)
  }

  /** Every field of the header at its place, and behind it the blocks in use, eight bytes each. */
  predicate LaysOut(s: seq<u8>, h: TransportHeader) {
    && Four(s, 0, h.sequence) && Four(s, 4, h.cumulativeAck) && Byte(s, 8, h.flags) && Byte(s, 9, h.sackCount)
    && Two(s, 10, h.window)
    && h.sackCount <= 4 && 12 + 8 * h.sackCount <= |s|
    && (forall i :: 0 <= i < h.sackCount ==> BlockAt(s, 12 + 8 * i, h.sacks[i]))
  }

  lemma {:induction false} ReadBlocksAt(s: seq<u8>, at: nat, count: nat, i: nat)
    requires i < count && at + count * SACK_BLOCK_BYTES <= |s|
    ensures BlockAt(s, at + 8 * i, ReadBlocks(s, at, count)[i])
    decreases count
  {
    hide Four, ReadU32;
    if i == count - 1 {
      ReadIsLaidOut(s, at + 8 * i);
      ReadIsLaidOut(s, at + 8 * i + 4);
    } else {
      ReadBlocksAt(s, at, count - 1, i);
    }
  }

  /** The parser takes every field from its place, and so many bytes as the count of blocks says. */
  lemma ParseLaysOut(s: seq<u8>)
    ensures Parse(s).Parsed? ==>
              var Parsed(h, consumed) := Parse(s);
              && LaysOut(s, h) && consumed == 12 + 8 * h.sackCount && h.flags < 16
              && (forall i :: 0 <= i < h.sackCount ==> h.sacks[i].start != h.sacks[i].end)
              && (forall i :: h.sackCount <= i < 4 ==> h.sacks[i] == SackBlock(0, 0))
    ensures Parse(s) == Rejected(BufferTooSmall) <==> |s| < 12 || (s[9] <= 4 && |s| < 12 + 8 * s[9])
    ensures Parse(s) == Rejected(TooManySacks) <==> 12 <= |s| && s[9] > 4
    ensures Parse(s) == Rejected(InvalidFlags) <==> 12 <= |s| && s[9] <= 4 && 12 + 8 * s[9] <= |s| && s[8] >= 16
  {
    hide Four, Two, ReadU32, ReadU16, ReadBlocks, BlockAt;
    if Parse(s).Parsed? {
      var h := Parse(s).header;
      ReadIsLaidOut(s, 0);
      ReadIsLaidOut(s, 4);
      ReadIsLaidOut(s, 10);
      forall i | 0 <= i < h.sackCount ensures BlockAt(s, 12 + 8 * i, h.sacks[i]) {
        ReadBlocksAt(s, 12, s[9], i);
      }
    }
  }

  /** A serialized header has every field at its place. */
  lemma SerializedLaysOut(h: TransportHeader)
    requires Validate(h) == Ok
    ensures LaysOut(Serialized(h), h) && |Serialized(h)| == 12 + 8 * h.sackCount
  {
    hide Serialized, Parse, BlockAt, Four, Two, Byte;
    ParseOfSerialized(h, []);
    assert Serialized(h) + [] == Serialized(h);
    ParseLaysOut(Serialized(h));
    var blocks := h.sacks[..h.sackCount];
    assert forall i :: 0 <= i < h.sackCount ==> Padded(blocks)[i] == h.sacks[i];
  }

  lemma LaysOutLonger(s: seq<u8>, longer: seq<u8>, h: TransportHeader)
    requires LaysOut(s, h) && s <= longer
    ensures LaysOut(longer, h)
  {
  }

  // ---- The implementation, which works on caller-supplied buffers ----

  method ValidateHeader(h: TransportHeader) returns (status: WireStatus)
    ensures status == Validate(h)
  {
    if h.flags > KNOWN_FLAGS {
      return InvalidFlags;
    }
    if h.sackCount > MAXIMUM_SACK_BLOCKS {
      return TooManySacks;
    }
    for index := 0 to h.sackCount
      invariant forall i :: 0 <= i < index ==> h.sacks[i].start != h.sacks[i].end
    {
      if h.sacks[index].start == h.sacks[index].end {
        return InvalidSackRange;
      }
    }
    return Ok;
  }

  method WriteBlock(output: array<u8>, at: nat, block: SackBlock)
    requires at + SACK_BLOCK_BYTES <= output.Length
    modifies output
    ensures output[..] == old(output[..at]) + OneBlock(block) + old(output[at + SACK_BLOCK_BYTES..])
  {
    WriteU32(output, at, block.start);
    ghost var between := output[..];
    assert between[..at + 4] == old(output[..at]) + U32Bytes(block.start);
    assert between[at + 8..] == old(output[at + 8..]);
    WriteU32(output, at + 4, block.end);
  }

  method WriteFixed(h: TransportHeader, output: array<u8>)
    requires FIXED_HEADER_BYTES <= output.Length
    modifies output
    ensures output[..] == FixedBytes(h) + old(output[FIXED_HEADER_BYTES..])
  {
    hide U32Bytes, U16Bytes;
    WriteU32(output, 0, h.sequence);
    WriteU32(output, 4, h.cumulativeAck);
    ghost var numbers := output[..];
    assert numbers[..8] == U32Bytes(h.sequence) + U32Bytes(h.cumulativeAck) && numbers[12..] == old(output[12..]);
    output[8] := h.flags;
    output[9] := h.sackCount;
    output[10] := h.window / 0x100;
    output[11] := h.window % 0x100;
    FixedAtOnce(numbers, output[..], h);
  }

  lemma FixedAtOnce(numbers: seq<u8>, written: seq<u8>, h: TransportHeader)
    requires 12 <= |numbers| && numbers[..8] == U32Bytes(h.sequence) + U32Bytes(h.cumulativeAck)
    requires written == numbers[8 := h.flags][9 := h.sackCount][10 := h.window / 0x100][11 := h.window % 0x100]
    ensures written == FixedBytes(h) + numbers[12..]
  {
    hide U32Bytes;
    assert written == numbers[..8] + [h.flags, h.sackCount] + [h.window / 0x100, h.window % 0x100] + numbers[12..];
  }

  method WriteBlocks(blocks: seq<SackBlock>, output: array<u8>, at: nat)
    requires at + |blocks| * SACK_BLOCK_BYTES <= output.Length
    modifies output
    ensures output[..] == old(output[..at]) + BlockBytes(blocks) + old(output[at + |blocks| * SACK_BLOCK_BYTES..])
  {
    hide OneBlock;
    var index := 0;
    while index < |blocks|
      invariant 0 <= index <= |blocks|
      invariant output[..at + index * SACK_BLOCK_BYTES] == old(output[..at]) + BlockBytes(blocks[..index])
      invariant output[at + index * SACK_BLOCK_BYTES..] == old(output[at + index * SACK_BLOCK_BYTES..])
    {
      var offset := at + index * SACK_BLOCK_BYTES;
      ghost var before := output[..];
      assert before[offset..] == old(output[offset..]);
      assert before[offset..][SACK_BLOCK_BYTES..] == before[offset + SACK_BLOCK_BYTES..];
      WriteBlock(output, offset, blocks[index]);
      assert blocks[..index + 1][..index] == blocks[..index];
      index := index + 1;
    }
    assert blocks[..|blocks|] == blocks;
  }

  method SerializeHeader(h: TransportHeader, output: array<u8>) returns (status: WireStatus, bytesWritten: nat)
    modifies output
    ensures status == if Validate(h) != Ok then Validate(h)
                      else if output.Length < NeededBytes(h.sackCount) then BufferTooSmall else Ok
    ensures status == Ok ==> bytesWritten == |Serialized(h)|
                             && output[..] == Serialized(h) + old(output[..])[bytesWritten..]
    ensures status == Ok ==> bytesWritten == 12 + 8 * h.sackCount && LaysOut(output[..], h)
    ensures status != Ok ==> bytesWritten == 0 && output[..] == old(output[..])
  {
    bytesWritten := 0;
    status := ValidateHeader(h);
    if status != Ok {
      return;
    }
    var needed := NeededBytes(h.sackCount);
    if output.Length < needed {
      return BufferTooSmall, 0;
    }
    WriteFixed(h, output);
    WriteBlocks(h.sacks[..h.sackCount], output, FIXED_HEADER_BYTES);
    SerializedLaysOut(h);
    LaysOutLonger(Serialized(h), output[..], h);
    return Ok, needed;
  }

  method ParseHeader(input: seq<u8>) returns (result: ParseResult)
    ensures result == Parse(input)
    ensures result.Parsed? ==> LaysOut(input, result.header) && result.consumed == 12 + 8 * result.header.sackCount
  {
    hide LaysOut;
    ParseLaysOut(input);
    if |input| < FIXED_HEADER_BYTES {
      return Rejected(BufferTooSmall);
    }
    var count := input[9];
    if count > MAXIMUM_SACK_BLOCKS {
      return Rejected(TooManySacks);
    }
    var needed := NeededBytes(count);
    if |input| < needed {
      return Rejected(BufferTooSmall);
    }
    var sacks := [NO_BLOCK, NO_BLOCK, NO_BLOCK, NO_BLOCK];
    for index := 0 to count
      invariant sacks == Padded(ReadBlocks(input, FIXED_HEADER_BYTES, index))
    {
      var offset := FIXED_HEADER_BYTES + index * SACK_BLOCK_BYTES;
      sacks := sacks[index := ReadBlock(input, offset)];
    }
    var parsed := ReadFixed(input, sacks);
    var status := ValidateHeader(parsed);
    if status != Ok {
      return Rejected(status);
    }
    return Parsed(parsed, needed);
  }
}
