/** Integers in network byte order. */
module BigEndian {
  import opened Numbers
  import opened Layout

  function U16Bytes(v: u16): (s: seq<u8>)
    ensures |s| == 2
  {
    [v / 0x100, v % 0x100]
  }

  function U32Bytes(v: u32): (s: seq<u8>)
    ensures |s| == 4
  {
    [v / 0x100_0000, v / 0x1_0000 % 0x100, v / 0x100 % 0x100, v % 0x100]
  }

  function FromDigits(a: u8, b: u8, c: u8, d: u8): u32 {
    a as int * 0x100_0000 + b as int * 0x1_0000 + c as int * 0x100 + d
  }

  function ReadU16(s: seq<u8>, at: nat): u16
    requires at + 2 <= |s|
  {
    s[at] as int * 0x100 + s[at + 1]
  }

  function ReadU32(s: seq<u8>, at: nat): u32
    requires at + 4 <= |s|
  {
    FromDigits(s[at], s[at + 1], s[at + 2], s[at + 3])
  }

  lemma U32OfDigits(v: u32)
    ensures FromDigits(U32Bytes(v)[0], U32Bytes(v)[1], U32Bytes(v)[2], U32Bytes(v)[3]) == v
  {
    assert v / 0x1_0000 == v / 0x100 / 0x100 && v / 0x100_0000 == v / 0x1_0000 / 0x100;
  }

  /** `s` has the bytes of `v` at `at`. */
  ghost predicate HoldsAt(s: seq<u8>, at: nat, v: seq<u8>) {
    at + |v| <= |s| && forall j :: 0 <= j < |v| ==> s[at + j] == v[j]
  }

  lemma ReadOfU32(v: u32, s: seq<u8>, at: nat)
    requires HoldsAt(s, at, U32Bytes(v))
    ensures ReadU32(s, at) == v
  {
    U32OfDigits(v);
    var b := U32Bytes(v);
    assert s[at + 0] == b[0] && s[at + 1] == b[1] && s[at + 2] == b[2] && s[at + 3] == b[3];
  }

  lemma DigitsOfU32(a: u8, b: u8, c: u8, d: u8)
    ensures U32Bytes(FromDigits(a, b, c, d)) == [a, b, c, d]
  {
    var v := FromDigits(a, b, c, d);
    assert v / 0x100 == a as int * 0x1_0000 + b as int * 0x100 + c;
    assert v / 0x1_0000 == v / 0x100 / 0x100 == a as int * 0x100 + b;
    assert v / 0x100_0000 == v / 0x1_0000 / 0x100 == a;
  }

  lemma U32OfRead(s: seq<u8>, at: nat)
    requires at + 4 <= |s|
    ensures U32Bytes(ReadU32(s, at)) == s[at..at + 4]
  {
    DigitsOfU32(s[at], s[at + 1], s[at + 2], s[at + 3]);
  }

  lemma HoldsAtParts(s: seq<u8>, at: nat, a: seq<u8>, b: seq<u8>)
    requires HoldsAt(s, at, a + b)
    ensures HoldsAt(s, at, a) && HoldsAt(s, at + |a|, b)
  {
    forall j | 0 <= j < |a| ensures s[at + j] == a[j] {
      assert (a + b)[j] == a[j];
    }
    forall j | 0 <= j < |b| ensures s[at + |a| + j] == b[j] {
      assert s[at + (|a| + j)] == (a + b)[|a| + j];
    }
  }

  lemma U16OfRead(s: seq<u8>, at: nat)
    requires at + 2 <= |s|
    ensures U16Bytes(ReadU16(s, at)) == s[at..at + 2]
  {
  }

  /** The numbers that are read are those that lie there. */
  lemma ReadIsLaidOut(s: seq<u8>, at: nat)
    ensures at + 2 <= |s| ==> Two(s, at, ReadU16(s, at))
    ensures at + 4 <= |s| ==> Four(s, at, ReadU32(s, at))
  {
  }

  method WriteU32(output: array<u8>, at: nat, v: u32)
    requires at + 4 <= output.Length
    modifies output
    ensures output[..] == old(output[..at]) + U32Bytes(v) + old(output[at + 4..])
  {
    output[at] := v / 0x100_0000;
    output[at + 1] := v / 0x1_0000 % 0x100;
    output[at + 2] := v / 0x100 % 0x100;
    output[at + 3] := v % 0x100;
  }
}
