/** What it means that numbers lie in a packet: the byte order of the wire, spelled out. */
module Layout {
  import opened Numbers

  /** The byte at an offset. */
  predicate Byte(p: seq<u8>, at: nat, v: int) {
    at < |p| && p[at] == v
  }

  /** Two bytes, the high one first. */
  predicate Two(p: seq<u8>, at: nat, v: int) {
    at + 2 <= |p| && 256 * p[at] as int + p[at + 1] == v
  }

  /** Four bytes, the highest one first. */
  predicate Four(p: seq<u8>, at: nat, v: int) {
    at + 4 <= |p| && 256 * (256 * (256 * p[at] as int + p[at + 1]) + p[at + 2]) + p[at + 3] == v
  }
}
