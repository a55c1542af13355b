/** The byte type and the protocol constants of the eBUS data link layer. */
module Bytes {
  type Byte = bv8

  const ZERO: Byte := 0x00

  // Framing and escape bytes
  const SYN: Byte := 0xaa
  const EXP: Byte := 0xa9
  const SYNEXP: Byte := 0x01
  const EXPEXP: Byte := 0x00

  // Acknowledge bytes and the broadcast address
  const ACK: Byte := 0x00
  const NAK: Byte := 0xff
  const BROAD: Byte := 0xfe

  // Largest number of data bytes in a frame
  const MAX_BYTES: nat := 16

  /** The number a length byte announces. */
  function Count(b: Byte): (n: nat)
    ensures n < 256
  {
    b as nat
  }

  /** SYN and EXP never stand for themselves on the wire. */
  predicate Escaped(b: Byte) {
    b == SYN || b == EXP
  }

  predicate NoSyn(s: seq<Byte>) {
    forall i :: 0 <= i < |s| ==> s[i] != SYN
  }

  predicate NoEscaped(s: seq<Byte>) {
    forall i :: 0 <= i < |s| ==> !Escaped(s[i])
  }
}
