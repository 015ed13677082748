/**
 Octets, unsigned words, and the 16-bit numbers two octets make in network byte
 order.
 */
module Bytes {
  type byte = x: nat | x < 256
  type uint16 = x: nat | x < 0x1_0000
  type uint32 = x: nat | x < 0x1_0000_0000

  function Big16(bs: seq<byte>, i: nat): (r: nat)
    requires i + 2 <= |bs|
    ensures r < 0x1_0000
  {
    256 * (bs[i] as nat) + bs[i + 1]
  }
}
