/** Bytes and 16-bit words as the gateway and the code propagator see them. */
module Bytes {
  type byte = x: int | 0 <= x < 256
  type u16 = x: int | 0 <= x < 0x1_0000
}
