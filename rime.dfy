/**
 * Rime addresses and the fixed-width integers that cross the interface
 * of the multihop example.
 */
module Rime {
  /** uint8_t, as used for an address byte and for the hop count. */
  newtype u8 = x: int | 0 <= x < 0x100

  /** uint16_t, as used for announcement ids and values and for random_rand(). */
  newtype u16 = x: int | 0 <= x < 0x1_0000

  /** rimeaddr_t with RIMEADDR_SIZE 2: the bytes u8[0] and u8[1]. */
  datatype RimeAddr = RimeAddr(b0: u8, b1: u8)

  /** rimeaddr_cmp: the two addresses agree in every byte. */
  function SameAddr(a: RimeAddr, b: RimeAddr): (same: bool)
    ensures same <==> a == b
  {
    a.b0 == b.b0 && a.b1 == b.b1
  }
}
