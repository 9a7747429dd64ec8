/** Octets and the little-endian words the codecs load from them.  Machine words
    are natural numbers here; every truncation in the C code is written out. */
module Bytes {
  type byte = x: int | 0 <= x < 256

  const TWO32 := 0x1_0000_0000
  const TWO64 := 0x1_0000_0000_0000_0000
}
