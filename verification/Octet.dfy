/** The bits of a machine byte. */
module Octet {
  /** Bit `k`, counted from the least significant. */
  predicate Bit(x: bv8, k: nat) {
    match k
    case 0 => x & 1 != 0
    case 1 => x & 2 != 0
    case 2 => x & 4 != 0
    case 3 => x & 8 != 0
    case 4 => x & 0x10 != 0
    case 5 => x & 0x20 != 0
    case 6 => x & 0x40 != 0
    case _ => x & 0x80 != 0
  }
}
