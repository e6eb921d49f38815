/** Bytes, byte strings, the optional value and a property of sequences used throughout the project. */
module Bytes {
  /** An unsigned 8-bit value. */
  type byte = x: int | 0 <= x < 256

  type bytes = seq<byte>

  /** The modulus of 32-bit unsigned arithmetic. */
  const TWO_TO_32 := 0x1_0000_0000

  /** The value of `n` stored in a 32-bit `int`. */
  function ToInt32(n: nat): int { (n + 0x8000_0000) % TWO_TO_32 - 0x8000_0000 }

  lemma IntExact(n: nat)
    ensures ToInt32(n) <= n && (ToInt32(n) == n <==> n < 0x8000_0000)
  {}

  datatype Option<+T> = None | Some(value: T)

  predicate NoRepeats<T(==)>(s: seq<T>) { forall i, j :: 0 <= i < j < |s| ==> s[i] != s[j] }
}
