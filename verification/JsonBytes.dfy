/** The byte sets that section 2, 6 and 7 of RFC 8259 name, by value. */
module JsonBytes {
  import opened Bytes

  /** `ws`. */
  predicate WsByte(c: byte) { c == 32 || c == 9 || c == 10 || c == 13 }

  /** `DIGIT`. */
  predicate DigitByte(c: byte) { 48 <= c <= 57 }

  /** `HEXDIG`, in either case. */
  predicate HexByte(c: byte) { 48 <= c <= 57 || 65 <= c <= 70 || 97 <= c <= 102 }

  /** `unescaped`, a byte of a character above 127 included. */
  predicate PlainByte(c: byte) { c >= 32 && c != 34 && c != 92 }
}
