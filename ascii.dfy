/** Bytes and the ASCII bytes that make up RESP framing. */
module Ascii {

  /** One octet of the output buffer (`u8` in the source). */
  type byte = b: int | 0 <= b < 0x100

  const LF: byte := 0x0A
  const CR: byte := 0x0D
  /** Every RESP line ends with these two bytes. */
  const CRLF: seq<byte> := [CR, LF]

  /** Frame tags. */
  const DOLLAR: byte := 0x24  // bulk string
  const STAR: byte := 0x2A    // array
  const PLUS: byte := 0x2B    // simple string
  const MINUS: byte := 0x2D   // error frame, and the sign of a negative integer
  const COLON: byte := 0x3A   // integer

  const ZERO: byte := 0x30
  const ONE: byte := 0x31

  predicate IsDigit(b: byte) {
    ZERO <= b <= ZERO + 9
  }

  predicate AllDigits(s: seq<byte>) {
    forall i :: 0 <= i < |s| ==> IsDigit(s[i])
  }

  /** True when a byte sequence holds no carriage return and no line feed. */
  predicate NoLineBreak(s: seq<byte>) {
    CR !in s && LF !in s
  }
}
