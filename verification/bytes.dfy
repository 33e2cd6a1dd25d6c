/** Machine integers and the ASCII character classes the hexadecimal float
    grammar uses. */
module Bytes {

  /** Rust's `u8`. */
  newtype byte = x: int | 0 <= x < 0x100

  const I32_MIN: int := -0x8000_0000
  const I32_MAX: int := 0x7FFF_FFFF

  /** `v` is in the range of Rust's `i32`. */
  predicate InI32(v: int) {
    I32_MIN <= v <= I32_MAX
  }

  /** Rust's `i32`. */
  newtype i32 = x: int | I32_MIN <= x <= I32_MAX

  const PLUS: byte := 0x2B     // '+'
  const MINUS: byte := 0x2D    // '-'
  const POINT: byte := 0x2E    // '.'
  const ZERO: byte := 0x30     // '0'
  const NINE: byte := 0x39     // '9'
  const UPPER_A: byte := 0x41  // 'A'
  const UPPER_F: byte := 0x46  // 'F'
  const UPPER_P: byte := 0x50  // 'P'
  const UPPER_X: byte := 0x58  // 'X'
  const LOWER_A: byte := 0x61  // 'a'
  const LOWER_F: byte := 0x66  // 'f'
  const LOWER_P: byte := 0x70  // 'p'
  const LOWER_X: byte := 0x78  // 'x'

  /** `0`-`9` */
  predicate IsDecimalDigit(b: byte) {
    ZERO <= b <= NINE
  }

  /** `0`-`9`, `A`-`F`, `a`-`f` */
  predicate IsHexDigit(b: byte) {
    IsDecimalDigit(b) || UPPER_A <= b <= UPPER_F || LOWER_A <= b <= LOWER_F
  }

  predicate IsSign(b: byte) {
    b == PLUS || b == MINUS
  }

  /** The `x` of the `0x` prefix. */
  predicate IsHexMarker(b: byte) {
    b == LOWER_X || b == UPPER_X
  }

  /** The `p` that introduces the binary exponent. */
  predicate IsExponentMarker(b: byte) {
    b == LOWER_P || b == UPPER_P
  }

  predicate AllHexDigits(s: seq<byte>) {
    forall i :: 0 <= i < |s| ==> IsHexDigit(s[i])
  }

  predicate AllDecimalDigits(s: seq<byte>) {
    forall i :: 0 <= i < |s| ==> IsDecimalDigit(s[i])
  }

  /** The bytes of an ASCII string. */
  function Ascii(s: string): (r: seq<byte>)
    requires forall i :: 0 <= i < |s| ==> s[i] as int < 0x100
    ensures |r| == |s|
    ensures forall i :: 0 <= i < |s| ==> r[i] as int == s[i] as int
  {
    seq(|s|, i requires 0 <= i < |s| => s[i] as int as byte)
  }
}
