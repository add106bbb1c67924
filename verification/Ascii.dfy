/** Bytes, and the characters that the protocols give a meaning. */
module Ascii {
  /** One byte. */
  type Byte = b: int | 0 <= b < 256

  const NEWLINE: Byte := 10
  const PLUS: Byte := 43
  const MINUS: Byte := 45
  const DOT: Byte := 46
  const SLASH: Byte := 47
  const ZERO: Byte := 48
  const NINE: Byte := 57
  const BACKSLASH: Byte := 92
}
