/** Bytes of the HTTP input, as unsigned values. */
module Bytes {
  type Byte = b: int | 0 <= b < 256

  const HT: Byte := 9
  const LF: Byte := 10
  const CR: Byte := 13
  const SP: Byte := 32
  const COLON: Byte := 58
  const DEL: Byte := 127
}
