/** The alphabets of the grammars, by the numbers of their bytes: the core rules of appendix B.1 of RFC 5234, and the
    token characters of section 3.2.6 of RFC 7230.  The grammars are written in these and share nothing with the
    parsers. */
module Abnf {
  import Bytes

  const HTAB: Bytes.Byte := 0x09
  const LF: Bytes.Byte := 0x0a
  const CR: Bytes.Byte := 0x0d
  const SP: Bytes.Byte := 0x20
  const COLON: Bytes.Byte := 0x3a

  predicate IsDigit(b: Bytes.Byte) {
    0x30 <= b <= 0x39
  }

  predicate IsAlpha(b: Bytes.Byte) {
    0x41 <= b <= 0x5a || 0x61 <= b <= 0x7a
  }

  predicate IsCtl(b: Bytes.Byte) {
    b <= 0x1f || b == 0x7f
  }

  predicate IsWsp(b: Bytes.Byte) {
    b == 0x20 || b == 0x09
  }

  predicate IsTchar(b: Bytes.Byte) {
    || IsDigit(b) || IsAlpha(b)
    || b == '!' as int || b == '#' as int || b == '$' as int || b == '%' as int || b == '&' as int
    || b == '\'' as int || b == '*' as int || b == '+' as int || b == '-' as int || b == '.' as int
    || b == '^' as int || b == '_' as int || b == '`' as int || b == '|' as int || b == '~' as int
  }

  const LOWER_DIGITS: string := "0123456789abcdef"
  const UPPER_DIGITS: string := "0123456789ABCDEF"

  /** Where `b` stands in `s`, or -1. */
  function IndexOf(s: string, b: Bytes.Byte): (i: int)
    ensures i == -1 ==> forall k :: 0 <= k < |s| ==> s[k] as int != b
    ensures i != -1 ==> 0 <= i < |s| && s[i] as int == b
  {
    if |s| == 0 then -1 else if s[|s| - 1] as int == b then |s| - 1 else IndexOf(s[..|s| - 1], b)
  }

  /** The value of a hexadecimal digit, its place among the sixteen, or -1. */
  function HexDigitValue(b: Bytes.Byte): (v: int)
    ensures -1 <= v < 16
  {
    var v := IndexOf(LOWER_DIGITS, b);
    if v != -1 then v else IndexOf(UPPER_DIGITS, b)
  }

  predicate IsHexDigit(b: Bytes.Byte) {
    HexDigitValue(b) != -1
  }
}
