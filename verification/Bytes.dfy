/** Bytes, optional values and the ASCII constants the parsers share. */
module Bytes {
  type Byte = b: int | 0 <= b < 0x100

  datatype Option<+T> = None | Some(value: T)

  const TAB: Byte := 0x09
  const LF: Byte := 0x0A
  const CR: Byte := 0x0D
  const BLANK: Byte := 0x20
  const QUOTE: Byte := 0x22
  const STAR: Byte := 0x2A
  const COMMA: Byte := 0x2C
  const SLASH: Byte := 0x2F
  const COLON: Byte := 0x3A
  const LBRACKET: Byte := 0x5B
  const BACKSLASH: Byte := 0x5C
  const RBRACKET: Byte := 0x5D
  const LBRACE: Byte := 0x7B
  const RBRACE: Byte := 0x7D

  /** The four whitespace bytes of RFC 8259, section 2. */
  predicate IsSpace(b: Byte) {
    b == BLANK || b == TAB || b == CR || b == LF
  }

  /** `s` holds the codes of the characters of `text`. */
  predicate IsAscii(s: seq<Byte>, text: string) {
    |s| == |text| && forall k :: 0 <= k < |s| ==> s[k] as char == text[k]
  }

  /** Adds `k` to a length that may be missing. */
  function Plus(k: nat, n: Option<nat>): Option<nat> {
    if n.Some? then Some(k + n.value) else None
  }
}
