/** Bytes, and the character classes of pugixml.cpp that are used here. */
module Bytes {

  type byte = x: int | 0 <= x < 256

  const NUL: byte := 0
  const TAB: byte := 9
  const LF: byte := 10
  const CR: byte := 13
  const SPACE: byte := 32
  const QUOT: byte := 34
  const HASH: byte := 35
  const AMP: byte := 38
  const APOS: byte := 39
  const SEMI: byte := 59
  const LT: byte := 60
  const GT: byte := 62

  // ct_space
  predicate IsSpace(c: byte) {
    c == TAB || c == LF || c == CR || c == SPACE
  }
}
