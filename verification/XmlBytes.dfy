// Bytes, character classes and the UTF-8 form of a code point.
module XmlBytes {
  import opened Basics

  const NUL: byte := 0
  const TAB: byte := 9
  const LF: byte := 10
  const CR: byte := 13
  const SPACE: byte := 32
  const QUOT: byte := 34
  const HASH: byte := 35
  const AMP: byte := 38
  const APOS: byte := 39
  const SLASH: byte := 47
  const ZERO: byte := 48
  const SEMI: byte := 59
  const LT: byte := 60
  const EQUALS: byte := 61
  const GT: byte := 62

  predicate IsSpace(c: byte) {
    c == CR || c == LF || c == SPACE || c == TAB
  }

  predicate IsDigit(c: byte) {
    '0' as int <= c <= '9' as int
  }

  predicate IsLetter(c: byte) {
    'a' as int <= c <= 'z' as int || 'A' as int <= c <= 'Z' as int
  }

  predicate IsStartSymbol(c: byte) {
    c > 127 || IsLetter(c) || c == '_' as int || c == ':' as int
  }

  predicate IsSymbol(c: byte) {
    IsStartSymbol(c) || IsDigit(c) || c == '-' as int || c == '.' as int
  }

  // The predefined entities, and what tells them apart once their first letters are read.
  const AMP_REF: seq<byte> := [AMP, 'a' as int, 'm' as int, 'p' as int, SEMI]
  const LT_REF: seq<byte> := [AMP, 'l' as int, 't' as int, SEMI]
  const GT_REF: seq<byte> := [AMP, 'g' as int, 't' as int, SEMI]
  const QUOT_REF: seq<byte> := [AMP, 'q' as int, 'u' as int, 'o' as int, 't' as int, SEMI]
  const APOS_REF: seq<byte> := [AMP, 'a' as int, 'p' as int, 'o' as int, 's' as int, SEMI]
  const AMP_REST: seq<byte> := ['p' as int, SEMI]
  const APOS_REST: seq<byte> := ['o' as int, 's' as int, SEMI]
  const T_REST: seq<byte> := ['t' as int, SEMI]
  const QUOT_REST: seq<byte> := ['u' as int, 'o' as int, 't' as int, SEMI]

  // ----- UTF-8 ---------------------------------------------------------------------------------------

  const WORD: nat := 0x1_0000_0000

  /** What the UTF-8 writer stores for a 32-bit code; codes beyond U+10FFFF lose their high bits. */
  function Utf8(ch: nat): (r: seq<byte>)
    requires ch < WORD
    ensures 1 <= |r| <= 4
  {
    if ch < 0x80 then [ch]
    else if ch < 0x800 then [0xC0 + ch / 64, 0x80 + ch % 64]
    else if ch < 0x10000 then [0xE0 + ch / 4096, 0x80 + ch / 64 % 64, 0x80 + ch % 64]
    else [0xF0 + ch / 0x40000 % 16, 0x80 + ch / 4096 % 64, 0x80 + ch / 64 % 64, 0x80 + ch % 64]
  }
}
