/** Bytes and the C-locale character classes that sds.c uses. */
module Bytes {
  type byte = b: int | 0 <= b < 256

  type bytes = seq<byte>

  const NUL: byte := 0
  const BELL: byte := 7
  const BACKSPACE: byte := 8
  const TAB: byte := 9
  const NEWLINE: byte := 10
  const RETURN: byte := 13
  const SPACE: byte := 32
  const QUOTE: byte := 34
  const APOSTROPHE: byte := 39
  const BACKSLASH: byte := 92

  /** isspace in the C locale. */
  predicate IsSpace(c: byte) { c == SPACE || TAB <= c <= RETURN }

  /** isprint in the C locale. */
  predicate IsPrint(c: byte) { SPACE <= c <= 126 }

  /** The letters and digits of the escapes. */
  function Code(c: char): byte
    requires c as int < 256
  {
    c as int
  }

  predicate IsHexDigit(c: byte) {
    Code('0') <= c <= Code('9') || Code('a') <= c <= Code('f') || Code('A') <= c <= Code('F')
  }

  function HexDigitToInt(c: byte): (d: nat)
    ensures d < 16
  {
    if Code('0') <= c <= Code('9') then c - Code('0')
    else if Code('a') <= c <= Code('f') then c - Code('a') + 10
    else if Code('A') <= c <= Code('F') then c - Code('A') + 10
    else 0
  }

  /** printf's %x for one digit. */
  function HexDigit(d: nat): byte
    requires d < 16
  {
    if d < 10 then Code('0') + d else Code('a') + d - 10
  }

  /** line is a C string: it holds a NUL, and the first one is at n. */
  ghost predicate EndsAt(line: bytes, n: nat) {
    n < |line| && line[n] == NUL && forall k :: 0 <= k < n ==> line[k] != NUL
  }
}
