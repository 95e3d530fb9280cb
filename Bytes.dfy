/** Bytes as the terminal and the file deliver them, and the ASCII bytes the
    editor reads from the keyboard and writes to the screen. */
module Bytes {
  /** One byte of input or output (a C `char` taken as unsigned). */
  newtype byte = x: int | 0 <= x < 256

  const LF: byte := 0x0A         // '\n'
  const CR: byte := 0x0D         // '\r'
  const ESC: byte := 0x1B        // '\x1b'
  const SPACE: byte := 0x20      // ' '
  const MINUS: byte := 0x2D      // '-'
  const SEMICOLON: byte := 0x3B  // ';'
  const LBRACKET: byte := 0x5B   // '['
  const TILDE: byte := 0x7E      // '~'

  predicate IsDigit(c: byte) {
    0x30 <= c <= 0x39
  }

  function Min(a: int, b: int): int {
    if a < b then a else b
  }

  function Max(a: int, b: int): int {
    if a < b then b else a
  }

  /** Concatenation regroups freely. */
  lemma AppendAssoc(a: seq<byte>, b: seq<byte>, c: seq<byte>)
    ensures (a + b) + c == a + (b + c)
  {
  }
}
