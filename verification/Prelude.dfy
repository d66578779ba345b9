/** Types and small definitions shared by every module of the model. */
module Prelude {

  const MAX_UINT32: int := 0xFFFF_FFFF

  /** Go's `uint32`. Every value stored in one is proved to fit, so an
      arithmetic step that could wrap has to say so. */
  type uint32 = x: int | 0 <= x <= 0xFFFF_FFFF

  type byte = x: int | 0 <= x < 256

  /** A Go `string` or `[]byte`. */
  type bytes = seq<byte>

  datatype Option<+T> = None | Some(value: T)

  function Min(a: int, b: int): int {
    if a <= b then a else b
  }

  function Max(a: int, b: int): int {
    if a <= b then b else a
  }

  /** The characters the wire formats give a meaning to. */
  const LF: byte := 0x0A
  const CR: byte := 0x0D
  const SPACE: byte := 0x20
  const DQUOTE: byte := 0x22
  const PERCENT: byte := 0x25
  const AMPERSAND: byte := 0x26
  const LPAREN: byte := 0x28
  const RPAREN: byte := 0x29
  const STAR: byte := 0x2A
  const PLUS: byte := 0x2B
  const COMMA: byte := 0x2C
  const DASH: byte := 0x2D
  const ZERO: byte := 0x30
  const NINE: byte := 0x39
  const COLON: byte := 0x3A
  const BACKSLASH: byte := 0x5C
  const RBRACKET: byte := 0x5D
  const LBRACE: byte := 0x7B
  const RBRACE: byte := 0x7D
}
