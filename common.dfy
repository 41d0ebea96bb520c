/** Shared value types: nullable references and bytes. */
module Common {

  /** A reference that may be null. */
  datatype Option<+T> = None | Some(value: T)

  /** An unsigned 8-bit value, as held in a `byte[]`. */
  type byte = x: int | 0 <= x < 256

  type Bytes = seq<byte>

  const CR: byte := 13
  const LF: byte := 10
  const CRLF: Bytes := [CR, LF]

  /** Lead bytes of the reply kinds and other ASCII bytes the decoders look at. */
  const PLUS: byte := 43
  const MINUS: byte := 45
  const COLON: byte := 58
  const DOLLAR: byte := 36
  const STAR: byte := 42
  const DIGIT_ZERO: byte := 48

  /** The ASCII bytes of `ERR`, the generic error tag of the server. */
  const ERR: Bytes := [69, 82, 82]
}
