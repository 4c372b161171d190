/** Bytes as the editor stores them, the control bytes it gives a meaning to,
    and an option type for values that may be absent. */
module Bytes {

  /** One byte of a line (a C `char`). */
  newtype byte = b: int | 0 <= b < 256

  const NUL: byte := 0
  const TAB: byte := 9
  const NL: byte := 10
  const CR: byte := 13
  const SPACE: byte := 32

  datatype Option<T> = None | Some(value: T)
}
