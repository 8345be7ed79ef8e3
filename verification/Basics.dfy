/** Types shared by the models. */
module Basics {
  datatype Option<+T> = None | Some(value: T)

  const WORD_RANGE: int := 0x1_0000_0000

  type byte = x: int | 0 <= x < 256
  type word = x: int | 0 <= x < 0x1_0000_0000
}
