/** What several modules share: optional values, bytes, and the smaller and the larger of two numbers. */
module Prelude {

  datatype Option<+T> = None | Some(value: T)

  newtype Byte = b: int | 0 <= b < 256

  type Bytes = seq<Byte>

  function Min(a: int, b: int): int { if a < b then a else b }

  function Max(a: int, b: int): int { if a > b then a else b }

  /** Subtraction that stops at nought. */
  function SatSub(a: nat, b: nat): nat { if a < b then 0 else a - b }
}
