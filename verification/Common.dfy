/** Small notions that several components share. */
module Common {

  datatype Option<+T> = None | Some(value: T)

  /** A 32-bit unsigned number. */
  type Word = x: int | 0 <= x < 0x1_0000_0000

  function Max(a: int, b: int): int { if a < b then b else a }

  function Min(a: int, b: int): int { if a < b then a else b }
}
