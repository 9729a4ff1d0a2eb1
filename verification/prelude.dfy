/** Shared vocabulary: an optional value (used for the source's panics and for
    `Option<GameResult>`), and the range of Rust's `i32`, the integer type every
    coordinate in the game has. */
module Prelude {

  /** `None` stands for "no value": an absent game result, an ignored key, or
      an input on which the source would panic. */
  datatype Option<+T> = None | Some(value: T)

  /** Smallest and largest value of Rust's `i32`. */
  const I32Min: int := -0x8000_0000
  const I32Max: int := 0x7fff_ffff

  predicate IsI32(x: int) {
    I32Min <= x <= I32Max
  }
}
