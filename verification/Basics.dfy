/**
  A value that may be absent, and the larger of two numbers.
 */
module Basics {

  datatype Option<+T> = None | Some(value: T)

  function Max(a: int, b: int): int {
    if a < b then b else a
  }
}
