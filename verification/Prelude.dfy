/** Results and optional values shared by every component. */
module Prelude {

  datatype Option<+T> = None | Some(value: T)

  /** A returned value, or the error the original throws. */
  datatype Result<+T, +E> = Success(value: T) | Failure(error: E)

  function Min(a: int, b: int): int {
    if a <= b then a else b
  }

  function Max(a: int, b: int): int {
    if a >= b then a else b
  }
}
