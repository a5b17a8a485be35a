// What several modules share.
module Basics {
  datatype Option<T> = None | Some(value: T)

  function Min(x: int, y: int): int {
    if x < y then x else y
  }

  function Max(x: int, y: int): int {
    if x > y then x else y
  }
}
