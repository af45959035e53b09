/** General-purpose definitions shared by the modules of the model. */
module Basics {

  /** A value that may be absent: a null pointer or a failed search. */
  datatype Option<T> = None | Some(value: T)

  function Min(a: int, b: int): int { if a <= b then a else b }
}
