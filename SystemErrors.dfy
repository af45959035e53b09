/** The firmware's `system_error_t` codes that the modelled functions return. A function reports success
    with `NONE` (or a non-negative count) and failure with one of these negative codes; the `CHECK` macro
    passes a negative result straight back to the caller. */
module SystemErrors {

  const NONE: int := 0
  const NOT_SUPPORTED: int := -120
  const LIMIT_EXCEEDED: int := -200
  const END_OF_STREAM: int := -201
  const INVALID_ARGUMENT: int := -270

  /** The error codes used here, which is all `IsError` stands for below. */
  predicate IsError(code: int)
  {
    code == NOT_SUPPORTED || code == LIMIT_EXCEEDED || code == END_OF_STREAM || code == INVALID_ARGUMENT
  }

  /** `CHECK(x)` returns `x` from the enclosing function exactly when `x` is negative. */
  predicate CheckFails(code: int)
  {
    code < 0
  }
}
