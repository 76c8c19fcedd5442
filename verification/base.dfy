/** Shared vocabulary: optional values, the failures the processor can raise,
    and a failure-compatible result type so that `:-` can thread them. */
module Base {

  /** `None` stands for a pandas null (NaN) cell. */
  datatype Option<T> = None | Some(value: T)

  /** The exceptions the processor raises on degenerate input. */
  datatype Error =
    /** `max()` of an empty list, or `iloc[0]` on a frame with no rows. */
    | NoRows
    /** Division by the number of non-null cells when there are none. */
    | NoCells
    /** Division by the total character length of a candidate header row whose
        non-null cells are all empty strings. */
    | ZeroLengthRow(row: nat)
    /** Division by the number of non-null cells of an all-null row. */
    | AllNullRow(row: nat)
    /** Positional indexing outside the frame. */
    | OutOfRange

  datatype Result<T> = Success(value: T) | Failure(error: Error) {

    predicate IsFailure() {
      Failure?
    }

    function PropagateFailure<U>(): Result<U>
      requires Failure?
    {
      Failure(error)
    }

    function Extract(): T
      requires Success?
    {
      value
    }
  }

  function Min(a: int, b: int): int {
    if a <= b then a else b
  }

  function Max(a: int, b: int): int {
    if a <= b then b else a
  }
}
