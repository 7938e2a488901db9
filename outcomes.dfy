/** Failure-compatible wrappers used by every store operation. */
module Outcomes {

  /** A value that may be absent: an optional payload field, a row a query did not find. */
  datatype Option<+T> = None | Some(value: T)

  /** The outcome of a store operation: the record it returns, or the error it throws. */
  datatype Result<+T, +E> = Success(value: T) | Failure(error: E)

  /** A supplied optional value, or the current one when it is absent. */
  function Or<T>(given: Option<T>, current: T): (r: T)
    ensures given.Some? ==> r == given.value
    ensures given.None? ==> r == current
  {
    if given.Some? then given.value else current
  }
}
