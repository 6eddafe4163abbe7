/** Failure-carrying datatypes shared by both list models. */
module Outcomes {

  /** A possibly absent reference: Python's `None` or a node. */
  datatype Option<+T> = None | Some(value: T)

  /** The one exception the lists raise: `IndexError("Invalid index")`. */
  datatype Error = IndexError

  /** The outcome of a guarded call: a value, or the exception raised before any mutation. */
  datatype Result<+T> = Success(value: T) | Failure(error: Error)
}
