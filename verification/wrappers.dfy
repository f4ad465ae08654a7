/** Failure-carrying datatypes shared by the model: an optional value, the
    outcome of an operation that may raise, and the Python exceptions the
    modelled code can raise. */
module Wrappers {

  /** A value that may be absent. */
  datatype Option<+T> = None | Some(value: T)

  /** Either a value or the exception a Python call would have raised. */
  datatype Result<+T, +E> = Success(value: T) | Failure(error: E)

  /** The exceptions the recommendation engine can let escape. */
  datatype PyException =
    | AttributeError   // `.strip()` called on a mapping's non-string 'name'
    | IndexError       // `.index[0]` on an empty selection (title not found)
}
