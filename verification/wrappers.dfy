/** Failure-carrying datatypes shared by the modules of this model.
    - Option<T> stands for Python's `value or None`.
    - Result<T, E> stands for a value or a raised exception. */
module Wrappers {

  datatype Option<+T> = None | Some(value: T)

  datatype Result<+T, +E> = Success(value: T) | Failure(error: E)
}
