/** Option and exception-carrying results shared by the whole model. */
module Wrappers {

  /** A value that may be absent (Python's `None`). */
  datatype Option<+T> = None | Some(value: T)

  /** The outcome of a Python call that may raise: it either returns a
      value or raises an exception that the model does not distinguish. */
  datatype Outcome<+T> = Returned(value: T) | Raised
}
