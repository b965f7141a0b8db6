/** Failure-carrying datatypes used throughout the model: a Python call that
    returns None or raises a caught exception is modelled as `None`/`Failure`. */
module Wrappers {

  datatype Option<+T> = None | Some(value: T)

  /** A value or an error; used where the source distinguishes exceptions. */
  datatype Result<+R, +E> = Success(value: R) | Failure(error: E)
}
