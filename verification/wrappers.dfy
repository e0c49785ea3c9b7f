/** Failure-carrying datatypes shared by every module of the model.
    Python's `None` and JavaScript's `undefined` become `None`; an exception
    the source raises (or a promise it rejects) becomes `Failure`. */
module Wrappers {

  datatype Option<+T> = None | Some(value: T) {
    function GetOr(default: T): T {
      match this
      case Some(v) => v
      case None => default
    }
  }

  datatype Result<+T, +E> = Success(value: T) | Failure(error: E)
}
