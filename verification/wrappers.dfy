/** Small failure-carrying datatypes shared by every module of the model. */
module Wrappers {

  /** A value that may be absent; `None` plays the role of SQL NULL / JS null. */
  datatype Option<+T> = None | Some(value: T) {

    /** The carried value, or `default` when absent (the `??` operator). */
    function GetOr(default: T): T {
      match this
      case Some(v) => v
      case None => default
    }
  }

  /** A storage-layer error message, carried unchanged from the store to the caller. */
  type StorageError = string

  /** The outcome of an asynchronous repository call: it resolves or it rejects. */
  datatype Outcome<+T> = Ok(value: T) | Thrown(error: StorageError)
}
