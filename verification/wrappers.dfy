/** Small failure-carrying datatypes shared by every module of the model. */
module Wrappers {

  /** A value that may be absent (Python's `None`). */
  datatype Option<+T> = None | Some(value: T) {
    function GetOr(default: T): T {
      match this
      case Some(v) => v
      case None => default
    }
  }

  /** `Some` as a function value. */
  function Wrap<T>(x: T): Option<T> {
    Some(x)
  }

  /** The outcome of one external call: either the already-parsed payload, or
      a transport / status / parse failure that the adapters swallow. */
  datatype Fetched<+T> = Ok(payload: T) | Failed

  /** A computation that either produces a value or raises out of the caller. */
  datatype Outcome<+T> = Done(value: T) | Raised(reason: string)
}
