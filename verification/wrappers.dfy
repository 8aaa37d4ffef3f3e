/** Optional values and fallible results, standing in for `undefined` and for
    the exceptions the repository's helpers throw. */
module Wrappers {

  /** A value that may be absent (`undefined` in the source). */
  datatype Option<+T> = None | Some(value: T) {

    /** The carried value, or `default` when absent (the `??` operator). */
    function GetOr(default: T): T {
      match this
      case Some(v) => v
      case None => default
    }
  }

  /** The outcome of an operation that may throw: `Err` carries the message. */
  datatype Result<+T> = Ok(value: T) | Err(message: string)
}
