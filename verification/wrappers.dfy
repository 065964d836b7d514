/** Option and Result, the two failure-carrying shapes the rest of the model uses
    in place of Python's `None` and of early `return 1` exits. */
module Wrappers {

  /** A value that may be absent: Python's `None` versus a present value. */
  datatype Option<+T> = None | Some(value: T) {

    /** The value, or `default` when absent. */
    function GetOr(default: T): T {
      match this
      case Some(v) => v
      case None => default
    }
  }

  /** The outcome of a command: the new state, or the reason it refused to act. */
  datatype Result<+R, +E> = Ok(value: R) | Err(error: E)
}
