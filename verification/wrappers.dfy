/** The optional-value datatype used wherever the Go code returns a nil slice
    or a (bool, value) pair. */
module Wrappers {

  datatype Option<+T> = None | Some(value: T) {

    /** Returns the value held in Some or the given default if None */
    function GetOr(default: T): T {
      match this
      case Some(v) => v
      case None => default
    }
  }
}
