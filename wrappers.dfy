/** Option and Outcome: the catalog's "maybe absent" values and the
    success/error results that replace the program's global last-error slot. */
module Wrappers {

  datatype Option<+T> = None | Some(value: T) {
    function GetOr(default: T): T {
      match this
      case Some(v) => v
      case None => default
    }
  }

  /** The outcome of an operation that returns no value besides its effects. */
  datatype Outcome<+E> = Pass | Fail(error: E)
}
