/** The optional value and the outcome-or-error of the Python code: `None`
    versus a value, and a raised `ValueError` versus a returned value. */
module Wrappers {

  datatype Option<T> = None | Some(value: T) {
    /** The value, or `default` for `None`. */
    function GetOr(default: T): T {
      if Some? then value else default
    }
  }

  /** A value, or the `ValueError` the program raises, carrying the offending
      text. */
  datatype Result<T> = Success(value: T) | Failure(error: string)
}
