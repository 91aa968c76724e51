/**
  Option and Result datatypes. `Option` stands for Kotlin's nullable types
  (`String?`, `List<String>?`); `Result` stands for a call that either returns
  a value or throws.
 */
module Outcomes {

  datatype Option<+T> = None | Some(value: T) {

    /** The value, or `default` when absent (Kotlin's `?: default`). */
    function GetOr(default: T): T {
      match this
      case Some(v) => v
      case None => default
    }
  }

  datatype Result<+T, +E> = Ok(value: T) | Err(error: E)
}
