/** Small failure-carrying datatypes shared by every module of the model. */
module Wrappers {

  /** A value that may be missing: JavaScript's `null`/`undefined`, Python's `None`. */
  datatype Option<+T> = None | Some(value: T) {

    /** The wrapped value, or `default` when there is none (the `??` operator). */
    function GetOr(default: T): T {
      match this
      case Some(v) => v
      case None => default
    }
  }

  /** The outcome of an HTTP request whose transport and status handling are not modelled:
      either the decoded body or a thrown error. */
  datatype Fetch<+T> = Fetched(value: T) | FetchFailed
}
