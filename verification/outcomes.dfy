/** Optional values and operation results shared by the rest of the model. */
module Outcomes {

  /** A value that may be missing: an argument beyond the end of the
      command line, a field left out of a patch, a row that no query found. */
  datatype Option<+T> = None | Some(value: T) {

    /** Falls back to `default` for a missing value, as `unwrap_or` does. */
    function GetOr(default: T): T {
      match this
      case Some(v) => v
      case None => default
    }
  }

  /** The one failure the repository reports distinctly: an update whose
      target row does not exist. */
  datatype Error = NotFound(id: int)

  /** The outcome of a repository operation. */
  datatype Result<+T> = Ok(value: T) | Err(error: Error)
}
