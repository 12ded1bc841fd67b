/** Optional values and operation results shared by every module of the model. */
module Wrappers {

  /** A value that may be absent: a payload key that was not sent, a row that was not found. */
  datatype Option<T> = None | Some(value: T) {
    /** The value when present, `default` otherwise (Python's `d.get(key, default)`). */
    function GetOr(default: T): T
    {
      if Some? then value else default
    }
  }

  /**
   * The ways an operation can fail, one per outcome the request handlers distinguish:
   * a missing row, a payload rejected by validation, and any other exception.
   */
  datatype Failure = NotFound | Invalid | Internal

  datatype Result<T> = Ok(value: T) | Err(failure: Failure)
}
