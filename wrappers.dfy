/** Optional values and the single error outcome of a request. */
module Wrappers {

  /** An optional value, such as a request cookie that may be missing. */
  datatype Option<+T> = None | Some(value: T)

  /** The outcome of an operation that can raise. Every exception the
      handlers catch is collapsed into `Failed`. */
  datatype Result<+T> = Ok(value: T) | Failed
}
