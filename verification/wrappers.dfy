/** Optional values shared by the other modules. */
module Wrappers {

  /** A value that may be absent: a failed conversion, a missing record. */
  datatype Option<+T> = None | Some(value: T)
}
