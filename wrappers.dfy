/** The optional value returned by a scan that may find nothing and by a cache lookup that may miss. */
module Wrappers {
  datatype Option<T> = None | Some(value: T)
}
