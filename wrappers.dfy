/** Optional values, shared by the two solvers. */
module Wrappers {

  /** A value that may be missing; `None` plays the role of Python's `None`
      and of a search that found nothing. */
  datatype Option<T> = None | Some(value: T)
}
