/** A value that may be missing: the `None` of Python, or a call that
    raises instead of returning. */
module Wrappers {
  datatype Option<T> = None | Some(value: T)
}
