/** A value that may be missing: the result of a computation that can raise. */
module Outcomes {

  datatype Option<T> = None | Some(value: T)
}
