/** The optional value used wherever the source raises instead of returning. */
module Wrappers {
  datatype Option<T> = None | Some(value: T)
}
