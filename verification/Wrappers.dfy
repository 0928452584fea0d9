/** A value or nothing, for readers of formats that may be malformed. */
module Wrappers {

  datatype Option<T> = None | Some(value: T)
}
