/** The optional value the source writes as `null` or a present object. */
module Wrappers {
  datatype Option<T> = None | Some(value: T)
}
