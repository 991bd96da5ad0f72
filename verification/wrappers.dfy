/** The optional value the registry returns where the source returns `null` or `undefined`. */
module Wrappers {
  datatype Option<T> = None | Some(value: T)
}
