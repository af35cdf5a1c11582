/** Swift's optional, as returned by the bounds-safe block lookup. */
module Wrappers {
  datatype Option<+T> = None | Some(value: T)
}
