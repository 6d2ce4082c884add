/** The one container type shared by every component: a reference that may be nil. */
module Wrappers {
  datatype Option<+T> = None | Some(value: T)
}
