/** The one shared datatype: a value that may be missing (a NULL pointer, a failed call). */
module Wrappers {
  datatype Option<+T> = None | Some(value: T)
}
