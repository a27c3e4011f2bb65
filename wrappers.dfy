/** The optional value returned by every search when there is no path. */
module Wrappers {

  datatype Option<+T> = None | Some(value: T)
}
