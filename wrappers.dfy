/** The optional value used wherever the daemon uses `Option`. */
module Wrappers {
  datatype Option<+T> = None | Some(value: T)
}
