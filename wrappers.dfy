/** The failure-carrying result used wherever the source raises (KeyError, IndexError, ValueError). */
module Wrappers {
  datatype Option<+T> = None | Some(value: T)
}
