/** The optional value used wherever the source works with `null` or a `Try…` pattern. */
module Wrappers {

  datatype Option<+T> = None | Some(value: T)
}
