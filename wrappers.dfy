/** The optional outcome that every checked operation of the clock returns. */
module Wrappers {

  datatype Option<+T> = None | Some(value: T)
}
