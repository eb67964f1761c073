/** The option type used where the source has an `Option`, or a value that a panic withholds. */
module Wrappers {

  datatype Option<+T> = None | Some(value: T)
}
