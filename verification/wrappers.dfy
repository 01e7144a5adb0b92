/** The optional result used where the source would produce a non-finite number. */
module Wrappers {

  datatype Option<+T> = None | Some(value: T)
}
