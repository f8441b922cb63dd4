/** The optional value that the modelled code signals with Python's `None`. */
module Wrappers {

  datatype Option<+T> = None | Some(value: T)
}
