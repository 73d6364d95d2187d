/** The optional-value datatype used by the readers of the ANSI model. */
module Wrappers {

  datatype Option<+T> = None | Some(value: T)

}
