/** The optional-value datatype used for engine outcomes. */
module Wrappers {
  datatype Option<+T> = None | Some(value: T)
}
