/** The Option datatype the model uses for operations that may fail. */
module Wrappers {
  datatype Option<+T> = None | Some(value: T)
}
