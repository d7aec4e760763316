/** The optional-value type used throughout the model (Python `None`, an absent TS field). */
module Wrappers {
  datatype Option<+T> = None | Some(value: T)
}
