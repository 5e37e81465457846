/** The optional-value datatype used throughout the model (JavaScript's `null`
    or a failed `match` is `None`). */
module Wrappers {

  datatype Option<+T> = None | Some(value: T)
}
