/** The optional-value datatype used throughout the model, for PHP values
    that may be absent (`null`, `false` from `strpos`, a missing array key). */
module Wrappers {

  datatype Option<+T> = None | Some(value: T)
}
