/** The optional-value datatype the model uses for JavaScript's `null`,
    `undefined` and `NaN`. */
module Wrappers {

  datatype Option<+T> = None | Some(value: T)
}
