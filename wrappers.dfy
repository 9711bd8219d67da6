/** The optional-value type used wherever the JavaScript code yields `undefined`, `null` or `NaN`. */
module Wrappers {

  datatype Option<+T> = None | Some(value: T)

}
