/** The optional-value type used for results the driver may fail to obtain. */
module Wrappers {

  datatype Option<+T> = None | Some(value: T)
}
