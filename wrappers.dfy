/** The optional-value type used for nullable results and optional fields. */
module Wrappers {

  datatype Option<T> = None | Some(value: T)
}
