/** The optional-value type used for std::optional and for std::string::npos searches. */
module Wrappers {

  datatype Option<+T> = None | Some(value: T)
}
