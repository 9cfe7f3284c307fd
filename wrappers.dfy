/** The optional-value type shared by the other modules. */
module Wrappers {

  /** A value that may be absent; `None` stands for JavaScript's `NaN` result of a parse. */
  datatype Option<+T> = None | Some(value: T)
}
