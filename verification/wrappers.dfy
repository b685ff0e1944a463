/** The optional-value datatype the scripts' `None` results are modelled with. */
module Wrappers {

  /** `None` or `Some(value)`: Python's `Optional[T]`. */
  datatype Option<+T> = None | Some(value: T)
}
