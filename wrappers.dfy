/** The optional value used for spreadsheet cells and normalized fields. */
module Wrappers {

  /** Python's `Optional[str]` values: None, or a present value. */
  datatype Option<+T> = None | Some(value: T)
}
