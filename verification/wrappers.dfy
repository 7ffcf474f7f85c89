/** The optional-value datatype shared by the other modules. */
module Wrappers {

  /** Either nothing (`None`) or one value (`Some`). */
  datatype Option<+T> = None | Some(value: T)
}
