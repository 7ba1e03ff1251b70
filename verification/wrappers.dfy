/** The optional-value datatype the timer returns where the Rust code returns `Option`. */
module Wrappers {

  /** Either nothing (`None`) or one value (`Some`). */
  datatype Option<+T> = None | Some(value: T)
}
