/** Optional values and pass/fail outcomes shared by the modules of this model. */
module Wrappers {

  /** A value that may be missing (Python's `Optional` / `None`). */
  datatype Option<+T> = None | Some(value: T)

  /** Either nothing happened (Pass) or an exception was raised (Fail). */
  datatype Outcome<+E> = Pass | Fail(error: E)
}
