/** Failure-carrying values used across the model: `Option` for JavaScript's
    `null`/`undefined` results. */
module Wrappers {

  datatype Option<+T> = None | Some(value: T)
}
