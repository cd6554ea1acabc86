/** Outcome datatypes shared by every component of the model. */
module Wrappers {

  datatype Option<+T> = None | Some(value: T)

  datatype Result<+T, +E> = Ok(value: T) | Err(error: E)

  /** A future's answer to one poll. */
  datatype Poll<+T> = Pending | Ready(value: T)
}
