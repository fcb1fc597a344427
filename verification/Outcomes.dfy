/** Results that may be missing, and calls that may fail. */
module Outcomes {
  datatype Option<+T> = None | Some(value: T)

  datatype Result<+T> = Ok(value: T) | Err
}
