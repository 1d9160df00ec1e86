/** A value that may be absent: the model's stand-in for pandas' NaN / NaT cells. */
module Wrappers {
  datatype Option<+T> = None | Some(value: T)
}
