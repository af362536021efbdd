/** Absent values and failures. */
module Outcomes {
  datatype Option<+T> = None | Some(value: T)
}
