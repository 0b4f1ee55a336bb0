/** The optional value used for the outcome of decoding one input line. */
module Wrappers {

  /** `None` when decoding failed, `Some(v)` with the decoded value otherwise. */
  datatype Option<+T> = None | Some(value: T)
}
