/** Optional value shared by the quiz modules. */
module Wrappers {

  /** A value that may be absent: a missing dictionary key, a line that does
      not parse, an answer that is not a number. */
  datatype Option<+T> = None | Some(value: T)
}
