/** Small failure-compatible wrappers shared by the modules of this model. */
module Wrappers {

  /** A value that may be absent: a NULL pointer, a missing key, a search that found nothing. */
  datatype Option<+T> = None | Some(value: T)
}
