/** A value that may be absent: the `undefined` of a lookup that found nothing. */
module Wrappers {
  datatype Option<+T> = None | Some(value: T)
}
