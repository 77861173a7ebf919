/** A value that may be absent: a failed parse, a missing key, an
    out-of-range index, or a policy that has no state. */
module Wrappers {

  datatype Option<T> = None | Some(value: T)
}
