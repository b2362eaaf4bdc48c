/** Failure-compatible optional value, used where the load generator would panic or
    where a lookup may miss. */
module Wrappers {

  datatype Option<+T> = None | Some(value: T)
}
