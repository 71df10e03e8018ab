/** An optional value: a missing query parameter, or a conversion that failed. */
module Wrappers {

  datatype Option<+T> = None | Some(value: T)
}
