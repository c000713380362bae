/** The source signals "no result" with `null`; the model uses Option. */
module Wrappers {

  datatype Option<+T> = None | Some(value: T)

}
