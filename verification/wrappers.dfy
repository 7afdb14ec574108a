/** The Option datatype used for every value Java allows to be `null`. */
module Wrappers {

  /** `None` stands for a Java `null` reference; `Some(v)` for a present value. */
  datatype Option<+T> = None | Some(value: T)
}
