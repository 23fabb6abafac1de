/** A nullable value: the Java code's `null` references become `None`. */
module Wrappers {

  datatype Option<+T> = None | Some(value: T)
}
