/** The Option datatype used for a lookup that may find nothing (a missing
    value in the data frame). */
module Wrappers {

  datatype Option<+T> = None | Some(value: T)

}
