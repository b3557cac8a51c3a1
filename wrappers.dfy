/** The Option datatype used for results that may be absent, such as a
    character search that finds nothing. */
module Wrappers {

  datatype Option<+T> = None | Some(value: T)
}
