/** The Option type used for values that Python represents with None or with a
    swallowed exception. */
module Wrappers {

  datatype Option<+T> = None | Some(value: T)

}
