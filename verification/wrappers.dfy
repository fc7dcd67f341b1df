/** The Option datatype, for values that Python represents with `None` or
    with a key that may be missing from a dict. */
module Wrappers {

  datatype Option<+T> = None | Some(value: T)
}
