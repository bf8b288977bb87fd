/** The Option datatype used for Python values that may be None. */
module Optional {

  datatype Option<+T> = None | Some(value: T)
}
