/** A value that may be missing: None in Python, a null pointer or an unset flag in C. */
module Options {
  datatype Option<+T> = None | Some(value: T)
}
