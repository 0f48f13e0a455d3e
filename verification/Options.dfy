/** A value that may be missing: a NULL pointer, an undefined argument, a failed search or parse. */
module Options {
  datatype Option<+T> = None | Some(value: T)
}
