module Options {
  /** A value that may be missing: a null pointer, a failed call, an absent key. */
  datatype Option<+T> = None | Some(value: T)
}
