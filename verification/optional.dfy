/**
  The value of a pointer that may be null, of a lookup that may find nothing,
  or of a library call that may throw instead of returning.
 */
module Optional {

  datatype Option<+T> = None | Some(value: T)
}
