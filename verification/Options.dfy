/** A value that may be absent: a NULL pointer, or a failure without further detail. */
module Options {

  datatype Option<+T> = None | Some(value: T)
}
