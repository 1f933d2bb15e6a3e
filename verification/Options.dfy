/** An optional value: a file that may be absent, a field that may be null. */
module Options {

  datatype Option<+T> = None | Some(value: T)
}
