/** A value that may be absent: the NULL the containers return and store. */
module Options {
  datatype Option<T> = None | Some(value: T)
}
