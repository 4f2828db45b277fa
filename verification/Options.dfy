/** A value that may be absent: the source's `None` and its refusals. */
module Options {

  datatype Option<+T> = None | Some(value: T)
}
