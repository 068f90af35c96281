/** The optional value `get` returns: a copy of the covering segment's value, or nothing. */
module Optional {
  datatype Option<+T> = None | Some(value: T)
}
