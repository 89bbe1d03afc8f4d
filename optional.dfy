/** The usual Some/None wrapper, for dictionary lookups and failing index operations. */
module Optional {
  datatype Option<+T> = None | Some(value: T)
}
