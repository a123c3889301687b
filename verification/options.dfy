/** The optional value used for a hit record's material reference and for results that may be absent. */
module Options {
  datatype Option<+T> = None | Some(value: T)
}
