/** The result of a search, or of a step, that may give nothing. */
module Optional {
  datatype Option<+T> = None | Some(value: T)
}
