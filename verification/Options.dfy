/** The optional result that the library writes as std::optional. */
module Options {
  datatype Option<+T> = None | Some(value: T)
}
