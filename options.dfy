/** The optional value used wherever the source returns `std::optional`. */
module Options {
  datatype Option<+T> = None | Some(value: T)
}
