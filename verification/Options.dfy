/** The Some/None datatype used for absent values throughout the model. */
module Options {
  datatype Option<+T> = None | Some(value: T)
}
