/** The optional value used wherever the C code signals "no value" with a sentinel or NaN. */
module Options {

  datatype Option<+T> = None | Some(value: T)
}
