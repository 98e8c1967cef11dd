/** A value that may be missing, like a `NaN` cell in a dataframe. */
module Options {

  datatype Option<+T> = None | Some(value: T)
}
