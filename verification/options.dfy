/** Python's `None`-or-value results and optional arguments. */
module Options {

  datatype Option<+T> = None | Some(value: T)
}
