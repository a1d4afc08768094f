/** An optional value: Python's `None`, or SQL's `NULL`, versus a present value. */
module Options {

  datatype Option<+T> = None | Some(value: T)
}
