/** Values that may be absent, and results of operations that may be refused. */
module Options {

  datatype Option<+T> = None | Some(value: T)
}
