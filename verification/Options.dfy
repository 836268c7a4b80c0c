/** The optional value used for nullable columns, missing rows and absent errors. */
module Options {
  datatype Option<+T> = None | Some(value: T)
}
