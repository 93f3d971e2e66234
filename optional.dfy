/** The usual optional-value datatype, used for nil results and error returns. */
module Optional {
  datatype Option<+T> = None | Some(value: T)
}
