/** The optional value used wherever the source may answer no object. */
module Optional {
  datatype Option<+T> = None | Some(value: T)
}
