/** The optional value used wherever the source yields "nothing found". */
module Optional {
  datatype Option<+T> = None | Some(value: T)
}
