/** The "present or absent" value used wherever the source yields `None`. */
module Options {

  datatype Option<+T> = None | Some(value: T)
}
