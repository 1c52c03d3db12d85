/** The conventional Some/None datatype, used for the source's `Option` results. */
module Optional {

  datatype Option<+T> = None | Some(value: T)
}
