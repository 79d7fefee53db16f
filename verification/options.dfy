/** The conventional Some/None datatype, standing in for a nullable value. */
module Options {

  datatype Option<+T> = None | Some(value: T)
}
