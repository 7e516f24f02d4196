/**
 An optional value: a lookup that may find nothing.
 */
module Optional {

  datatype Option<+T> = None | Some(value: T)
}
