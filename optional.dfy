/** Java's nullable results (a `String` that may be null, a lookup that may miss). */
module Optional {

  datatype Option<+T> = None | Some(value: T)
}
