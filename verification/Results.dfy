/** Values that may be absent. */
module Results {
  datatype Option<+T> = None | Some(value: T)
}
