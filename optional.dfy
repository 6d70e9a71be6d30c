/** An optional value: JavaScript's `null` (or a missing value) versus a present one. */
module Optional {

  datatype Option<+T> = None | Some(value: T)
}
