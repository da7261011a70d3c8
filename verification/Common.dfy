/** Types used by every component. */
module Common {
  datatype Option<+T> = None | Some(value: T)

  type byte = b: int | 0 <= b < 256
}
