/** Types used throughout the model. */
module Common {
  datatype Option<+T> = None | Some(value: T)

  type Octet = x: int | 0 <= x < 256
}
