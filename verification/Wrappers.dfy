/** Success-or-failure values shared by every component. */
module Wrappers {

  datatype Option<+T> = None | Some(value: T)

  datatype Result<+T, +E> = Ok(value: T) | Err(error: E)

  /** One octet of a file, a pipe or a frame. */
  type byte = b: int | 0 <= b < 256
}
