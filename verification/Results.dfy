/** Absent values, and the exceptions a caller may see. */
module Results {
  datatype Option<+T> = None | Some(value: T)
  datatype Result<+T, +E> = Ok(value: T) | Err(error: E)
}
