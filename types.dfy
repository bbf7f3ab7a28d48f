/** Optional values and results shared by the model's modules. */
module Types {

  /** An absent or present value: stands for a nullable pointer or a failed look-up. */
  datatype Option<+T> = None | Some(value: T)

  /** A value or the error that prevented it. */
  datatype Result<+T, +E> = Ok(value: T) | Err(error: E)
}
