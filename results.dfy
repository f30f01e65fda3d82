/** Optional values and success-or-error values, used for the service's answers. */
module Results {

  datatype Option<+T> = None | Some(value: T)

  /** `Err` stands for an exception thrown synchronously by the service. */
  datatype Result<+T, +E> = Ok(value: T) | Err(error: E)
}
