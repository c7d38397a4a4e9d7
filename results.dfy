/** Optional values and error-carrying results, the model's stand-ins for Swift's
    `Optional` and for functions that `throw`. */
module Results {

  datatype Option<+T> = None | Some(value: T)

  datatype Result<+T, +E> = Ok(value: T) | Err(error: E)
}
