/** Failure-carrying results shared by every module: the source signals errors
    by raising (Python) or by printing and skipping (C); both become values here. */
module Results {

  datatype Option<+T> = None | Some(value: T)

  datatype Result<+T, +E> = Ok(value: T) | Err(error: E)
}
