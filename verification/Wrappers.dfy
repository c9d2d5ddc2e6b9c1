/** Failure values shared by the other modules. */
module Wrappers {

  datatype Option<+T> = None | Some(value: T)

  /** What a Go function returning (value, error) did. `Panic` is an out-of-bounds index in the source. */
  datatype Result<+T> = Ok(value: T) | Err(error: Error) | Panic

  datatype Error = BadConfig | NoneAvailable

}
