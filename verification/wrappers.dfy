/** Failure-carrying return types shared by the model: Python's `None`
    returns become `Option`, and raised exceptions become `Result.Err`. */
module Wrappers {

  datatype Option<+T> = None | Some(value: T)

  datatype Result<+T, +E> = Ok(value: T) | Err(error: E)
}
