/** Optional values and results that carry either a value or the reason an
    operation refused its input (Python's raised exception). */
module Outcome {

  datatype Option<T> = None | Some(value: T)

  datatype Result<T, E> = Ok(value: T) | Err(error: E)
}
