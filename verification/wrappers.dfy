/** Optional values and fallible results. Where the Rust code can panic on
    its input, the model returns `None`. */
module Wrappers {

  datatype Option<+T> = None | Some(value: T)

  datatype Result<+T, +E> = Ok(value: T) | Err(error: E)
}
