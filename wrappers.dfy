/** Option and Result, the two failure-carrying types the Rust code uses
    (`Option<T>` and `anyhow::Result<T>`, whose error is a message). */
module Wrappers {

  datatype Option<+T> = None | Some(value: T)

  datatype Result<+T> = Ok(value: T) | Err(msg: string)
}
