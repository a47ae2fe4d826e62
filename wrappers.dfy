/** Option and Result, used for JavaScript's NaN / undefined results and for rejections. */
module Wrappers {

  datatype Option<+T> = None | Some(value: T)

  datatype Result<+R, +E> = Ok(value: R) | Err(error: E)
}
