/** Option and Result values, standing in for JavaScript's `undefined` returns and thrown errors. */
module Wrappers {

  datatype Option<T> = None | Some(value: T)

  datatype Result<T, E> = Success(value: T) | Failure(error: E)
}
