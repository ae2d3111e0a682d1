/** The two sum types the model shares: `Option` for values SQL stores as
    NULL or a query that may not run, `Result` for operations that abort
    with a reported error. */
module Wrappers {

  datatype Option<+T> = None | Some(value: T)

  datatype Result<+R, +E> = Success(value: R) | Failure(error: E)
}
