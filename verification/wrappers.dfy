/** Option and Result, the two ways a crud.py operation hands back "nothing" or an error. */
module Wrappers {

  /** A query that may find no row (SQLAlchemy's `first()` returns `None`). */
  datatype Option<+T> = None | Some(value: T)

  /** A success value or an error (crud.py returns or raises an `Exception`). */
  datatype Result<+T, +E> = Ok(value: T) | Err(error: E)
}
