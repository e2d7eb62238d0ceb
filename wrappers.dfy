/** Optional values (a pandas cell that may be missing) and results with an error. */
module Wrappers {

  /** A cell of a DataFrame column: `None` stands for pandas' missing value (NaN). */
  datatype Option<+T> = None | Some(value: T)

  /** The outcome of a script run: its products, or the exception that stopped it. */
  datatype Result<+T, +E> = Ok(value: T) | Err(error: E)
}
