/** Option and Result types, and the errors the analysis can raise. */
module Wrappers {

  /** A value that may be absent; `None` stands for pandas' missing value. */
  datatype Option<+T> = None | Some(value: T)

  /** The two exceptions the volatility pipeline itself raises. */
  datatype Error =
    | KeyError(message: string)    // a missing column: no close column, or the named column is absent
    | IndexError(message: string)  // `.iloc[-1]` on an empty column

  /** The outcome of an operation that either returns a value or raises. */
  datatype Result<+T> = Ok(value: T) | Err(error: Error)
}
