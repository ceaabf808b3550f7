/** The crate's error type (src/error.rs) and the Result that its fallible operations return. */
module Errors {

  /** The two error kinds. `QueryString` exists in the source but no operation produces it. */
  datatype Error = QueryString | PercentEncoding

  /** `Result<T, Error>`: a value, or one of the crate's errors. */
  datatype Result<T> = Ok(value: T) | Err(error: Error)
}
