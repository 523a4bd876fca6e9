/** The Rust standard-library shapes the program is written against: `Option`,
    `Result`, and the one part of `std::io::Error` that reaches the user. */
module Types {

  datatype Option<T> = None | Some(value: T)

  datatype Result<T, E> = Ok(value: T) | Err(error: E)

  /** An `std::io::Error`, kept opaque: only the text its `Display` prints. */
  datatype IoError = IoError(detail: string)
}
