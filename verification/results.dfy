/** Option and Result values standing in for Rust's `Option` and for the
    `Result<_, Error>` that the bot's handlers propagate with `?`. */
module Results {

  datatype Option<+T> = None | Some(value: T)

  datatype Result<+T, +E> = Ok(value: T) | Err(error: E)
}
