/** Failure-compatible result and option types shared by every layer of the decoder.
    `Result` stands in for Rust's `std::io::Result` and `color_eyre::Result`; both
    may be used with `:-` to propagate the first failure, as `?` does in the source. */
module Results {

  datatype Option<+T> = None | Some(value: T)

  datatype Result<+T, +E> = Ok(value: T) | Err(error: E) {

    predicate IsFailure() {
      Err?
    }

    function PropagateFailure<U>(): Result<U, E>
      requires Err?
    {
      Err(error)
    }

    function Extract(): T
      requires Ok?
    {
      value
    }
  }
}
