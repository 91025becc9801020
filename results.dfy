/** Result and Option values: the model's stand-in for `lak::result` and `lak::optional`. */
module Results {

  /** Either a value or an error code. `:-` propagates the error, as `RES_TRY` does. */
  datatype Result<+T, +E> = Ok(value: T) | Err(error: E) {
    predicate IsFailure() { Err? }

    function PropagateFailure<U>(): Result<U, E>
      requires Err?
    {
      Err(error)
    }

    function Extract(): T
      requires Ok?
    {
      value
    }
  }

  /** An optional value. */
  datatype Option<+T> = None | Some(value: T)
}
