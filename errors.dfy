/** The encoder's error kinds and the `Result` its callbacks return. */
module Errors {

  /**
   * `LenNotKnown`: a sequence or map was opened without an element count.
   * `Utf8`: the finished output is not UTF-8 text, raised by `to_string`.
   */
  datatype Error = LenNotKnown | Utf8

  datatype Result<T> = Ok(value: T) | Err(error: Error) {
    predicate IsFailure() {
      Err?
    }

    function PropagateFailure<U>(): Result<U>
      requires Err?
    {
      Err(error)
    }

    function Extract(): T
      requires Ok?
    {
      value
    }
  }
}
