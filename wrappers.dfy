/** Option and Result types shared by the modules of the model. */
module Wrappers {

  datatype Option<+T> = None | Some(value: T)

  /** The outcome of an operation that the C code may abort. */
  datatype Result<+T, +E> = Ok(value: T) | Err(error: E) {

    predicate IsFailure() {
      Err?
    }

    function PropagateFailure<U>(): Result<U, E>
      requires Err?
    {
      Err(error)
    }

    function Extract(): T
      requires Ok?
    {
      value
    }
  }
}
