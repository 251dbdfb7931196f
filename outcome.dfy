/** Failure-carrying return types shared by the model. */
module Outcome {

  /** An optional value, as returned by `lookup` and by the select queries. */
  datatype Option<+T> = None | Some(value: T)

  /** The result of an operation that may panic: either a value or the panic message. */
  datatype Result<+T> = Ok(value: T) | Panic(message: string)
}
