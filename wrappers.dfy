/** Option and Result values for the outcomes the commands branch on. */
module Wrappers {

  datatype Option<+T> = None | Some(value: T)

  /** The outcome of an asynchronous collaborator call: its value, or the raw rejection. */
  datatype Result<+R> = Success(value: R) | Failure(raw: string)
}
