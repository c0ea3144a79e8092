/** Optional values and the failures the Forge module can raise. */
module Outcome {

  datatype Option<T> = None | Some(value: T)

  /** The exceptions of the Forge module that the model keeps. */
  datatype Error =
    | MalformedVersion(text: string)  // ForgeVersion.new on text that is not a version
    | NilReceiver                     // a method called on nil
    | InvalidTitle(title: string)     // parse_title's ArgumentError

  datatype Result<T> = Ok(value: T) | Err(error: Error) {
    predicate IsFailure() { Err? }

    function PropagateFailure<U>(): Result<U>
      requires Err?
    {
      Err(error)
    }

    function Extract(): T
      requires Ok?
    {
      value
    }
  }
}
