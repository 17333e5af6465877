/** Option, Result and the error conditions a translation can end in. */
module Wrappers {

  datatype Option<+T> = None | Some(value: T)

  /** The exceptions the translator lets escape, plus the one case where the
      model cannot represent what Python would build. */
  datatype Error =
    | KeyError(key: string)   // an operator missing from the condition table
    | IndexError              // `[0]` on an empty token list
    | AttributeError          // `.tokens` on a plain token, or a method called on None
    | NotAnExpression         // a name, list or marker would end up where an algebra node belongs

  datatype Result<+T> = Success(value: T) | Failure(error: Error)
}
