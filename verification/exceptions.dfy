/**
 The outcomes shared by the whole model: a nullable reference, the .NET
 exceptions the client side throws, and a value-or-exception result.
 */
module Exceptions {
  import opened Runtime

  /** A reference that may be `null`. */
  datatype Option<+T> = None | Some(value: T)

  /** Why an `ArgumentException` was thrown. */
  datatype Reason =
    | DuplicateMessageType(tag: Tag)
    | NotAMessage(typeName: string)
    | NoParameterlessConstructor(typeName: string)
    | DuplicateKey(typeName: string)

  /** The exceptions raised by the modelled code, with the parameter name they carry. */
  datatype Exception =
    | ArgumentNull(paramName: string)
    | Argument(paramName: string, reason: Reason)
    | NotSupported
    | InvalidOperation(message: string)
      /** A value reader asked for a token that is not next in its stream. */
    | ReadFault

  /** Either the value an operation returned or the exception it threw. */
  datatype Result<+T> = Ok(value: T) | Throw(error: Exception)
}
