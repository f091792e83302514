/**
 * The failures the decoders raise and the result type that carries them.
 * EBadTransportException and EBadHardwareException (exceptions.h) become
 * TransportMismatch and HardwareMismatch, each with the message the source
 * throws; Truncated stands for a read the original would make past the end
 * of a view.
 */
module Outcome {

  datatype Failure =
    | TransportMismatch(message: string)
    | HardwareMismatch(message: string)
    | Truncated

  datatype Result<+T> = Ok(value: T) | Err(failure: Failure) {
    predicate IsFailure() {
      Err?
    }

    function PropagateFailure<U>(): Result<U>
      requires Err?
    {
      Err(failure)
    }

    function Extract(): T
      requires Ok?
    {
      value
    }
  }

  datatype Option<+T> = None | Some(value: T)
}
