/**
 * Failure-compatible wrappers shared by the numeric codec and the
 * instruction transcoder, and the structural error kinds they report.
 */
module Results {

  /** The error kinds the core reports; none of them is fatal. */
  datatype Error =
    | InvalidNaturalBytes          // empty input to the natural-number decoder
    | InvalidPrimitiveApplication  // wrong primitive name, or the argument list ran out
    | InvalidMichelsonInstruction  // a downcast to a narrower union did not match
    | NotPrimitiveApplication      // a generic node that is neither a sequence nor a primitive application

  datatype Option<+T> = None | Some(value: T) {
    function GetOr(default: T): T {
      match this
      case Some(v) => v
      case None => default
    }
  }

  datatype Result<+T> = Ok(value: T) | Err(error: Error) {
    predicate IsFailure() {
      Err?
    }

    function PropagateFailure<U>(): Result<U>
      requires Err?
    {
      Err(error)
    }

    function Extract(): T
      requires Ok?
    {
      value
    }
  }
}
