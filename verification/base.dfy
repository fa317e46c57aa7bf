/** Shared value types: bytes of a serialisation buffer, optional values, and
    the outcome of an operation that can stop the program with a fatal error. */
module Base {

  /** One byte of a communication buffer. */
  newtype byte = b: int | 0 <= b < 256

  datatype Option<T> = None | Some(value: T)

  /** The fatal conditions the modelled operations can reach.  In the program
      each of them aborts (an assertion or `MayDay::Error`); the model returns
      them as values so that callers can state exactly when they happen. */
  datatype Fault =
    | IndexNotFound            // MiniIFFAB lookup of a face it does not hold
    | FaceDirectionMismatch    // a face of another direction handed to the accessor
    | ComponentOutOfRange      // a component outside 0 .. nComp-1 handed to the accessor
    | BufferOverrun            // deserialisation reading beyond the end of the buffer
    | DegenerateNeighbourhood  // normalisation over a neighbourhood of zero weight

  datatype Result<T> = Ok(value: T) | Fail(fault: Fault)
}
