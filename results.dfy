/** Error values and the failure-compatible wrappers used by the decoders. */
module Results {

  /** The ways decoding and checking an attestation report can fail. */
  datatype Error =
    | QuoteParsingError     // every "Quote parsing error." bail of the two parsers
    | ReportError           // AttestationError::ReportError
    | NegativeAge           // u64::try_from of a negative number of seconds
    | KeyIndexOutOfBounds   // indexing the first octet of an empty public key (a panic)

  datatype Option<+T> = None | Some(value: T)

  datatype Result<+T> = Success(value: T) | Failure(error: Error) {
    predicate IsFailure() { Failure? }

    function PropagateFailure<U>(): Result<U>
      requires Failure?
    {
      Failure(error)
    }

    function Extract(): T
      requires Success?
    {
      value
    }
  }
}
