/** Error codes and the result types every fallible operation returns. */
module Results {

  /** The error codes the modelled operations can return; detail text is not modelled. */
  datatype ErrorCode =
    | SentenceEmpty | SentenceTooShort | SentenceInvalidStart | SentenceMissingChecksum
    | SentenceChecksumBad | SentenceFieldMissing | SentenceFieldInvalid
    | SentenceTalkerInvalid | SentenceTypeInvalid
    | PayloadEmpty | PayloadCharInvalid | PayloadFillBitsInvalid | PayloadTooShort
    | BitfieldOutOfRange | BitfieldWidthInvalid
    | MultipartOutOfOrder | MultipartDuplicate | MultipartCountInvalid
    | MultipartSeqInvalid | MultipartTalkerConflict
    | MessageTypeUnknown | MessageTypeUnsupported | MessageDecodeFailure

  datatype Option<+T> = None | Some(value: T)

  datatype Result<+T> = Success(value: T) | Failure(error: ErrorCode) {
    predicate IsFailure() { Failure? }

    function PropagateFailure<U>(): Result<U>
      requires Failure?
    {
      Failure(error)
    }

    function Extract(): T
      requires Success?
    {
      value
    }
  }

  /** The result of an operation that returns no value. */
  datatype Outcome = Done | Failed(error: ErrorCode)
}
