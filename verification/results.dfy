/** Failure-compatible result types shared by the whole encoder model.

    The Java code reports failure by throwing: `WriterException` for encoding
    problems and broken internal invariants, `IllegalArgumentException` for bad
    arguments, and the JVM's own `ArithmeticException` and index exceptions
    when a computation cannot proceed. Here each of those becomes an `Err`
    value that carries the kind of failure.
 */
module Results {

  /** Why an operation failed. */
  datatype Failure =
    | IllegalArgument        // IllegalArgumentException: the caller passed a bad value
    | IllegalState           // IllegalStateException: the symbol has no matrix
    | DataTooBig             // WriterException: no version 1..40 holds the data
    | LengthTooBig           // WriterException: the character count does not fit its field
    | InvalidCharacter       // WriterException: a character has no alphanumeric code
    | InvalidByteSequence    // WriterException: a Shift_JIS pair is outside both Kanji ranges
    | InvalidMode            // WriterException: no segment encoder for the mode
    | UnsupportedEncoding    // WriterException wrapping UnsupportedEncodingException
    | BitsExceedCapacity     // WriterException: the bit stream is longer than the data capacity
    | CapacityMismatch       // WriterException: padding did not reach the capacity exactly
    | BlockIdTooLarge        // WriterException: a block index at or beyond the block count
    | EcBytesMismatch        // WriterException: the two block groups disagree on EC bytes
    | BlocksMismatch         // WriterException: the two block groups do not add up
    | TotalBytesMismatch     // WriterException: the block sizes do not add up to the total
    | DataBytesMismatch      // WriterException: the stream size or block offsets disagree with the data bytes
    | InterleavingMismatch   // WriterException: the interleaved stream has the wrong length
    | DivisionByZero         // ArithmeticException
    | IndexOutOfBounds       // String/Array index exceptions
    | NegativeArraySize      // NegativeArraySizeException

  /** A value, or the failure that prevented computing it. */
  datatype Result<+T> = Ok(value: T) | Err(failure: Failure) {

    predicate IsFailure() {
      Err?
    }

    function PropagateFailure<U>(): Result<U>
      requires Err?
    {
      Err(failure)
    }

    function Extract(): T
      requires Ok?
    {
      value
    }
  }

  /** Java's `null` for an optional reference. */
  datatype Option<+T> = None | Some(value: T)
}
