/** The single failure kind of the decoder, split by cause, and the result types that carry it. */
module Results {

  /** Why a decode call failed. Every cause aborts the whole call. */
  datatype Error =
    | NotEnoughBits          // the bit cursor was asked for more bits than remain
    | IllegalDigitGroup      // a numeric group of 3, 2 or 1 digits holds a value >= 1000, 100 or 10
    | SymbolIndexOutOfRange  // an alphanumeric value indexes past the 45-entry symbol table
    | CountTooLarge          // a byte segment declares more bytes than the bits that remain
    | UnsupportedMode        // a mode that is none of NUMERIC, ALPHANUMERIC, BYTE, KANJI, TERMINATOR

  /** A value or the error that stopped its computation; failure-compatible, so `:-` propagates errors. */
  datatype Result<T> = Ok(value: T) | Err(error: Error) {
    predicate IsFailure() { Err? }

    function PropagateFailure<U>(): Result<U>
      requires Err?
    {
      Err(error)
    }

    function Extract(): T
      requires Ok?
    {
      value
    }
  }

  /** What a segment decoder method reports: it went through, or the error that aborted it. */
  datatype Outcome = Pass | Fail(error: Error)
}
