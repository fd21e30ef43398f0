/** Failure-carrying values shared by every layer of the model.
    Python exceptions of the library become `Err(fault)`; the kind records
    which Python exception the original raises at that point. */
module Wrappers {

  datatype Option<+T> = None | Some(value: T)

  /** What a Python exception inside the library stands for. */
  datatype Fault =
    | ReadTimeout         // `ord('')` on a serial read that timed out (TypeError)
    | BadHex              // `int(x, 16)` or `unhexlify` on a malformed hex string (ValueError/TypeError)
    | OutOfRange          // string or list indexing past the end (IndexError)
    | NotInAlphabet       // character missing from the GSM 03.38 table (KeyError)
    | StatusWordMismatch  // `sendAPDU(..., checkSW=True)` with an unexpected status word
    | DivisionByZero      // record count computed with a zero record length
    | BadDigit            // `int(c)` on a character that is not a decimal digit (ValueError)
    | BadDate             // `calendar.weekday` or `time.asctime` on an impossible date or time (ValueError)

  datatype Result<+T> = Ok(value: T) | Err(fault: Fault) {
    predicate IsFailure() { Err? }

    function PropagateFailure<U>(): Result<U>
      requires Err?
    {
      Err(fault)
    }

    function Extract(): T
      requires Ok?
    {
      value
    }
  }
}
