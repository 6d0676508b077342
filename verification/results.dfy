/** Failure-compatible results for the conversions that raise an exception in the program. */
module Results {

  /** Why a conversion failed. */
  datatype Fault =
    | NotBinary    // int(s, 2) on an empty string or one that is not all '0'/'1'
    | NotDecimal   // int(b) on bytes that are not a decimal literal
    | NotUtf8      // bytes.decode() on bytes that are not well-formed UTF-8
    | BadLength    // a payload bit count that is negative or not whole bytes (corrected decoder only)
    | TooShort     // fewer payload bits than the header announces (corrected decoder only)

  datatype Result<T> = Ok(value: T) | Err(fault: Fault) {
    predicate IsFailure() { Err? }

    function PropagateFailure<U>(): Result<U>
      requires Err?
    {
      Err(fault)
    }

    function Extract(): T
      requires Ok?
    {
      value
    }
  }
}
