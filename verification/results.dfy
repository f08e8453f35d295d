/** The failures the sigil layer can surface, and a result type carrying them.
    Each error kind stands for a Python exception the modelled code raises
    or lets escape from a collaborator. */
module Results {

  datatype Error =
    | ZeroDivision    // `i % len(key)` with an empty key
    | NonHexDigit     // `bytes.fromhex` rejects its argument (ValueError)
    | ParseError      // the glyph-note front end rejects the cover text
    | MalformedSigil  // `rehydrate_sigil` cannot unpack the sigil string

  datatype Result<+T> = Success(value: T) | Failure(error: Error) {

    predicate IsFailure() {
      Failure?
    }

    function PropagateFailure<U>(): Result<U>
      requires Failure?
    {
      Failure(error)
    }

    function Extract(): T
      requires Success?
    {
      value
    }
  }
}
