/**
 Failure-compatible outcomes for the codec. The source signals every failure by
 raising a Python exception; here each raise site becomes one tag of `Error`,
 carried by `Result`.
 */
module Results {

  /** One tag per raise site of the codec (the Python exception class in brackets). */
  datatype Error =
    | PayloadTooLarge         // encode: 126000 payload bytes or more [ValueError]
    | MissingSize             // encode: a media type other than the last has no `s` [ValueError]
    | ReservedParam           // encode: a parameter named `media_type` repeats render_media_type's first argument [TypeError]
    | IndexOutOfRange         // row index outside 0..1295 [AssertionError]
    | NotAscii                // str.encode / bytes.decode with the "ascii" codec [UnicodeError]
    | MissingRow              // decode: indexing a row past the end [IndexError]
    | BadPrefix               // decode: row 0's key does not start with "001" [AssertionError]
    | BadLength               // decode: unreadable or oversized metadata length [ValueError]
    | MetadataLengthMismatch  // decode: "parsing metadata failed" [AssertionError]
    | MalformedParam          // decode: a parameter is not exactly `k=v` [ValueError]
    | BadSize                 // decode: an `s` parameter is not a number [ValueError]
    | ChecksumMismatch        // decode: "Invalid checksum" [ValueError]
    | CountMismatch           // decode: "Media type count does not match buffer count" [ValueError]

  datatype Option<+T> = None | Some(value: T)

  datatype Result<+T> = Success(value: T) | Failure(error: Error) {

    predicate IsFailure() {
      Failure?
    }

    function PropagateFailure<U>(): Result<U>
      requires Failure?
    {
      Failure(error)
    }

    function Extract(): T
      requires Success?
    {
      value
    }
  }

  /** Turns an absent value into the given failure. */
  function Need<T>(o: Option<T>, e: Error): (r: Result<T>)
    ensures r.Success? <==> o.Some?
    ensures r.Success? ==> r.value == o.value
    ensures r.Failure? ==> r.error == e
  {
    match o
    case Some(v) => Success(v)
    case None => Failure(e)
  }
}
