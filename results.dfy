/** Option and Result values for the operations of the secret sharer, and the
    errors that the Python implementation raises as exceptions. */
module Results {

  datatype Option<T> = None | Some(value: T)

  /** The exceptions of ss.py (and of the collaborators it calls), one per cause. */
  datatype Error =
    | ThresholdTooSmall       // a threshold below 2
    | ThresholdExceedsShares  // a threshold above the number of points
    | SecretTooLong           // no tabulated prime covers the secret and the share count
    | NegativeDegree          // random_polynomial with a negative degree
    | EmptyRandomRange        // the random source asked for an integer in an empty range
    | EmptyPoints             // unpacking zip(*points) of an empty point list
    | NoPrimeForPoints        // inferred prime is None, so the interpolation cannot reduce modulo it
    | DashInCharset           // the share charset contains the delimiter '-'
    | BadShareFormat          // a share string without exactly one '-'
    | CharNotInCharset        // a symbol outside the declared charset
    | NegativeValue           // the codec cannot encode a negative integer

  datatype Result<T> = Success(value: T) | Failure(error: Error)
}
