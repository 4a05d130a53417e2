/** The failures a lookup can end in, and the result type that carries them. */
module Outcomes {

  /**
   * AddressFormat: the address text does not have four '.'-separated parts ("ip format error").
   * NotFound: the search matched no index block, or the matched block's pointer is 0.
   * RuntimePanic: the Go code indexed or sliced the image out of bounds; the runtime panics
   * there, and the HTTP server recovers the panic for that one request.
   */
  datatype Error = AddressFormat | NotFound | RuntimePanic

  datatype Result<T> = Success(value: T) | Failure(error: Error)
}
