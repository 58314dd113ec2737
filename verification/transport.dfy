/** The outcome of one awaited call to the books API.

    Every API function either resolves with the response body or rejects.
    The HTTP exchange itself is not modelled: a handler receives the
    settled outcome of its call as an argument. A rejection carries the
    three cases the API client distinguishes: the request could not be
    made at all, it was sent but no response came, or a response came
    with a non-success status.
 */
module Transport {

  datatype TransportError =
    | RequestFailed(message: string)
    | NoResponse
    | ErrorStatus(code: int)

  /** A settled call: `Ok` when the awaited promise resolved with `value`,
      `Err` when it rejected. */
  datatype Result<+T> = Ok(value: T) | Err(error: TransportError)
}
