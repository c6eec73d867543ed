/** Outcome types that replace the panics of `encode` and `decode` and the `Option` returned by the bit reader. */
module Results {

  datatype Option<T> = None | Some(value: T)

  datatype Result<T, E> = Ok(value: T) | Err(error: E)

  /** Why an encode is refused; both are reported before the carrier is touched. */
  datatype EncodeError =
    | OversizedPayload      // the payload length does not fit the 32-bit length field
    | InsufficientCapacity  // the carrier has fewer than 32 + 8 * length bytes

  /** Why a decode is refused. */
  datatype DecodeError =
    | TruncatedHeader   // the carrier is shorter than the 32-byte length field
    | TruncatedPayload  // the carrier is shorter than the length field claims
}
