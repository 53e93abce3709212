/** The error kinds the codec returns, and the two wrappers the model uses for Go's `(value, error)`. */
module Results {

  datatype Error =
    | UnexpectedEOF            // io.ErrUnexpectedEOF
    | IntOverflow              // ErrIntOverflow*
    | InvalidLength            // ErrInvalidLength*
    | UnexpectedEndOfGroup     // ErrUnexpectedEndOfGroup*
    | IllegalWireType          // "illegal wireType" of the skipper
    | EndGroupForNonGroup      // "wiretype end group for non-group"
    | IllegalTag               // "illegal tag"
    | WrongWireType            // "wrong wireType for field"

  datatype Option<+T> = None | Some(value: T)

  datatype Result<+T> = Ok(value: T) | Err(error: Error)
}
