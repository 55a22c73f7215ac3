/** Error values of the encoder and the decoder, and the Result type that
    carries them in place of the exceptions the program raises. */
module Results {

  datatype Error =
    /** The cardinality bound k is negative; the encoder refuses it rather than clamping. */
    | InvalidBound(k: int)
    /** A chosen decision variable has no set in the instance's set list. */
    | SetIndexOutOfRange

  datatype Result<+T> = Success(value: T) | Failure(error: Error)
}
