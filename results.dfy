/** Option and Result wrappers, and the ways a map load can fail. */
module Results {

  datatype Option<+T> = None | Some(value: T)

  /** The exceptions the loader lets escape, one constructor per cause. */
  datatype LoadError =
    | NotAMap                       // root element is not `map`
    | NoDimensions                  // no positive width/height pair anywhere
    | BadNumber(text: string)       // Integer.parseInt / Long.parseLong rejected an attribute or token
    | BadCompression(tag: string)   // compression tag the decoder does not know
    | BadPayload                    // base64 text that does not decode, or a corrupt gzip/zlib stream
    | BadBufferSize                 // GZIPInputStream given a buffer size that is not positive
    | TileCountMismatch             // csv token count differs from width*height
    | NullReference                 // a null dereference in the source
    | NegativeSize                  // a layer grid with a negative side cannot be allocated

  datatype Result<+T> = Ok(value: T) | Err(error: LoadError) {
    predicate IsFailure() { Err? }

    function PropagateFailure<U>(): Result<U>
      requires Err?
    {
      Err(error)
    }

    function Extract(): T
      requires Ok?
    {
      value
    }
  }
}
