/** Failure-compatible result types shared by the codec, sender and receiver. */
module Wrappers {

  datatype Option<+T> = None | Some(value: T)

  /** The exception kinds of the transfer core, one per Python exception the
      modelled code raises or catches. */
  datatype Error =
    | StructError        // struct.pack / struct.unpack_from out of range
    | ValueError         // SecurityHandler: key is not 32 bytes; GCM: bad IV or tag length
    | UnicodeError       // bytes.decode() on malformed UTF-8
    | ConnectionError    // _receive_exact: connection closed prematurely
    | InvalidTag         // AES-GCM authentication failure
    | AttributeError     // decrypting with no security handler set

  datatype Result<+T> = Ok(value: T) | Err(error: Error) {
    predicate IsFailure() { Err? }

    function PropagateFailure<U>(): Result<U>
      requires Err?
    {
      Err(error)
    }

    function Extract(): T
      requires Ok?
    {
      value
    }
  }
}
