/** Optional values and failures shared by every module of the model. */
module Results {

  datatype Option<+T> = None | Some(value: T)

  /** The outcome of an operation the source can throw from. */
  datatype Result<+T> = Ok(value: T) | Err(error: Error)

  /**
   * The errors the library raises. `EndOfFile` is `EOFError` (errors.ts:1),
   * `PartialRead` the standard reader's error for a stream that ends inside
   * a `readFull`, `RangeError` a `DataView` access past the end of its buffer,
   * the rest the `Error` messages of the sockets and queues.
   */
  datatype Error =
    | EndOfFile
    | PartialRead
    | RangeError
    | WriteFailed
    | FlushFailed
    | ConnectionNotReady      // ConnectionNotReadyError (errors.ts:25-29)
    | NoConnection            // a `connected()!` that is undefined (TypeError)
    | AlreadyBound            // "bind already!"
    | AlreadyConnected        // "connect already!"
    | HandshakeFailed         // "Require ready command!" / "handshake failed!"
    | NoActiveConnection      // "No actived connection!"
    | NoMessages              // "At least one message!"
    | QueueClosed             // "Unbounded is closed!"
    | NotLoaded               // "Next item has not been loaded!" / "call load first"
}
