// Option and Result types shared by every module, and the error kinds the
// C++ code raises as exceptions.
module Wrappers {

  datatype Option<T> = None | Some(value: T)

  /** The distinct failures of the session layer, one per kind of exception. */
  datatype Error =
    | OutOfBounds        // a read past the end of a buffer ("... read out of bounds")
    | VarIntTooBig       // a VarInt longer than five bytes
    | LengthError        // std::length_error from reserve/resize of a wrapped negative size
    | SizeMismatch       // an inflated payload whose size differs from the announced length
    | InvalidArgument    // std::invalid_argument from the UUID helpers and parseUrl
    | ConnectionClosed   // the socket read failed because the peer sent nothing more
    | NotConnected       // TcpConnection::sendPacket on a closed connection
    | BadOptionalAccess  // std::optional::value() on an empty optional
    | UnsupportedScheme  // an HTTP request for a scheme other than http and https
    | BadKey             // the AES key is not exactly 16 bytes long
    | ZlibFailed         // std::runtime_error from decompress when uncompress fails

  datatype Result<T> = Ok(value: T) | Err(error: Error)
  {
    predicate IsFailure() { Err? }

    function PropagateFailure<U>(): Result<U>
      requires Err?
    {
      Err(error)
    }

    function Extract(): T
      requires Ok?
    {
      value
    }
  }

  /** Whether a result succeeded, without its value: what a packet's read reports. */
  function Status<T>(r: Result<T>): (s: Result<()>)
    ensures s.Ok? <==> r.Ok?
    ensures s.Err? ==> s.error == r.error
  {
    if r.Ok? then Ok(()) else Err(r.error)
  }

  /** What a read at a cursor yields: its result and where the cursor is afterwards
      (also after a failure, since the C++ readers advance before they throw). */
  datatype Read<T> = Read(result: Result<T>, next: nat)
}
