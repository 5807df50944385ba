/** What the two protocol handlers share with their (abstractly specified) base class:
    the effects a handler has on the client connection, and the accumulation of
    received octets. The handlers are driven by their callbacks, one at a time; each
    callback appends the effects it causes to the handler's trace. */
module SocksHandler {
  import opened Net

  /** The callback a send completes into. */
  datatype Continuation =
    | AuthSent        // SOCKS 5 method selection sent
    | DisposeGood     // negotiation succeeded: hand over to the relay
    | DisposeBad      // negotiation failed: tear down
    | StartAccept     // BIND reply sent: wait for the inbound connection
    | UdpReceive   // UDP ASSOCIATE reply sent

  /** One effect of a handler callback. */
  datatype Action =
    | Send(data: seq<byte>, next: Continuation)   // send on the client connection
    | Receive                                     // arm a receive into the handler's buffer
    | Close                                       // `Dispose(false)`: tear down without a reply
    | StartAuthentication(userPass: bool)         // run the selected SOCKS 5 method
    | Connect(addr: seq<byte>, port: Port)        // open the upstream connection
    | CloseListener                               // dispose the BIND listening socket

  /** The base class's `AddBytes`: the octets accumulated so far followed by the first
      `n` octets of the receive buffer. */
  function AddBytes(bytes: seq<byte>, buffer: seq<byte>, n: nat): (r: seq<byte>)
    requires n <= |buffer|
    ensures |r| == |bytes| + n && r[..|bytes|] == bytes && r[|bytes|..] == buffer[..n]
  {
    bytes + buffer[..n]
  }

  /** The completion a reply is sent with: the good path exactly when octet 1 is the
      protocol's success code. */
  function DisposeCompletion(reply: seq<byte>, success: byte): (c: Continuation)
    requires |reply| >= 2
    ensures c == DisposeGood || c == DisposeBad
    ensures c == DisposeGood <==> reply[1] == success
  {
    if reply[1] == success then DisposeGood else DisposeBad
  }
}
