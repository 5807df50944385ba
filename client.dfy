/** The session (`Client`): holds the client and destination connections, replaces them
    through setters that dispose what they replace, and hands both to a relay. */
module Session {
  import opened Wrappers
  import opened Net
  import opened Relay

  /** A connection as the session sees it: an identity and its two endpoints. */
  datatype Conn = Conn(id: nat, localEndPoint: Endpoint, remoteEndPoint: Endpoint)

  class Client {
    var clientSocket: Option<Conn>
    var destinationSocket: Option<Conn>
    const hasDestroyer: bool
    var relay: RelayThread?
    /** The connections the setters have disposed, in order. */
    var disposed: seq<Conn>

    ghost predicate Valid()
      reads this, relay
    {
      relay != null ==> relay.Valid()
    }

    /** The parameterless constructor: no sockets, no destroyer, no relay. */
    constructor Empty()
      ensures Valid() && clientSocket.None? && destinationSocket.None?
      ensures !hasDestroyer && relay == null && disposed == []
    {
      clientSocket, destinationSocket := None, None;
      hasDestroyer := false;
      relay := null;
      disposed := [];
    }

    /** The constructor with a client connection and a destroyer. */
    constructor (client: Conn, hasDestroyer: bool)
      ensures Valid() && clientSocket == Some(client) && destinationSocket.None?
      ensures this.hasDestroyer == hasDestroyer && relay == null && disposed == []
    {
      clientSocket, destinationSocket := Some(client), None;
      this.hasDestroyer := hasDestroyer;
      relay := null;
      disposed := [];
    }

    /** The `ClientSocket` setter: a previous connection is disposed before the new one is stored. */
    method SetClientSocket(value: Option<Conn>)
      modifies this`clientSocket, this`disposed
      ensures clientSocket == value
      ensures disposed == old(disposed) + (if old(clientSocket).Some? then [old(clientSocket).value] else [])
    {
      if clientSocket.Some? {
        disposed := disposed + [clientSocket.value];
      }
      clientSocket := value;
    }

    /** The `DestinationSocket` setter, likewise. */
    method SetDestinationSocket(value: Option<Conn>)
      modifies this`destinationSocket, this`disposed
      ensures destinationSocket == value
      ensures disposed == old(disposed) + (if old(destinationSocket).Some? then [old(destinationSocket).value] else [])
    {
      if destinationSocket.Some? {
        disposed := disposed + [destinationSocket.value];
      }
      destinationSocket := value;
    }

    /** `Dispose`: forwarded to the relay when there is one; before that it does nothing. */
    method Dispose()
      requires Valid()
      modifies relay
      ensures Valid()
      ensures relay != null ==>
        (relay.disposeCalled &&
         relay.trace == old(relay.trace) +
           (if old(relay.disposeCalled) then [] else Teardown(relay.hasClient, relay.hasRemote, relay.hasDestroyer)))
    {
      if relay != null {
        relay.Dispose();
      }
    }

    /** Whether the session would relay to itself: the client connection's local endpoint is the
        destination's remote endpoint. */
    predicate IsLoop()
      reads this
      requires clientSocket.Some? && destinationSocket.Some?
    {
      clientSocket.value.localEndPoint == destinationSocket.value.remoteEndPoint
    }

    /** `StartRelay`: a proxy loop (or a missing connection, an exception in the source) disposes
        and creates no relay; otherwise one relay over both connections is created and started. */
    method StartRelay()
      requires Valid()
      modifies this`relay, relay
      ensures Valid()
      ensures clientSocket.None? || destinationSocket.None? || IsLoop() ==>
        (relay == old(relay) &&
         (relay != null ==>
            (relay.disposeCalled &&
             relay.trace == old(relay.trace) +
               (if old(relay.disposeCalled) then [] else Teardown(relay.hasClient, relay.hasRemote, relay.hasDestroyer)))))
      ensures clientSocket.Some? && destinationSocket.Some? && !IsLoop() ==>
        (relay != null && fresh(relay) && relay.hasClient && relay.hasRemote &&
         relay.hasDestroyer == hasDestroyer && !relay.disposeCalled &&
         relay.trace == [Receive(ClientSide), Receive(RemoteSide)])
    {
      if clientSocket.None? || destinationSocket.None? {
        Dispose();
      } else if clientSocket.value.localEndPoint == destinationSocket.value.remoteEndPoint {
        Dispose();
      } else {
        var r := new RelayThread(true, true, hasDestroyer);
        r.Start();
        relay := r;
      }
    }
  }

  /** A client connected to the proxy's own endpoint is disposed without a relay ever being
      created, and with no destroy notification. */
  method LoopNeverRelays(a: Endpoint, b: Endpoint)
  {
    var c := new Client(Conn(0, a, b), true);
    c.SetDestinationSocket(Some(Conn(1, b, a)));
    c.StartRelay();
    assert c.relay == null;
  }
}
