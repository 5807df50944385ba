/** The relay engine: after negotiation it pumps octets between the client connection and
    the upstream ("remote") connection, one direction at a time per connection, and tears
    both down once. Completion callbacks are applied one at a time. */
module Relay {
  import opened Net

  datatype Side = ClientSide | RemoteSide

  /** One effect on a connection or on the session's owner. */
  datatype Effect =
    | Receive(side: Side)                // arm a receive into that side's buffer
    | Send(side: Side, data: seq<byte>)  // send on that side's connection
    | Shutdown(side: Side)               // shut down both directions
    | Close(side: Side)
    | Destroy                            // `Destroyer(client)`

  /** Size of each direction's buffer, 8192 * 4. */
  const BufferSize: nat := 32768

  /** How often an effect occurs in a trace. */
  function Count(t: seq<Effect>, e: Effect): nat
  {
    if t == [] then 0 else Count(t[..|t| - 1], e) + (if t[|t| - 1] == e then 1 else 0)
  }

  lemma {:induction false} CountAppend(s: seq<Effect>, t: seq<Effect>, e: Effect)
    ensures Count(s + t, e) == Count(s, e) + Count(t, e)
    decreases |t|
  {
    if t == [] {
      assert s + t == s;
    } else {
      assert (s + t)[..|s + t| - 1] == s + t[..|t| - 1];
      CountAppend(s, t[..|t| - 1], e);
    }
  }

  /** The effects of the first `Dispose`: shut down and close each connection there is, then
      notify the owner if there is a destroyer. */
  function Teardown(hasClient: bool, hasRemote: bool, hasDestroyer: bool): (t: seq<Effect>)
    ensures |t| == (if hasClient then 2 else 0) + (if hasRemote then 2 else 0) + (if hasDestroyer then 1 else 0)
    ensures forall i | 0 <= i < |t| :: !t[i].Receive? && !t[i].Send?
  {
    (if hasClient then [Shutdown(ClientSide), Close(ClientSide)] else [])
    + (if hasRemote then [Shutdown(RemoteSide), Close(RemoteSide)] else [])
    + (if hasDestroyer then [Destroy] else [])
  }

  /** How often one effect occurs in a teardown, connection by connection. */
  lemma {:induction false} TeardownCount(hasClient: bool, hasRemote: bool, hasDestroyer: bool, e: Effect)
    ensures Count(Teardown(hasClient, hasRemote, hasDestroyer), e)
      == (if hasClient then CountOf2(Shutdown(ClientSide), Close(ClientSide), e) else 0)
       + (if hasRemote then CountOf2(Shutdown(RemoteSide), Close(RemoteSide), e) else 0)
       + (if hasDestroyer && e == Destroy then 1 else 0)
  {
    var c: seq<Effect> := if hasClient then [Shutdown(ClientSide), Close(ClientSide)] else [];
    var r: seq<Effect> := if hasRemote then [Shutdown(RemoteSide), Close(RemoteSide)] else [];
    var d: seq<Effect> := if hasDestroyer then [Destroy] else [];
    CountAppend(c + r, d, e);
    CountAppend(c, r, e);
    if hasClient {
      CountPair(Shutdown(ClientSide), Close(ClientSide), e);
    }
    if hasRemote {
      CountPair(Shutdown(RemoteSide), Close(RemoteSide), e);
    }
    if hasDestroyer {
      CountSingle(Destroy, e);
    }
  }

  /** Teardown closes each present connection once and notifies at most once. */
  lemma {:induction false} TeardownCounts(hasClient: bool, hasRemote: bool, hasDestroyer: bool, side: Side)
    ensures var t := Teardown(hasClient, hasRemote, hasDestroyer);
      && Count(t, Destroy) == (if hasDestroyer then 1 else 0)
      && Count(t, Close(side)) == (if side == ClientSide then (if hasClient then 1 else 0) else (if hasRemote then 1 else 0))
      && Count(t, Shutdown(side)) == (if side == ClientSide then (if hasClient then 1 else 0) else (if hasRemote then 1 else 0))
  {
    TeardownCount(hasClient, hasRemote, hasDestroyer, Destroy);
    TeardownCount(hasClient, hasRemote, hasDestroyer, Close(side));
    TeardownCount(hasClient, hasRemote, hasDestroyer, Shutdown(side));
  }

  function CountOf2(a: Effect, b: Effect, e: Effect): nat
  {
    (if a == e then 1 else 0) + (if b == e then 1 else 0)
  }

  lemma CountSingle(a: Effect, e: Effect)
    ensures Count([a], e) == (if a == e then 1 else 0)
  {
    assert [a][..0] == [];
  }

  lemma CountPair(a: Effect, b: Effect, e: Effect)
    ensures Count([a, b], e) == (if a == e then 1 else 0) + (if b == e then 1 else 0)
  {
    assert [a, b][..1] == [a];
    CountSingle(a, e);
  }

  /** Appending an effect that is no teardown effect keeps `Valid`'s counts. */
  lemma CountOther(t: seq<Effect>, x: Effect)
    requires x.Receive? || x.Send?
    ensures forall e: Effect | !e.Receive? && !e.Send? :: Count(t + [x], e) == Count(t, e)
  {
    forall e: Effect | !e.Receive? && !e.Send? ensures Count(t + [x], e) == Count(t, e) {
      CountAppend(t, [x], e);
      CountSingle(x, e);
    }
  }

  /** Appending the teardown to a trace adds its counts. */
  lemma TeardownAfter(t0: seq<Effect>, hasClient: bool, hasRemote: bool, hasDestroyer: bool)
    ensures var t := t0 + Teardown(hasClient, hasRemote, hasDestroyer);
      && Count(t, Destroy) == Count(t0, Destroy) + (if hasDestroyer then 1 else 0)
      && Count(t, Close(ClientSide)) == Count(t0, Close(ClientSide)) + (if hasClient then 1 else 0)
      && Count(t, Shutdown(ClientSide)) == Count(t0, Shutdown(ClientSide)) + (if hasClient then 1 else 0)
      && Count(t, Close(RemoteSide)) == Count(t0, Close(RemoteSide)) + (if hasRemote then 1 else 0)
      && Count(t, Shutdown(RemoteSide)) == Count(t0, Shutdown(RemoteSide)) + (if hasRemote then 1 else 0)
  {
    var t := Teardown(hasClient, hasRemote, hasDestroyer);
    TeardownCounts(hasClient, hasRemote, hasDestroyer, ClientSide);
    TeardownCounts(hasClient, hasRemote, hasDestroyer, RemoteSide);
    CountAppend(t0, t, Destroy);
    CountAppend(t0, t, Close(ClientSide));
    CountAppend(t0, t, Shutdown(ClientSide));
    CountAppend(t0, t, Close(RemoteSide));
    CountAppend(t0, t, Shutdown(RemoteSide));
  }

  /** The teardown effects a trace holds: one of each for every present connection and the
      destroyer when `disposed`, none otherwise. */
  ghost predicate TeardownCounted(t: seq<Effect>, disposed: bool, hasClient: bool, hasRemote: bool, hasDestroyer: bool)
  {
    && Count(t, Destroy) == (if disposed && hasDestroyer then 1 else 0)
    && Count(t, Close(ClientSide)) == (if disposed && hasClient then 1 else 0)
    && Count(t, Close(RemoteSide)) == (if disposed && hasRemote then 1 else 0)
    && Count(t, Shutdown(ClientSide)) == (if disposed && hasClient then 1 else 0)
    && Count(t, Shutdown(RemoteSide)) == (if disposed && hasRemote then 1 else 0)
  }

  /** One teardown appended to a trace without one gives a trace with exactly one. */
  lemma TeardownOnce(t0: seq<Effect>, hasClient: bool, hasRemote: bool, hasDestroyer: bool)
    requires TeardownCounted(t0, false, hasClient, hasRemote, hasDestroyer)
    ensures TeardownCounted(t0 + Teardown(hasClient, hasRemote, hasDestroyer), true, hasClient, hasRemote, hasDestroyer)
  {
    TeardownAfter(t0, hasClient, hasRemote, hasDestroyer);
  }

  /** A receive or a send leaves the teardown counts as they were. */
  lemma OtherKeepsCounts(t: seq<Effect>, x: Effect, disposed: bool, hasClient: bool, hasRemote: bool, hasDestroyer: bool)
    requires x.Receive? || x.Send?
    requires TeardownCounted(t, disposed, hasClient, hasRemote, hasDestroyer)
    ensures TeardownCounted(t + [x], disposed, hasClient, hasRemote, hasDestroyer)
  {
    CountOther(t, x);
  }

  /** A receive's effect on its buffer: the received octets replace the buffer's first
      `|data|` octets and the rest is left as it was. */
  method Fill(buffer: array<byte>, data: seq<byte>)
    requires |data| <= buffer.Length
    modifies buffer
    ensures buffer[..] == data + old(buffer[|data|..])
    ensures buffer[..|data|] == data
  {
    var i := 0;
    while i < |data|
      invariant 0 <= i <= |data|
      invariant forall k | 0 <= k < i :: buffer[k] == data[k]
      invariant forall k | i <= k < buffer.Length :: buffer[k] == old(buffer[k])
    {
      buffer[i] := data[i];
      i := i + 1;
    }
    assert forall k | 0 <= k < buffer.Length :: buffer[k] == (data + old(buffer[|data|..]))[k];
    assert buffer[..|data|] == data;
  }

  /** `RelayThread`: the two connections (present or null), the two buffers, the destroyer, and
      the dispose flags. The ghost counters record the operations outstanding in each
      direction: client-to-remote is a receive on the client or a send on the remote. */
  class RelayThread {
    const clientBuffer: array<byte>
    const remoteBuffer: array<byte>
    const hasClient: bool
    const hasRemote: bool
    const hasDestroyer: bool
    var disconnected: bool
    var disposeCalled: bool
    var trace: seq<Effect>
    ghost var clientReceives: nat
    ghost var remoteSends: nat
    ghost var remoteReceives: nat
    ghost var clientSends: nat

    ghost predicate Valid()
      reads this
    {
      && clientBuffer.Length == BufferSize && remoteBuffer.Length == BufferSize
      && clientBuffer != remoteBuffer
      // at most one outstanding operation per direction
      && clientReceives + remoteSends <= 1 && remoteReceives + clientSends <= 1
      && disconnected == disposeCalled
      // teardown happened once, or not at all
      && TeardownCounted(trace, disposeCalled, hasClient, hasRemote, hasDestroyer)
    }

    constructor (hasClient: bool, hasRemote: bool, hasDestroyer: bool)
      ensures Valid() && fresh(clientBuffer) && fresh(remoteBuffer)
      ensures this.hasClient == hasClient && this.hasRemote == hasRemote
      ensures this.hasDestroyer == hasDestroyer
      ensures !disposeCalled && trace == []
      ensures clientReceives == remoteSends == remoteReceives == clientSends == 0
    {
      clientBuffer := new byte[BufferSize];
      remoteBuffer := new byte[BufferSize];
      this.hasClient, this.hasRemote, this.hasDestroyer := hasClient, hasRemote, hasDestroyer;
      disconnected, disposeCalled := false, false;
      trace := [];
      clientReceives, remoteSends, remoteReceives, clientSends := 0, 0, 0, 0;
    }

    /** `Start`: arm exactly one receive on each connection. */
    method Start()
      requires Valid() && hasClient && hasRemote && !disposeCalled
      requires clientReceives == remoteSends == remoteReceives == clientSends == 0
      modifies this
      ensures Valid() && disposeCalled == old(disposeCalled)
      ensures trace == old(trace) + [Receive(ClientSide), Receive(RemoteSide)]
      ensures clientReceives == 1 && remoteReceives == 1 && remoteSends == 0 && clientSends == 0
    {
      OtherKeepsCounts(trace, Receive(ClientSide), disposeCalled, hasClient, hasRemote, hasDestroyer);
      trace := trace + [Receive(ClientSide)];
      OtherKeepsCounts(trace, Receive(RemoteSide), disposeCalled, hasClient, hasRemote, hasDestroyer);
      trace := trace + [Receive(RemoteSide)];
      clientReceives, remoteReceives := 1, 1;
    }

    /** `Dispose`: the first call tears down both connections and notifies the owner; every
        later call changes nothing. */
    method Dispose()
      requires Valid()
      modifies this`disposeCalled, this`disconnected, this`trace
      ensures Valid() && disposeCalled
      ensures old(disposeCalled) ==> trace == old(trace)
      ensures !old(disposeCalled) ==> trace == old(trace) + Teardown(hasClient, hasRemote, hasDestroyer)
    {
      if !disposeCalled {
        disposeCalled := true;
        disconnected := true;
        // shut down and close the client connection, then the remote one, then notify
        TeardownOnce(trace, hasClient, hasRemote, hasDestroyer);
        trace := trace + Teardown(hasClient, hasRemote, hasDestroyer);
      }
    }

    /** `OnClientReceive`: the receive has placed `received` > 0 octets `data` at the start of
        the client buffer, and exactly those octets are sent on to the remote; 0 or fewer tear
        down instead and send nothing. */
    method OnClientReceive(received: int, data: seq<byte>)
      requires Valid() && clientReceives == 1 && received <= BufferSize
      requires received > 0 ==> |data| == received
      modifies this, clientBuffer
      ensures Valid() && clientReceives == 0 && unchanged(remoteBuffer)
      ensures remoteReceives == old(remoteReceives) && clientSends == old(clientSends)
      ensures received > 0 ==>
        (clientBuffer[..] == data + old(clientBuffer[received..])
         && trace == old(trace) + [Send(RemoteSide, data)]
         && remoteSends == 1 && disposeCalled == old(disposeCalled))
      ensures received <= 0 ==>
        (unchanged(clientBuffer) && remoteSends == 0 && disposeCalled &&
         trace == old(trace) + (if old(disposeCalled) then [] else Teardown(hasClient, hasRemote, hasDestroyer)))
    {
      clientReceives := 0;
      if received > 0 {
        Fill(clientBuffer, data);
        var sent := clientBuffer[..received];
        OtherKeepsCounts(trace, Send(RemoteSide, sent), disposeCalled, hasClient, hasRemote, hasDestroyer);
        trace := trace + [Send(RemoteSide, sent)];
        remoteSends := 1;
      } else {
        Dispose();
      }
    }

    /** `OnRemoteReceive`: the same for the other direction. */
    method OnRemoteReceive(received: int, data: seq<byte>)
      requires Valid() && remoteReceives == 1 && received <= BufferSize
      requires received > 0 ==> |data| == received
      modifies this, remoteBuffer
      ensures Valid() && remoteReceives == 0 && unchanged(clientBuffer)
      ensures clientReceives == old(clientReceives) && remoteSends == old(remoteSends)
      ensures received > 0 ==>
        (remoteBuffer[..] == data + old(remoteBuffer[received..])
         && trace == old(trace) + [Send(ClientSide, data)]
         && clientSends == 1 && disposeCalled == old(disposeCalled))
      ensures received <= 0 ==>
        (unchanged(remoteBuffer) && clientSends == 0 && disposeCalled &&
         trace == old(trace) + (if old(disposeCalled) then [] else Teardown(hasClient, hasRemote, hasDestroyer)))
    {
      remoteReceives := 0;
      if received > 0 {
        Fill(remoteBuffer, data);
        var sent := remoteBuffer[..received];
        OtherKeepsCounts(trace, Send(ClientSide, sent), disposeCalled, hasClient, hasRemote, hasDestroyer);
        trace := trace + [Send(ClientSide, sent)];
        clientSends := 1;
      } else {
        Dispose();
      }
    }

    /** `OnRemoteSent`: the client receive is re-armed only after the send reports octets;
        a failed send re-arms nothing. */
    method OnRemoteSent(sent: int)
      requires Valid() && remoteSends == 1
      modifies this
      ensures Valid() && remoteSends == 0 && disposeCalled == old(disposeCalled)
      ensures remoteReceives == old(remoteReceives) && clientSends == old(clientSends)
      ensures sent > 0 ==> trace == old(trace) + [Receive(ClientSide)] && clientReceives == 1
      ensures sent <= 0 ==> trace == old(trace) && clientReceives == 0
    {
      remoteSends := 0;
      if sent > 0 {
        OtherKeepsCounts(trace, Receive(ClientSide), disposeCalled, hasClient, hasRemote, hasDestroyer);
        trace := trace + [Receive(ClientSide)];
        clientReceives := 1;
      }
    }

    /** `OnClientSent`: the same for the other direction. */
    method OnClientSent(sent: int)
      requires Valid() && clientSends == 1
      modifies this
      ensures Valid() && clientSends == 0 && disposeCalled == old(disposeCalled)
      ensures clientReceives == old(clientReceives) && remoteSends == old(remoteSends)
      ensures sent > 0 ==> trace == old(trace) + [Receive(RemoteSide)] && remoteReceives == 1
      ensures sent <= 0 ==> trace == old(trace) && remoteReceives == 0
    {
      clientSends := 0;
      if sent > 0 {
        OtherKeepsCounts(trace, Receive(RemoteSide), disposeCalled, hasClient, hasRemote, hasDestroyer);
        trace := trace + [Receive(RemoteSide)];
        remoteReceives := 1;
      }
    }
  }

  /** Both directions observe end-of-stream one after the other: the owner is notified once and
      each connection is closed once, and nothing further is sent. */
  method BothSidesClose()
  {
    var relay := new RelayThread(true, true, true);
    relay.Start();
    relay.OnClientReceive(0, []);
    relay.OnRemoteReceive(0, []);
    assert Count(relay.trace, Destroy) == 1;
    assert Count(relay.trace, Close(ClientSide)) == 1 && Count(relay.trace, Close(RemoteSide)) == 1;
    assert relay.trace == [Receive(ClientSide), Receive(RemoteSide)] + Teardown(true, true, true);
  }
}
