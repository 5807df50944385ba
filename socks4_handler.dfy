/** The SOCKS 4 protocol and its SOCKS 4A extension: the request after the version octet
    is CD, DSTPORT (2), DSTIP (4), USERID, NUL and, in 4A mode, a domain name and NUL. */
module Socks4 {
  import opened Wrappers
  import opened Net
  import opened ReplyCodes
  import opened Commands
  import opened SocksHandler

  const NUL: byte := 0

  /** Offset of the user-id in the request (the version octet is not part of it). */
  const UserIdStart: nat := 7

  /** `Array.IndexOf(s, b, start)`: the first index at or after `start` holding `b`, or -1. */
  function IndexOf(s: seq<byte>, b: byte, start: nat): (r: int)
    requires start <= |s|
    ensures r == -1 <==> forall i :: start <= i < |s| ==> s[i] != b
    ensures r != -1 ==> start <= r < |s| && s[r] == b && forall i :: start <= i < r ==> s[i] != b
    decreases |s| - start
  {
    if start == |s| then -1
    else if s[start] == b then start
    else IndexOf(s, b, start + 1)
  }

  /** DSTIP is 0.0.0.x with x nonzero: the destination is the domain name after the user-id. */
  predicate DomainMode(r: seq<byte>)
  {
    |r| >= 7 && r[3] == 0 && r[4] == 0 && r[5] == 0 && r[6] != 0
  }

  /** What `IsValidRequest` decides. */
  datatype RequestCheck =
    | Complete    // returns true
    | Incomplete  // returns false
    | Abort       // neither CONNECT nor BIND: disposes, returns false

  /** `IsValidRequest`. An index past the end (a short request) is caught as false. */
  function CheckRequest(r: seq<byte>): (c: RequestCheck)
    ensures c == Complete ==> |r| >= 8 && IndexOf(r, NUL, UserIdStart) != -1
    ensures c == Abort <==> |r| > 0 && r[0] != 1 && r[0] != 2
  {
    if |r| == 0 then Incomplete
    else if r[0] != 1 && r[0] != 2 then Abort
    else if |r| < 7 then Incomplete
    else if DomainMode(r) then
      var ret := IndexOf(r, NUL, UserIdStart);
      if ret != -1 && IndexOf(r, NUL, ret + 1) != -1 then Complete else Incomplete
    else if IndexOf(r, NUL, UserIdStart) != -1 then Complete else Incomplete
  }

  /** A command other than CONNECT (1) and BIND (2) aborts the session. */
  lemma UnknownCommandAborts(r: seq<byte>)
    requires |r| > 0
    ensures CheckRequest(r) == Abort <==> r[0] != 1 && r[0] != 2
  {
  }

  /** In 4A mode the request is complete exactly when a NUL at index 7 or later is followed
      by another NUL. */
  lemma {:induction false} CompleteDomainMode(r: seq<byte>)
    requires DomainMode(r) && (r[0] == 1 || r[0] == 2)
    ensures CheckRequest(r) == Complete <==>
      exists i, j :: UserIdStart <= i < j < |r| && r[i] == NUL && r[j] == NUL
  {
    var ret := IndexOf(r, NUL, UserIdStart);
    if CheckRequest(r) == Complete {
      var j := IndexOf(r, NUL, ret + 1);
      assert UserIdStart <= ret < j < |r| && r[ret] == NUL && r[j] == NUL;
    }
    if exists i, j :: UserIdStart <= i < j < |r| && r[i] == NUL && r[j] == NUL {
      var i, j :| UserIdStart <= i < j < |r| && r[i] == NUL && r[j] == NUL;
      assert ret != -1 && ret <= i;
      assert IndexOf(r, NUL, ret + 1) != -1;
    }
  }

  /** Otherwise the request is complete exactly when there is a NUL at index 7 or later;
      a request too short to hold DSTIP is incomplete, never an error. */
  lemma {:induction false} CompleteAddressMode(r: seq<byte>)
    requires |r| > 0 && (r[0] == 1 || r[0] == 2) && !DomainMode(r)
    ensures CheckRequest(r) == Complete <==> exists i :: UserIdStart <= i < |r| && r[i] == NUL
  {
    if |r| >= 7 {
      var ret := IndexOf(r, NUL, UserIdStart);
      if ret != -1 {
        assert r[ret] == NUL;
      }
    }
  }

  // ---------------------------------------------------------------------------
  // Parsing CONNECT.

  /** The user-id: the octets from index 7 up to the first NUL. */
  function UserId(r: seq<byte>): (u: seq<byte>)
    requires |r| >= 7 && IndexOf(r, NUL, UserIdStart) != -1
    ensures NUL !in u && UserIdStart + |u| < |r| && r[UserIdStart..UserIdStart + |u|] == u && r[UserIdStart + |u|] == NUL
  {
    var u := r[UserIdStart..IndexOf(r, NUL, UserIdStart)];
    assert forall k | 0 <= k < |u| :: u[k] == r[UserIdStart + k];
    u
  }

  /** The 4A domain name: the octets between the user-id's NUL and the next NUL, or None when
      there is no second NUL (a negative count, which the source's catch turns into a
      rejection). */
  function DomainName(r: seq<byte>): (name: Option<seq<byte>>)
    requires |r| >= 7 && IndexOf(r, NUL, UserIdStart) != -1
    ensures name.Some? <==> IndexOf(r, NUL, IndexOf(r, NUL, UserIdStart) + 1) != -1
    ensures name.Some? ==>
      (NUL !in name.value &&
       var at := UserIdStart + |UserId(r)| + 1;
       at + |name.value| < |r| && r[at..at + |name.value|] == name.value && r[at + |name.value|] == NUL)
  {
    var ret := IndexOf(r, NUL, UserIdStart);
    var end := IndexOf(r, NUL, ret + 1);
    if end == -1 then None
    else
      var n := r[ret + 1..end];
      assert forall k | 0 <= k < |n| :: n[k] == r[ret + 1 + k];
      Some(n)
  }

  /** Where a CONNECT goes, or None when the request is malformed or the name does not
      resolve (both are exceptions that end in a rejection). In 4A mode the destination is
      the resolved domain name, never the DSTIP literal. */
  function ConnectTarget(r: seq<byte>, resolve: Resolver): (t: Option<seq<byte>>)
    requires |r| >= 7 && IndexOf(r, NUL, UserIdStart) != -1
    ensures !DomainMode(r) ==> t == Some(r[3..7])
    ensures DomainMode(r) && t.Some? ==> DomainName(r).Some? && t == resolve(DomainName(r).value)
    ensures t.None? ==> DomainMode(r)
  {
    if DomainMode(r) then
      match DomainName(r)
      case None => None
      case Some(name) => resolve(name)
    else Some(r[3..7])
  }

  /** The CONNECT port: octets 1 and 2, big-endian. */
  function RequestPort(r: seq<byte>): (p: Port)
    requires |r| >= 3
    ensures p == r[1] as int * 256 + r[2] as int
  {
    BigEndianPort(r[1], r[2])
  }

  /** A complete 4A request always carries a domain name. */
  lemma CompleteDomainModeHasName(r: seq<byte>)
    requires DomainMode(r) && CheckRequest(r) == Complete
    ensures IndexOf(r, NUL, UserIdStart) != -1 && DomainName(r).Some?
  {
  }

  /** A SOCKS 4 request built from its fields: a literal IPv4 destination and a user-id. */
  function Encode4(cmd: byte, port: Port, addr: seq<byte>, user: seq<byte>): seq<byte>
    requires |addr| == 4
  {
    [cmd, PortHigh(port), PortLow(port)] + addr + user + [NUL]
  }

  /** An encoded SOCKS 4 CONNECT whose address is not of the 4A form 0.0.0.x (x nonzero) is
      complete, and parsing it gives back its port and user-id; the destination is the
      literal address. */
  lemma {:induction false} Socks4RoundTrip(port: Port, addr: seq<byte>, user: seq<byte>, resolve: Resolver)
    requires |addr| == 4 && NUL !in user
    requires !(addr[0] == 0 && addr[1] == 0 && addr[2] == 0 && addr[3] != 0)
    ensures var r := Encode4(1, port, addr, user);
      && CheckRequest(r) == Complete && IndexOf(r, NUL, UserIdStart) != -1
      && RequestPort(r) == port && UserId(r) == user
      && ConnectTarget(r, resolve) == Some(addr)
  {
    var r := Encode4(1, port, addr, user);
    var i := UserIdStart + |user|;
    assert r[i] == NUL && |r| == i + 1;
    assert r[3..7] == addr;
    assert !DomainMode(r);
    assert forall k | UserIdStart <= k < i :: r[k] == user[k - UserIdStart];
    assert IndexOf(r, NUL, UserIdStart) == i;
    assert r[UserIdStart..i] == user;
    PortOctetsRoundTrip(port);
  }

  /** A SOCKS 4A request built from its fields. */
  function Encode4a(cmd: byte, port: Port, x: byte, user: seq<byte>, name: seq<byte>): seq<byte>
  {
    [cmd, PortHigh(port), PortLow(port), 0, 0, 0, x] + user + [NUL] + name + [NUL]
  }

  /** An encoded 4A CONNECT is complete, and parsing it gives back its port, user-id and domain
      name; the destination is whatever the name resolves to. */
  lemma {:induction false} Socks4aRoundTrip(port: Port, x: byte, user: seq<byte>, name: seq<byte>, resolve: Resolver)
    requires x != 0 && NUL !in user && NUL !in name
    ensures var r := Encode4a(1, port, x, user, name);
      && CheckRequest(r) == Complete && IndexOf(r, NUL, UserIdStart) != -1
      && RequestPort(r) == port && UserId(r) == user
      && DomainName(r) == Some(name) && ConnectTarget(r, resolve) == resolve(name)
  {
    var r := Encode4a(1, port, x, user, name);
    Encode4aLayout(1, port, x, user, name);
    PortOctetsRoundTrip(port);
    assert RequestPort(r) == port;
    assert UserId(r) == user;
    assert DomainName(r) == Some(name);
  }

  /** Where the NULs of an encoded 4A request are, and what lies between them. */
  lemma {:induction false} Encode4aLayout(cmd: byte, port: Port, x: byte, user: seq<byte>, name: seq<byte>)
    requires x != 0 && NUL !in user && NUL !in name
    ensures var r := Encode4a(cmd, port, x, user, name);
      var i := UserIdStart + |user|;
      && DomainMode(r) && |r| == i + 2 + |name| && r[0] == cmd && r[1] == PortHigh(port) && r[2] == PortLow(port)
      && IndexOf(r, NUL, UserIdStart) == i && IndexOf(r, NUL, i + 1) == i + 1 + |name|
      && r[UserIdStart..i] == user && r[i + 1..i + 1 + |name|] == name
  {
    var r := Encode4a(cmd, port, x, user, name);
    var i := UserIdStart + |user|;
    var j := i + 1 + |name|;
    assert r[i] == NUL && r[j] == NUL && |r| == j + 1;
    assert forall k | UserIdStart <= k < i :: r[k] == user[k - UserIdStart];
    assert forall k | i < k < j :: r[k] == name[k - i - 1];
    assert IndexOf(r, NUL, UserIdStart) == i;
    assert IndexOf(r, NUL, i + 1) == j;
    assert r[UserIdStart..i] == user;
    assert r[i + 1..j] == name;
  }

  // ---------------------------------------------------------------------------
  // Replies.

  /** The reply every fault while building a reply falls back to. */
  const FallbackReply: seq<byte> := [0, 91, 0, 0, 0, 0, 0, 0]

  /** `Dispose(ReplyCode)`: VN=0, CD, DSTPORT, DSTIP of the upstream connection's remote
      endpoint. Reading the address goes through `IPHelper.Endpoint2Int`, which needs eight
      octets; without a remote endpoint, or with a shorter address, the fallback is sent. */
  function DisposeReply(code: ReplyCode, remote: Option<Endpoint>): (r: seq<byte>)
    ensures |r| == 8 && r[0] == 0
    ensures remote.None? || !ToInt64Defined(remote.value.addr) ==> r == FallbackReply
    ensures remote.Some? && ToInt64Defined(remote.value.addr) ==>
      r[1] == code.Value() && BigEndianPort(r[2], r[3]) == remote.value.port &&
      r[4..] == remote.value.addr[..4]
  {
    if remote.None? || !ToInt64Defined(remote.value.addr) then FallbackReply
    else
      var ep := remote.value;
      [0, code.Value(), PortHigh(ep.port), PortLow(ep.port)] + AddressField(ep.addr)
  }

  /** Every reply to an IPv4 upstream endpoint is the fallback, so the granted path is never
      taken for IPv4, even after a successful connect or a matching BIND peer. */
  lemma IpV4ReplyIsFallback(code: ReplyCode, remote: Endpoint)
    requires |remote.addr| == 4
    ensures DisposeReply(code, Some(remote)) == FallbackReply
    ensures DisposeCompletion(DisposeReply(code, Some(remote)), RequestGranted.Value()) == DisposeBad
  {
  }

  /** The good completion is taken exactly when the reply grants the request. */
  lemma {:induction false} GoodPathIffGranted(code: ReplyCode, remote: Option<Endpoint>)
    ensures DisposeCompletion(DisposeReply(code, remote), RequestGranted.Value()) == DisposeGood
        <==> code == RequestGranted && remote.Some? && ToInt64Defined(remote.value.addr)
  {
    var r := DisposeReply(code, remote);
    if remote.Some? && ToInt64Defined(remote.value.addr) && r[1] == 90 {
      ValueInjective(code, RequestGranted);
    }
  }

  /** The BIND reply: 0, 90, the listening port, the external address. */
  function BindReply(listenPort: Port, ip: seq<byte>): (r: seq<byte>)
    requires |ip| >= 4
    ensures |r| == 8 && r[..2] == [0, 90] && r[4..] == ip[..4]
    ensures BigEndianPort(r[2], r[3]) == listenPort
  {
    [0, 90, PortHigh(listenPort), PortLow(listenPort)] + AddressField(ip)
  }

  /** The code `OnAccept` replies with: granted exactly when the peer is the address the BIND
      request named. */
  function AcceptCode(bindIP: seq<byte>, peer: seq<byte>): (c: ReplyCode)
    ensures c == RequestGranted || c == RequestRejected1
    ensures c == RequestGranted <==> peer == bindIP
  {
    if bindIP == peer then RequestGranted else RequestRejected1
  }

  /** What `ProcessRequest` consults: name resolution, the external address (None when
      `Listener.GetLocalExternalIP` fails) and the port the BIND listener is bound to. */
  datatype Environment = Environment(resolve: Resolver, externalIP: Option<seq<byte>>, listenPort: Port)

  // ---------------------------------------------------------------------------
  // The handler.

  /** One SOCKS 4 negotiation over an abstract client connection. */
  class Socks4Handler {
    var username: seq<byte>
    /** The address a BIND request expects its peer to come from. */
    var remoteBindIP: Option<seq<byte>>
    /** Whether the BIND listening socket is open (`AcceptSocket != null`). */
    var acceptPending: bool
    /** The remote endpoint of the upstream connection, None while it has none. */
    var remote: Option<Endpoint>
    var trace: seq<Action>

    constructor ()
      ensures username == [] && remoteBindIP.None? && !acceptPending && remote.None? && trace == []
    {
      username := [];
      remoteBindIP := None;
      acceptPending := false;
      remote := None;
      trace := [];
    }

    /** `IsValidRequest`, with its side effect: an unknown command disposes the session. */
    method IsValidRequest(r: seq<byte>) returns (valid: bool)
      modifies this`trace
      ensures valid <==> CheckRequest(r) == Complete
      ensures trace == old(trace) + (if CheckRequest(r) == Abort then [Close] else [])
    {
      var verdict := CheckRequest(r);
      if verdict == Abort {
        trace := trace + [Close];
      }
      valid := verdict == Complete;
    }

    /** `Dispose(ReplyCode)`: send the reply, on the good path iff octet 1 is 90. */
    method Dispose(code: ReplyCode)
      modifies this`trace
      ensures trace == old(trace) +
        [Send(DisposeReply(code, remote), DisposeCompletion(DisposeReply(code, remote), 90))]
    {
      var toSend := DisposeReply(code, remote);
      trace := trace + [Send(toSend, if toSend[1] == 90 then DisposeGood else DisposeBad)];
    }

    /** `ProcessRequest`: CONNECT records the user-id and connects to the destination; BIND opens
      the listener and replies with it; every exception replies RequestRejected1. */
    method ProcessRequest(r: seq<byte>, env: Environment)
      modifies this`username, this`remoteBindIP, this`acceptPending, this`trace
      ensures |r| > 0 && r[0] == 1 && |r| >= 7 && IndexOf(r, NUL, UserIdStart) != -1 ==>
        username == UserId(r) && remoteBindIP == old(remoteBindIP) && acceptPending == old(acceptPending) &&
        trace == old(trace) + match ConnectTarget(r, env.resolve)
          case Some(addr) => [Connect(addr, RequestPort(r))]
          case None => [Send(DisposeReply(RequestRejected1, remote), DisposeBad)]
      ensures |r| > 0 && r[0] == 1 && !(|r| >= 7 && IndexOf(r, NUL, UserIdStart) != -1) ==>
        username == old(username) && remoteBindIP == old(remoteBindIP) && acceptPending == old(acceptPending) &&
        trace == old(trace) + [Send(DisposeReply(RequestRejected1, remote), DisposeBad)]
      ensures |r| > 0 && r[0] == 2 ==>
        (username == old(username) &&
         if env.externalIP.None? || !ToInt64Defined(env.externalIP.value) then
           remoteBindIP == old(remoteBindIP) && acceptPending == old(acceptPending) &&
           trace == old(trace) + [Send(DisposeReply(RequestRejected1, remote), DisposeBad)]
         else if |r| < 7 then
           remoteBindIP == old(remoteBindIP) && acceptPending &&
           trace == old(trace) + [Send(DisposeReply(RequestRejected1, remote), DisposeBad)]
         else
           remoteBindIP == Some(r[3..7]) && acceptPending &&
           trace == old(trace) + [Send(BindReply(env.listenPort, env.externalIP.value), StartAccept)])
      ensures |r| == 0 ==>
        (username == old(username) && remoteBindIP == old(remoteBindIP) &&
         acceptPending == old(acceptPending) &&
         trace == old(trace) + [Send(DisposeReply(RequestRejected1, remote), DisposeBad)])
      ensures |r| > 0 && r[0] != 1 && r[0] != 2 ==>
        (username == old(username) && remoteBindIP == old(remoteBindIP) &&
         acceptPending == old(acceptPending) && trace == old(trace))
    {
      if |r| == 0 {
        Dispose(RequestRejected1);
        return;
      }
      if r[0] == 1 {
        if |r| < 7 || IndexOf(r, NUL, UserIdStart) == -1 {
          Dispose(RequestRejected1);
          return;
        }
        username := UserId(r);
        var target := ConnectTarget(r, env.resolve);
        if target.None? {
          Dispose(RequestRejected1);
          return;
        }
        trace := trace + [Connect(target.value, RequestPort(r))];
      } else if r[0] == 2 {
        if env.externalIP.None? || !ToInt64Defined(env.externalIP.value) {
          Dispose(RequestRejected1);
          return;
        }
        acceptPending := true;
        if |r| < 7 {
          Dispose(RequestRejected1);
          return;
        }
        remoteBindIP := Some(r[3..7]);
        trace := trace + [Send(BindReply(env.listenPort, env.externalIP.value), StartAccept)];
      }
    }

    /** `OnConnected`: a connect replies RequestGranted, a failed one RequestRejected1. */
    method OnConnected(connected: bool, remoteEp: Option<Endpoint>)
      modifies this`remote, this`trace
      ensures remote == remoteEp
      ensures var code := if connected then RequestGranted else RequestRejected1;
        trace == old(trace) +
          [Send(DisposeReply(code, remoteEp), DisposeCompletion(DisposeReply(code, remoteEp), 90))]
    {
      remote := remoteEp;
      if connected {
        Dispose(RequestGranted);
      } else {
        Dispose(RequestRejected1);
      }
    }

    /** `OnAccept`: the listener is closed either way; the reply grants the request iff the
        upstream connection's remote address is the one the BIND request named. */
    method OnAccept(peer: Endpoint)
      requires remoteBindIP.Some?
      modifies this`acceptPending, this`remote, this`trace
      ensures !acceptPending && remote == Some(peer)
      ensures var code := AcceptCode(remoteBindIP.value, peer.addr);
        trace == old(trace) + [CloseListener,
          Send(DisposeReply(code, Some(peer)), DisposeCompletion(DisposeReply(code, Some(peer)), 90))]
    {
      trace := trace + [CloseListener];
      acceptPending := false;
      remote := Some(peer);
      if remoteBindIP.value == peer.addr {
        Dispose(RequestGranted);
      } else {
        Dispose(RequestRejected1);
      }
    }

    /** `OnAcceptError`: reply RequestRejected1. */
    method OnAcceptError()
      modifies this`trace
      ensures trace == old(trace) +
        [Send(DisposeReply(RequestRejected1, remote), DisposeCompletion(DisposeReply(RequestRejected1, remote), 90))]
    {
      Dispose(RequestRejected1);
    }
  }
}
