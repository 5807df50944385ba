/** The SOCKS 5 handshake (RFC 1928): greeting and method selection, request
    accumulation, dispatch of CONNECT, BIND and UDP ASSOCIATE, and the 10-octet replies. */
module Socks5 {
  import opened Wrappers
  import opened Net
  import opened ReplyCodes
  import opened Commands
  import opened SocksHandler

  // ---------------------------------------------------------------------------
  // Greeting and method selection (section 3 of RFC 1928).

  /** `IsValidRequest`: the greeting body NMETHODS, METHODS is complete when its length is
      NMETHODS + 1. An empty body indexes past the end, which the source catches as false. */
  predicate GreetingComplete(request: seq<byte>): (b: bool)
    ensures b ==> 1 <= |request| <= 256
  {
    |request| > 0 && |request| == request[0] as int + 1
  }

  /** A greeting body NMETHODS, METHODS is complete, and none of its proper prefixes is
      (the empty one included), so the base class keeps receiving until it is all in. */
  lemma {:induction false} GreetingCompleteness(methods: seq<byte>, k: nat)
    requires |methods| < 256
    ensures GreetingComplete([|methods|] + methods)
    ensures k <= |methods| ==> !GreetingComplete(([|methods|] + methods)[..k])
  {
    var g := [|methods|] + methods;
    assert g[0] == |methods|;
    if 0 < k <= |methods| {
      assert g[..k][0] == |methods|;
    }
  }

  /** The authentication strategy `ProcessRequest` stores. */
  datatype AuthMethod = NoMethod | AuthNone | AuthUserPass

  const MethodNone: byte := 0
  const MethodUserPass: byte := 2
  const NoAcceptableMethod: byte := 255

  /** Whether the greeting body offers method `m` (the method octets follow NMETHODS). */
  predicate Offers(request: seq<byte>, m: byte)
  {
    exists i :: 1 <= i < |request| && request[i] == m
  }

  /** The method the server must select: "none" only without configured credentials,
      user/password whenever credentials are configured, 0xFF when nothing acceptable
      is offered. */
  function Selection(request: seq<byte>, authRequired: bool): (r: byte)
    ensures r in {MethodNone, MethodUserPass, NoAcceptableMethod}
    ensures r != NoAcceptableMethod ==> Offers(request, r)
  {
    if !authRequired then (if Offers(request, MethodNone) then MethodNone else NoAcceptableMethod)
    else (if Offers(request, MethodUserPass) then MethodUserPass else NoAcceptableMethod)
  }

  /** The strategy that goes with a selected method octet. */
  function MethodFor(selected: byte): AuthMethod
  {
    if selected == MethodNone then AuthNone
    else if selected == MethodUserPass then AuthUserPass
    else NoMethod
  }

  /** The selection loop of `ProcessRequest`: scan the offered methods from index 1 and stop at
      the first acceptable one. */
  method SelectMethod(request: seq<byte>, authRequired: bool) returns (ret: byte, auth: AuthMethod)
    ensures ret == Selection(request, authRequired)
    ensures auth == MethodFor(ret)
  {
    ret, auth := NoAcceptableMethod, NoMethod;
    var cnt := 1;
    while cnt < |request|
      invariant 1 <= cnt
      invariant ret == NoAcceptableMethod && auth == NoMethod
      invariant forall i :: 1 <= i < cnt && i < |request| ==>
        request[i] != (if authRequired then MethodUserPass else MethodNone)
    {
      if request[cnt] == MethodNone && !authRequired {
        ret, auth := MethodNone, AuthNone;
        return;
      } else if request[cnt] == MethodUserPass && authRequired {
        ret, auth := MethodUserPass, AuthUserPass;
        return;
      }
      cnt := cnt + 1;
    }
  }

  /** Without credentials the selection is 0 exactly when 0 is offered, and 255 otherwise. */
  lemma SelectionWithoutCredentials(request: seq<byte>)
    ensures Selection(request, false) == MethodNone <==> Offers(request, MethodNone)
    ensures Selection(request, false) != MethodNone ==> Selection(request, false) == NoAcceptableMethod
  {
  }

  /** With credentials, user/password is selected exactly when offered, and "none" never is,
      whatever the order of the offer. */
  lemma SelectionWithCredentials(request: seq<byte>)
    ensures Selection(request, true) == MethodUserPass <==> Offers(request, MethodUserPass)
    ensures Selection(request, true) != MethodNone
  {
  }

  /** Method selection depends only on which methods are offered, not on their order. */
  lemma {:induction false} SelectionIgnoresOrder(r1: seq<byte>, r2: seq<byte>, authRequired: bool)
    requires forall m: byte :: Offers(r1, m) <==> Offers(r2, m)
    ensures Selection(r1, authRequired) == Selection(r2, authRequired)
  {
    assert Offers(r1, MethodNone) <==> Offers(r2, MethodNone);
    assert Offers(r1, MethodUserPass) <==> Offers(r2, MethodUserPass);
  }

  // ---------------------------------------------------------------------------
  // Request completeness and the CONNECT port.

  /** What `IsValidQuery` decides about the octets accumulated so far. */
  datatype QueryCheck =
    | Complete        // returns true
    | Incomplete      // returns false
    | RejectAddrType  // IPv6: replies UnsupportedAddrType, returns false
    | Abort           // other address type: disposes, returns false

  /** `IsValidQuery`. Fewer than three octets are incomplete; with exactly three, or a domain
      request without its length octet, the index past the end is caught as false. */
  function CheckQuery(q: seq<byte>): (c: QueryCheck)
    ensures c != Incomplete ==> |q| >= 4
    ensures c == Complete ==> |q| >= 7 && q[3] in {AtypIpV4, AtypDomainName}
  {
    if |q| < 4 then Incomplete
    else if q[3] == AtypIpV4 then (if |q| == 10 then Complete else Incomplete)
    else if q[3] == AtypDomainName then
      (if |q| >= 5 && |q| == q[4] as int + 7 then Complete else Incomplete)
    else if q[3] == AtypIpV6 then RejectAddrType
    else Abort
  }

  /** The address-type rules of `IsValidQuery`, case by case. */
  lemma CheckQueryCases(q: seq<byte>)
    ensures |q| < 4 ==> CheckQuery(q) == Incomplete
    ensures |q| >= 4 && q[3] == AtypIpV4 ==> (CheckQuery(q) == Complete <==> |q| == 10)
    ensures |q| >= 5 && q[3] == AtypDomainName ==> (CheckQuery(q) == Complete <==> |q| == q[4] as int + 7)
    ensures |q| >= 4 && q[3] == AtypIpV6 ==> CheckQuery(q) == RejectAddrType
    ensures |q| >= 4 && q[3] !in {AtypIpV4, AtypDomainName, AtypIpV6} ==> CheckQuery(q) == Abort
    ensures CheckQuery(q) != Incomplete ==> |q| >= 4
  {
  }

  /** The port `ProcessQuery` connects to, from the RFC 1928 offsets: octets 8, 9 for IPv4 and
      octets len+5, len+6 for a domain name of length len. */
  function QueryPort(q: seq<byte>): (p: Port)
    requires CheckQuery(q) == Complete
    ensures q[3] == AtypDomainName ==> p == RfcDomainPort(q)
  {
    if q[3] == AtypIpV4 then BigEndianPort(q[8], q[9])
    else
      var at := q[4] as int + 5;
      BigEndianPort(q[at], q[at + 1])
  }

  /** A complete IPv4 request parses, to the address in octets 4..7 and the port `QueryPort`. */
  lemma CompleteIpV4Parses(q: seq<byte>, resolve: Resolver)
    requires CheckQuery(q) == Complete && q[3] == AtypIpV4
    ensures ParseRequest(q, resolve).Success?
    ensures ParseRequest(q, resolve).value.dstAddr == q[4..8]
    ensures ParseRequest(q, resolve).value.dstPort == QueryPort(q)
  {
  }

  /** An encoded request is complete; every proper prefix of it is incomplete (IPv4, domain
      name) or, once the address type is in, rejected (IPv6); so partial reads never fail. */
  lemma {:induction false} PrefixesIncomplete(cmd: byte, addr: seq<byte>, name: seq<byte>, port: Port, k: nat)
    requires |addr| == 4 && |name| < 256
    ensures CheckQuery(EncodeIpV4Request(cmd, addr, port)) == Complete
    ensures CheckQuery(EncodeDomainRequest(cmd, name, port)) == Complete
    ensures k < 10 ==> CheckQuery(EncodeIpV4Request(cmd, addr, port)[..k]) == Incomplete
    ensures k < |name| + 7 ==> CheckQuery(EncodeDomainRequest(cmd, name, port)[..k]) == Incomplete
  {
    var v4 := EncodeIpV4Request(cmd, addr, port);
    var dn := EncodeDomainRequest(cmd, name, port);
    assert v4[3] == AtypIpV4 && |v4| == 10;
    assert dn[3] == AtypDomainName && dn[4] == |name| && |dn| == |name| + 7;
    if k < 10 {
      assert |v4[..k]| == k;
      assert k >= 4 ==> v4[..k][3] == AtypIpV4;
    }
    if k < |name| + 7 {
      assert |dn[..k]| == k;
      assert k >= 4 ==> dn[..k][3] == AtypDomainName;
      assert k >= 5 ==> dn[..k][4] == |name|;
    }
  }

  /** The handler reads the domain CONNECT port at the RFC 1928 offsets: for an encoded domain
      request it is the request's port, which `ParseRequest` does not reproduce in general. */
  lemma {:induction false} DomainQueryPort(cmd: byte, name: seq<byte>, port: Port)
    requires |name| < 256
    ensures CheckQuery(EncodeDomainRequest(cmd, name, port)) == Complete
    ensures QueryPort(EncodeDomainRequest(cmd, name, port)) == port
  {
    var dn := EncodeDomainRequest(cmd, name, port);
    PrefixesIncomplete(cmd, [0, 0, 0, 0], name, port, 0);
    assert dn[5 + |name|] == PortHigh(port) && dn[6 + |name|] == PortLow(port);
    PortOctetsRoundTrip(port);
  }

  // ---------------------------------------------------------------------------
  // Replies.

  /** Whether the reply builder can read the upstream connection's local endpoint:
      the connection exists and `BitConverter.ToInt32` accepts its address. */
  predicate Usable(ep: Option<Endpoint>)
  {
    ep.Some? && ToInt32Defined(ep.value.addr)
  }

  /** `Dispose(ReplyCode)`: the 10-octet reply VER, REP, RSV, ATYP=1, BND.ADDR, BND.PORT.
      A failure carries an all-zero address and port; success carries the upstream
      connection's local endpoint, and a fault while reading it falls back to SocksFailure. */
  function DisposeReply(code: ReplyCode, localEp: Option<Endpoint>): (r: seq<byte>)
    ensures |r| == 10 && r[0] == 5 && r[2] == 0 && r[3] == AtypIpV4
    ensures code != Ok ==> r == [5, code.Value(), 0, 1, 0, 0, 0, 0, 0, 0]
    ensures code == Ok && !Usable(localEp) ==> r == [5, 1, 0, 1, 0, 0, 0, 0, 0, 0]
    ensures code == Ok && Usable(localEp) ==>
      r[1] == 0 && r[4..8] == localEp.value.addr[..4] &&
      BigEndianPort(r[8], r[9]) == localEp.value.port
  {
    if code != Ok then [5, code.Value(), 0, 1, 0, 0, 0, 0, 0, 0]
    else if !Usable(localEp) then [5, 1, 0, 1, 0, 0, 0, 0, 0, 0]
    else
      var ep := localEp.value;
      [5, 0, 0, 1] + AddressField(ep.addr) + [PortHigh(ep.port), PortLow(ep.port)]
  }

  /** The good completion is taken exactly for a success reply whose endpoint could be read. */
  lemma {:induction false} GoodPathIffOk(code: ReplyCode, localEp: Option<Endpoint>)
    ensures DisposeCompletion(DisposeReply(code, localEp), Ok.Value()) == DisposeGood
        <==> code == Ok && Usable(localEp)
  {
    var r := DisposeReply(code, localEp);
    if code != Ok && r[1] == 0 {
      ValueInjective(code, Ok);
    }
  }

  /** The BIND reply: success, IPv4, the external address and the listening port. */
  function BindReply(ip: seq<byte>, listenPort: Port): (r: seq<byte>)
    requires |ip| >= 4
    ensures |r| == 10 && r[..4] == [5, 0, 0, 1] && r[4..8] == ip[..4]
    ensures BigEndianPort(r[8], r[9]) == listenPort
  {
    [5, 0, 0, 1] + AddressField(ip) + [PortHigh(listenPort), PortLow(listenPort)]
  }

  // ---------------------------------------------------------------------------
  // Dispatch of a complete request.

  /** What `ProcessQuery` consults beyond the request: name resolution, the external address
      (`Listener.GetLocalExternalIP`, None when it fails), the port the BIND listener is bound
      to, the free UDP port found from 4200 (0 when none), and the client connection's local
      endpoint. */
  datatype Environment = Environment(resolve: Resolver, externalIP: Option<seq<byte>>,
                                     listenPort: Port, freeUdpPort: Port, localEndPoint: Endpoint)

  /** The reply `Dispose(code)` sends before any upstream connection exists, with its completion. */
  function Reject(code: ReplyCode): seq<Action>
  {
    var r := DisposeReply(code, None);
    [Send(r, DisposeCompletion(r, Ok.Value()))]
  }

  /** The UDP port and address UDP ASSOCIATE settles on: a requested 0.0.0.0:0 takes the free
      port, and a 0.0.0.0 address takes the client connection's local address. */
  function UdpPort(request: Request, env: Environment): Port
  {
    if request.dstAddr == AnyAddress && request.dstPort == 0 then env.freeUdpPort else request.dstPort
  }

  function UdpAddress(request: Request, env: Environment): seq<byte>
  {
    if request.dstAddr == AnyAddress then env.localEndPoint.addr else request.dstAddr
  }

  /** The handler fields `ProcessQuery` sets, and the effects it causes. */
  datatype QueryEffect = QueryEffect(actions: seq<Action>, acceptPending: bool,
                                     udpClient: Option<Endpoint>, localBind: Option<Endpoint>)

  /** The specification of `ProcessQuery`. Every failure of the parse, whatever code the
      parser carried, is caught and answered with SocksFailure. */
  function QueryOutcome(q: seq<byte>, env: Environment): (e: QueryEffect)
    requires CheckQuery(q) == Complete
    ensures |e.actions| == 1
    ensures e.acceptPending ==> e.actions[0].Send? && e.actions[0].next == StartAccept
    ensures e.udpClient.Some? <==> e.localBind.Some?
    ensures e.udpClient.Some? ==> e.actions[0].Send? && e.actions[0].next == UdpReceive
  {
    match ParseRequest(q, env.resolve)
    case Failure(_) => QueryEffect(Reject(SocksFailure), false, None, None)
    case Success(request) => Dispatch(request, QueryPort(q), env)
  }

  /** The dispatch on the parsed request's command; CONNECT goes to `connectPort`. */
  function Dispatch(request: Request, connectPort: Port, env: Environment): (e: QueryEffect)
    ensures |e.actions| == 1
    ensures e.acceptPending ==> e.actions[0].Send? && e.actions[0].next == StartAccept
    ensures e.udpClient.Some? <==> e.localBind.Some?
    ensures e.udpClient.Some? ==> e.actions[0].Send? && e.actions[0].next == UdpReceive
    ensures e.actions[0].Connect? <==> request.command == CmdConnect
  {
    if request.command == CmdConnect then
      QueryEffect([Connect(request.dstAddr, connectPort)], false, None, None)
    else if request.command == CmdBind then
      match env.externalIP
      case None => QueryEffect(Reject(SocksFailure), false, None, None)
      case Some(ip) =>
        if !ToInt64Defined(ip) then QueryEffect(Reject(SocksFailure), false, None, None)
        else QueryEffect([Send(BindReply(ip, env.listenPort), StartAccept)], true, None, None)
    else if request.command == CmdUdpAssociate then
      var port := UdpPort(request, env);
      if request.dstAddr == AnyAddress && request.dstPort == 0 && port == 0 then
        QueryEffect(Reject(SocksFailure), false, None, None)
      else
        var local := env.localEndPoint.addr;
        var reply := CreateReply(request, local, port);
        QueryEffect([Send(ToBytes(reply), UdpReceive)], false,
                    Some(Endpoint(UdpAddress(request, env), port)), Some(Endpoint(local, port)))
    else QueryEffect(Reject(UnsupportedCommand), false, None, None)
  }

  /** A complete IPv4 CONNECT opens the upstream connection to the address and port it carries. */
  lemma {:induction false} ConnectIpV4Dispatch(cmdAddr: seq<byte>, port: Port, env: Environment)
    requires |cmdAddr| == 4
    ensures var q := EncodeIpV4Request(CmdConnect, cmdAddr, port);
      CheckQuery(q) == Complete &&
      QueryOutcome(q, env) == QueryEffect([Connect(cmdAddr, port)], false, None, None)
  {
    var q := EncodeIpV4Request(CmdConnect, cmdAddr, port);
    PrefixesIncomplete(CmdConnect, cmdAddr, [], port, 10);
    IpV4RequestRoundTrip(CmdConnect, cmdAddr, port, env.resolve);
  }

  /** A complete domain-name CONNECT whose name resolves opens the upstream connection to the
      resolved address and the encoded port, whatever the parser made of the port. */
  lemma {:induction false} ConnectDomainDispatch(name: seq<byte>, port: Port, env: Environment)
    requires |name| < 256 && env.resolve(name).Some?
    ensures var q := EncodeDomainRequest(CmdConnect, name, port);
      CheckQuery(q) == Complete &&
      QueryOutcome(q, env) == QueryEffect([Connect(env.resolve(name).value, port)], false, None, None)
  {
    var q := EncodeDomainRequest(CmdConnect, name, port);
    DomainQueryPort(CmdConnect, name, port);
    DomainRequestPortDiscrepancy(CmdConnect, name, port, env.resolve);
    ParseHeaderFields(q, env.resolve);
  }

  /** A command other than CONNECT, BIND and UDP ASSOCIATE is answered with UnsupportedCommand. */
  lemma UnknownCommandRejected(request: Request, port: Port, env: Environment)
    requires request.command !in {CmdConnect, CmdBind, CmdUdpAssociate}
    ensures Dispatch(request, port, env).actions == [Send([5, 7, 0, 1, 0, 0, 0, 0, 0, 0], DisposeBad)]
  {
  }

  /** A domain name that does not resolve is answered with SocksFailure (not HostUnreachable):
      the parse exception's code is never read. */
  lemma UnresolvedNameReply(q: seq<byte>, env: Environment)
    requires CheckQuery(q) == Complete && q[3] == AtypDomainName
    requires env.resolve(q[5..5 + q[4] as int]).None?
    ensures QueryOutcome(q, env).actions == [Send([5, 1, 0, 1, 0, 0, 0, 0, 0, 0], DisposeBad)]
  {
  }

  /** UDP ASSOCIATE for 0.0.0.0:0 with no free UDP port is answered with SocksFailure. */
  lemma UdpPortExhausted(request: Request, port: Port, env: Environment)
    requires request.command == CmdUdpAssociate && env.freeUdpPort == 0
    requires request.dstAddr == AnyAddress && request.dstPort == 0
    ensures Dispatch(request, port, env).actions == [Send([5, 1, 0, 1, 0, 0, 0, 0, 0, 0], DisposeBad)]
    ensures Dispatch(request, port, env).udpClient.None?
  {
  }

  /** UDP ASSOCIATE replies with the request's version and address type, success, the client
      connection's local address and the UDP port settled on, and records both endpoints. */
  lemma {:induction false} UdpAssociateReply(request: Request, port: Port, env: Environment)
    requires request.command == CmdUdpAssociate
    requires !(request.dstAddr == AnyAddress && request.dstPort == 0 && env.freeUdpPort == 0)
    ensures var e := Dispatch(request, port, env);
      var local := env.localEndPoint.addr;
      var p := UdpPort(request, env);
      && |e.actions| == 1 && e.actions[0].Send? && e.actions[0].next == UdpReceive
      && e.actions[0].data[..4] == [request.version, 0, 0, request.addrType]
      && e.actions[0].data[4..4 + |local|] == local
      && BigEndianPort(e.actions[0].data[4 + |local|], e.actions[0].data[5 + |local|]) == p
      && e.udpClient == Some(Endpoint(UdpAddress(request, env), p))
      && e.localBind == Some(Endpoint(local, p))
  {
    var local := env.localEndPoint.addr;
    var p := UdpPort(request, env);
    var out := ToBytes(CreateReply(request, local, p));
    assert out[..4] == [out[0], out[1], out[2], out[3]];
  }

  /** BIND can only succeed when the external address has at least eight octets: with an IPv4
      address `BitConverter.ToInt64` throws and the client gets SocksFailure. */
  lemma BindIpV4ExternalFails(request: Request, port: Port, env: Environment)
    requires request.command == CmdBind
    requires env.externalIP.Some? && |env.externalIP.value| == 4
    ensures Dispatch(request, port, env).actions == [Send([5, 1, 0, 1, 0, 0, 0, 0, 0, 0], DisposeBad)]
    ensures !Dispatch(request, port, env).acceptPending
  {
  }

  // ---------------------------------------------------------------------------
  // The handler.

  /** One SOCKS 5 negotiation over an abstract client connection. Receive and send results,
      and the outcome of connecting, accepting and authenticating, are the callbacks'
      parameters. */
  class Socks5Handler {
    /** Whether a non-empty credential list is configured. */
    const authRequired: bool
    var authMethod: AuthMethod
    /** The request octets accumulated so far (`Bytes`). */
    var bytes: seq<byte>
    /** Whether the BIND listening socket is open (`AcceptSocket != null`). */
    var acceptPending: bool
    var udpClientEndPoint: Option<Endpoint>
    var localBindEndPoint: Option<Endpoint>
    /** Everything the handler has done on its connections, in order. */
    var trace: seq<Action>

    constructor (authRequired: bool)
      ensures this.authRequired == authRequired && authMethod == NoMethod && bytes == []
      ensures !acceptPending && udpClientEndPoint.None? && localBindEndPoint.None? && trace == []
    {
      this.authRequired := authRequired;
      authMethod := NoMethod;
      bytes := [];
      acceptPending := false;
      udpClientEndPoint, localBindEndPoint := None, None;
      trace := [];
    }

    /** `ProcessRequest`: select a method, store its strategy, and send {5, selected}. */
    method ProcessRequest(request: seq<byte>) returns (selected: byte)
      modifies this`authMethod, this`trace
      ensures selected == Selection(request, authRequired)
      ensures authMethod == (if selected == NoAcceptableMethod then old(authMethod) else MethodFor(selected))
      ensures trace == old(trace) + [Send([5, selected], AuthSent)]
    {
      var auth;
      selected, auth := SelectMethod(request, authRequired);
      if auth != NoMethod {
        authMethod := auth;
      }
      trace := trace + [Send([5, selected], AuthSent)];
    }

    /** `OnAuthSent`: a failed send or no acceptable method ends the session unauthenticated. */
    method OnAuthSent(sent: int)
      modifies this`trace
      ensures trace == old(trace) +
        [if sent <= 0 || authMethod == NoMethod then Close
         else StartAuthentication(authMethod == AuthUserPass)]
    {
      if sent <= 0 || authMethod == NoMethod {
        trace := trace + [Close];
        return;
      }
      trace := trace + [StartAuthentication(authMethod == AuthUserPass)];
    }

    /** `OnAuthenticationComplete`: on success clear the accumulated octets and receive the request. */
    method OnAuthenticationComplete(success: bool)
      modifies this`bytes, this`trace
      ensures success ==> bytes == [] && trace == old(trace) + [Receive]
      ensures !success ==> bytes == old(bytes) && trace == old(trace) + [Close]
    {
      if success {
        bytes := [];
        trace := trace + [Receive];
      } else {
        trace := trace + [Close];
      }
    }

    /** `Dispose(ReplyCode)`: send the reply and continue on the good path iff octet 1 is 0. */
    method Dispose(code: ReplyCode, localEp: Option<Endpoint>)
      modifies this`trace
      ensures trace == old(trace) +
        [Send(DisposeReply(code, localEp), DisposeCompletion(DisposeReply(code, localEp), Ok.Value()))]
    {
      var toSend := DisposeReply(code, localEp);
      trace := trace + [Send(toSend, if toSend[1] == 0 then DisposeGood else DisposeBad)];
    }

    /** `OnRecvRequest`: a receive of 0 or fewer octets ends the session; otherwise the octets are
      accumulated and either the complete request is processed or another receive is armed
      (also after the IPv6 and unknown-type rejections, as written). */
    method OnRecvRequest(received: int, buffer: seq<byte>, env: Environment)
      requires received <= |buffer|
      modifies this
      ensures authMethod == old(authMethod)
      ensures received <= 0 ==>
        (bytes == old(bytes) && trace == old(trace) + [Close]
         && acceptPending == old(acceptPending) && udpClientEndPoint == old(udpClientEndPoint)
         && localBindEndPoint == old(localBindEndPoint))
      ensures received > 0 ==> bytes == AddBytes(old(bytes), buffer, received)
      ensures received > 0 && CheckQuery(bytes) == Complete ==>
        var e := QueryOutcome(bytes, env);
        trace == old(trace) + e.actions && acceptPending == (old(acceptPending) || e.acceptPending)
        && udpClientEndPoint == (if e.udpClient.Some? then e.udpClient else old(udpClientEndPoint))
        && localBindEndPoint == (if e.localBind.Some? then e.localBind else old(localBindEndPoint))
      ensures received > 0 && CheckQuery(bytes) != Complete ==>
        acceptPending == old(acceptPending) && udpClientEndPoint == old(udpClientEndPoint)
        && localBindEndPoint == old(localBindEndPoint)
        && trace == old(trace) + match CheckQuery(bytes)
             case Incomplete => [Receive]
             case RejectAddrType => Reject(UnsupportedAddrType) + [Receive]
             case _ => [Close, Receive]
    {
      if received <= 0 {
        trace := trace + [Close];
        return;
      }
      bytes := AddBytes(bytes, buffer, received);
      var verdict := CheckQuery(bytes);
      if verdict == Complete {
        ProcessQuery(bytes, env);
        return;
      }
      if verdict == RejectAddrType {
        Dispose(UnsupportedAddrType, None);
      } else if verdict == Abort {
        trace := trace + [Close];
      }
      trace := trace + [Receive];
    }

    /** `ProcessQuery`: parse the complete request and dispatch on its command. */
    method ProcessQuery(q: seq<byte>, env: Environment)
      requires CheckQuery(q) == Complete
      modifies this`trace, this`acceptPending, this`udpClientEndPoint, this`localBindEndPoint
      ensures var e := QueryOutcome(q, env);
        trace == old(trace) + e.actions && acceptPending == (old(acceptPending) || e.acceptPending)
        && udpClientEndPoint == (if e.udpClient.Some? then e.udpClient else old(udpClientEndPoint))
        && localBindEndPoint == (if e.localBind.Some? then e.localBind else old(localBindEndPoint))
    {
      var parsed := ParseRequest(q, env.resolve);
      if parsed.Failure? {
        Dispose(SocksFailure, None);
      } else {
        DispatchQuery(parsed.value, QueryPort(q), env);
      }
    }

    /** The `switch` on the command of a parsed request; CONNECT goes to `connectPort`. */
    method DispatchQuery(request: Request, connectPort: Port, env: Environment)
      modifies this`trace, this`acceptPending, this`udpClientEndPoint, this`localBindEndPoint
      ensures var e := Dispatch(request, connectPort, env);
        trace == old(trace) + e.actions && acceptPending == (old(acceptPending) || e.acceptPending)
        && udpClientEndPoint == (if e.udpClient.Some? then e.udpClient else old(udpClientEndPoint))
        && localBindEndPoint == (if e.localBind.Some? then e.localBind else old(localBindEndPoint))
    {
      var request := request;
      if request.command == CmdConnect {
        trace := trace + [Connect(request.dstAddr, connectPort)];
      } else if request.command == CmdBind {
        if env.externalIP.None? || !ToInt64Defined(env.externalIP.value) {
          Dispose(SocksFailure, None);
          return;
        }
        acceptPending := true;
        trace := trace + [Send(BindReply(env.externalIP.value, env.listenPort), StartAccept)];
      } else if request.command == CmdUdpAssociate {
        if request.dstAddr == AnyAddress && request.dstPort == 0 {
          request := request.(dstPort := env.freeUdpPort);
          if request.dstPort == 0 {
            Dispose(SocksFailure, None);
            return;
          }
        }
        if request.dstAddr == AnyAddress {
          request := request.(dstAddr := env.localEndPoint.addr);
        }
        udpClientEndPoint := Some(Endpoint(request.dstAddr, request.dstPort));
        localBindEndPoint := Some(Endpoint(env.localEndPoint.addr, request.dstPort));
        var reply := CreateReply(request, env.localEndPoint.addr, request.dstPort);
        trace := trace + [Send(ToBytes(reply), UdpReceive)];
      } else {
        Dispose(UnsupportedCommand, None);
      }
    }

    /** `OnConnected`: success replies Ok with the upstream local endpoint; any failure of the
        connect replies SocksFailure. */
    method OnConnected(connected: bool, localEp: Option<Endpoint>)
      modifies this`trace
      ensures var code := if connected then Ok else SocksFailure;
        trace == old(trace) +
          [Send(DisposeReply(code, localEp), DisposeCompletion(DisposeReply(code, localEp), Ok.Value()))]
    {
      if connected {
        Dispose(Ok, localEp);
      } else {
        Dispose(SocksFailure, localEp);
      }
    }

    /** `OnAccept`: close the listener and reply Ok. */
    method OnAccept(localEp: Option<Endpoint>)
      modifies this`trace, this`acceptPending
      ensures !acceptPending
      ensures trace == old(trace) + [CloseListener,
        Send(DisposeReply(Ok, localEp), DisposeCompletion(DisposeReply(Ok, localEp), Ok.Value()))]
    {
      trace := trace + [CloseListener];
      acceptPending := false;
      Dispose(Ok, localEp);
    }

    /** `OnAcceptError`: reply SocksFailure. */
    method OnAcceptError()
      modifies this`trace
      ensures trace == old(trace) + Reject(SocksFailure)
    {
      Dispose(SocksFailure, None);
    }
  }
}
