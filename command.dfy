/** The SOCKS 5 request and reply records and their wire codec
    (sections 4, 5 and 6 of RFC 1928). */
module Commands {
  import opened Wrappers
  import opened Net
  import opened ReplyCodes

  // Values of the `Command` enumeration.
  const CmdConnect: byte := 1
  const CmdBind: byte := 2
  const CmdUdpAssociate: byte := 3

  // Values of the `AddressType` enumeration.
  const AtypIpV4: byte := 1
  const AtypDomainName: byte := 3
  const AtypIpV6: byte := 4

  /** A parsed request. `command` and `addrType` hold the raw octets, as a C# cast
      of a byte to an enumeration does; `dstAddr` is the literal address or the
      address the domain name resolved to. */
  datatype Request = Request(version: byte, command: byte, reserved: byte, addrType: byte,
                             dstAddr: seq<byte>, dstPort: Port)

  /** A reply before serialisation. */
  datatype Reply = Reply(version: byte, code: ReplyCode, reserved: byte, addrType: byte,
                         bindAddr: seq<byte>, bindPort: Port)

  /** Why parsing stopped: an index past the end of the buffer (an exception of the
      runtime), or a `RequestParseException` carrying a reply code. */
  datatype ParseError = OutOfRange | Rejected(code: ReplyCode)

  /** The injected name resolver: the first address of the name, or None when the
      lookup throws or returns no address. */
  type Resolver = seq<byte> -> Option<seq<byte>>

  /** `Request.ParseRequest`, as written. For a domain name of length `len` the port is
      read from offsets 4+len and 5+len, one octet before the RFC 1928 layout. */
  function ParseRequest(buffer: seq<byte>, resolve: Resolver): (r: Result<Request, ParseError>)
    ensures r.Success? ==>
      (|buffer| >= 4 && r.value.version == buffer[0] && r.value.command == buffer[1]
       && r.value.reserved == buffer[2] && r.value.addrType == buffer[3]
       && r.value.addrType in {AtypIpV4, AtypDomainName, AtypIpV6})
    ensures r == Failure(Rejected(UnsupportedAddrType)) <==>
      (|buffer| >= 4 && buffer[3] !in {AtypIpV4, AtypDomainName, AtypIpV6})
    ensures r == Failure(Rejected(HostUnreachable)) ==> |buffer| >= 5 && buffer[3] == AtypDomainName
    ensures r.Failure? && r.error.Rejected? ==> r.error.code in {HostUnreachable, UnsupportedAddrType}
  {
    if |buffer| < 4 then Failure(OutOfRange)
    else
      var atyp := buffer[3];
      if atyp == AtypIpV4 then
        if |buffer| < 10 then Failure(OutOfRange)
        else Success(Request(buffer[0], buffer[1], buffer[2], atyp, buffer[4..8],
                             BigEndianPort(buffer[8], buffer[9])))
      else if atyp == AtypDomainName then
        if |buffer| < 5 then Failure(OutOfRange)
        else
          var len: nat := buffer[4];
          if |buffer| < 5 + len then Failure(OutOfRange)
          else
            match resolve(buffer[5..5 + len])
            case None => Failure(Rejected(HostUnreachable))
            case Some(addr) =>
              if |buffer| < 6 + len then Failure(OutOfRange)
              else Success(Request(buffer[0], buffer[1], buffer[2], atyp, addr,
                                   BigEndianPort(buffer[4 + len], buffer[5 + len])))
      else if atyp == AtypIpV6 then
        if |buffer| < 22 then Failure(OutOfRange)
        else Success(Request(buffer[0], buffer[1], buffer[2], atyp, buffer[4..20],
                             BigEndianPort(buffer[20], buffer[21])))
      else Failure(Rejected(UnsupportedAddrType))
  }

  /** The port a domain-name request carries under RFC 1928: the two octets after the name. */
  function RfcDomainPort(buffer: seq<byte>): Port
    requires |buffer| >= 5 && |buffer| >= 7 + buffer[4] as int
  {
    BigEndianPort(buffer[5 + buffer[4]], buffer[6 + buffer[4]])
  }

  /** `Request.CreateReply`: a success reply for the request's version and address type. */
  function CreateReply(request: Request, bindAddr: seq<byte>, bindPort: Port): (r: Reply)
    ensures r.version == request.version && r.addrType == request.addrType
    ensures r.code == Ok && r.reserved == 0
    ensures r.bindAddr == bindAddr && r.bindPort == bindPort
  {
    Reply(request.version, Ok, 0, request.addrType, bindAddr, bindPort)
  }

  /** `Reply.ToBytes`: VER, REP, RSV, ATYP, BND.ADDR, BND.PORT (section 6 of RFC 1928). */
  function ToBytes(reply: Reply): (out: seq<byte>)
    ensures |out| == 6 + |reply.bindAddr|
    ensures out[0] == reply.version && out[1] == reply.code.Value()
    ensures out[2] == reply.reserved && out[3] == reply.addrType
    ensures out[4..4 + |reply.bindAddr|] == reply.bindAddr
    ensures BigEndianPort(out[4 + |reply.bindAddr|], out[5 + |reply.bindAddr|]) == reply.bindPort
  {
    [reply.version, reply.code.Value(), reply.reserved, reply.addrType]
      + reply.bindAddr + [PortHigh(reply.bindPort), PortLow(reply.bindPort)]
  }

  // ---------------------------------------------------------------------------
  // Encoders for the three request layouts, the partners of ParseRequest.

  function EncodeIpV4Request(cmd: byte, addr: seq<byte>, port: Port): seq<byte>
    requires |addr| == 4
  {
    [5, cmd, 0, AtypIpV4] + addr + [PortHigh(port), PortLow(port)]
  }

  function EncodeIpV6Request(cmd: byte, addr: seq<byte>, port: Port): seq<byte>
    requires |addr| == 16
  {
    [5, cmd, 0, AtypIpV6] + addr + [PortHigh(port), PortLow(port)]
  }

  function EncodeDomainRequest(cmd: byte, name: seq<byte>, port: Port): seq<byte>
    requires |name| < 256
  {
    [5, cmd, 0, AtypDomainName, |name|] + name + [PortHigh(port), PortLow(port)]
  }

  // ---------------------------------------------------------------------------
  // Properties of the codec.

  /** Version, command, reserved octet and address type are exactly octets 0..3. */
  lemma ParseHeaderFields(buffer: seq<byte>, resolve: Resolver)
    requires ParseRequest(buffer, resolve).Success?
    ensures var r := ParseRequest(buffer, resolve).value;
      r.version == buffer[0] && r.command == buffer[1] &&
      r.reserved == buffer[2] && r.addrType == buffer[3]
  {
  }

  /** An IPv4 request: the address is octets 4..7 in order and the port octets 8, 9 big-endian;
      a buffer too short for them fails. */
  lemma ParseIpV4(buffer: seq<byte>, resolve: Resolver)
    requires |buffer| >= 4 && buffer[3] == AtypIpV4
    ensures ParseRequest(buffer, resolve).Success? <==> |buffer| >= 10
    ensures |buffer| >= 10 ==>
      ParseRequest(buffer, resolve).value.dstAddr == buffer[4..8] &&
      ParseRequest(buffer, resolve).value.dstPort == buffer[8] as int * 256 + buffer[9] as int
  {
  }

  /** An IPv6 request: the address is octets 4..19 and the port octets 20, 21 big-endian. */
  lemma ParseIpV6(buffer: seq<byte>, resolve: Resolver)
    requires |buffer| >= 4 && buffer[3] == AtypIpV6
    ensures ParseRequest(buffer, resolve).Success? <==> |buffer| >= 22
    ensures |buffer| >= 22 ==>
      ParseRequest(buffer, resolve).value.dstAddr == buffer[4..20] &&
      ParseRequest(buffer, resolve).value.dstPort == buffer[20] as int * 256 + buffer[21] as int
  {
  }

  /** A domain-name request: the name is the buffer[4] octets from offset 5; a name that does
      not resolve fails with HostUnreachable; otherwise the address is the resolved one and the
      port is read from octets 4+len and 5+len. */
  lemma ParseDomain(buffer: seq<byte>, resolve: Resolver)
    requires |buffer| >= 5 && buffer[3] == AtypDomainName
    requires |buffer| >= 6 + buffer[4] as int
    ensures var len: nat := buffer[4];
      match resolve(buffer[5..5 + len])
      case None => ParseRequest(buffer, resolve) == Failure(Rejected(HostUnreachable))
      case Some(addr) =>
        ParseRequest(buffer, resolve).Success? &&
        ParseRequest(buffer, resolve).value.dstAddr == addr &&
        ParseRequest(buffer, resolve).value.dstPort == buffer[4 + len] as int * 256 + buffer[5 + len] as int
  {
  }

  /** Any address type other than 1, 3 and 4 is rejected with UnsupportedAddrType. */
  lemma ParseUnsupportedAddrType(buffer: seq<byte>, resolve: Resolver)
    requires |buffer| >= 4
    requires buffer[3] != AtypIpV4 && buffer[3] != AtypDomainName && buffer[3] != AtypIpV6
    ensures ParseRequest(buffer, resolve) == Failure(Rejected(UnsupportedAddrType))
  {
  }

  /** Decoding an encoded IPv4 request gives back its command, address and port. */
  lemma {:induction false} IpV4RequestRoundTrip(cmd: byte, addr: seq<byte>, port: Port, resolve: Resolver)
    requires |addr| == 4
    ensures ParseRequest(EncodeIpV4Request(cmd, addr, port), resolve)
         == Success(Request(5, cmd, 0, AtypIpV4, addr, port))
  {
    var q := EncodeIpV4Request(cmd, addr, port);
    assert q[4..8] == addr;
    PortOctetsRoundTrip(port);
  }

  /** Decoding an encoded IPv6 request gives back its command, address and port. */
  lemma {:induction false} IpV6RequestRoundTrip(cmd: byte, addr: seq<byte>, port: Port, resolve: Resolver)
    requires |addr| == 16
    ensures ParseRequest(EncodeIpV6Request(cmd, addr, port), resolve)
         == Success(Request(5, cmd, 0, AtypIpV6, addr, port))
  {
    var q := EncodeIpV6Request(cmd, addr, port);
    assert q[4..20] == addr;
    PortOctetsRoundTrip(port);
  }

  /** Decoding an encoded domain-name request resolves the name, but reads the port one octet
      early: its high octet is the last octet of the name (or the length octet 0 for an empty
      name) and its low octet is the request's high port octet. The RFC 1928 offsets give the
      request's port back. */
  lemma {:induction false} DomainRequestPortDiscrepancy(cmd: byte, name: seq<byte>, port: Port, resolve: Resolver)
    requires |name| < 256 && resolve(name).Some?
    ensures var q := EncodeDomainRequest(cmd, name, port);
      && ParseRequest(q, resolve).Success?
      && ParseRequest(q, resolve).value.dstAddr == resolve(name).value
      && ParseRequest(q, resolve).value.dstPort
         == (if |name| == 0 then 0 else name[|name| - 1] as int) * 256 + PortHigh(port) as int
      && RfcDomainPort(q) == port
  {
    var q := EncodeDomainRequest(cmd, name, port);
    var len := |name|;
    assert q[4] == len;
    assert q[5..5 + len] == name;
    assert q[4 + len] == if len == 0 then 0 else name[len - 1];
    assert q[5 + len] == PortHigh(port) && q[6 + len] == PortLow(port);
    PortOctetsRoundTrip(port);
  }

  /** A concrete request that shows the discrepancy: CONNECT to "a" port 80 is parsed with port
      0x6100 = 24832. */
  lemma DomainPortCounterexample(resolve: Resolver)
    requires resolve([97]).Some?
    ensures var q := EncodeDomainRequest(CmdConnect, [97], 80);
      q == [5, 1, 0, 3, 1, 97, 0, 80] &&
      ParseRequest(q, resolve).value.dstPort == 24832 && RfcDomainPort(q) == 80
  {
    var q := EncodeDomainRequest(CmdConnect, [97], 80);
    assert q == [5, 1, 0, 3, 1, 97, 0, 80];
    DomainRequestPortDiscrepancy(CmdConnect, [97], 80, resolve);
  }

  /** For a 10-octet IPv4 request q, serialising the success reply built from the parsed
      address and port gives q with octets 1 and 2 cleared. */
  lemma {:induction false} IpV4ReplyEchoesRequest(q: seq<byte>, resolve: Resolver)
    requires |q| == 10 && q[3] == AtypIpV4
    ensures var r := ParseRequest(q, resolve).value;
      ToBytes(CreateReply(r, r.dstAddr, r.dstPort)) == q[1 := 0][2 := 0]
  {
    var r := ParseRequest(q, resolve).value;
    var out := ToBytes(CreateReply(r, r.dstAddr, r.dstPort));
    assert r.dstAddr == q[4..8];
    assert r.dstPort == q[8] as int * 256 + q[9] as int;
    assert PortHigh(r.dstPort) == q[8] && PortLow(r.dstPort) == q[9];
    assert out == [q[0], 0, 0, q[3]] + q[4..8] + [q[8], q[9]];
    assert forall i | 0 <= i < 10 :: out[i] == q[1 := 0][2 := 0][i];
  }
}
