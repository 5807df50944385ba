/** Octets, ports and endpoints as the proxy sees them on the wire. */
module Net {

  /** One octet, the C# `byte`. */
  type byte = b: int | 0 <= b < 256

  /** A TCP/UDP port number, the range of `IPEndPoint.Port`. */
  type Port = p: int | 0 <= p < 0x1_0000

  /** An IP endpoint: the octets of the address in network order and a port. */
  datatype Endpoint = Endpoint(addr: seq<byte>, port: Port)

  /** The IPv4 wildcard address 0.0.0.0 (`IPAddress.Any`). */
  const AnyAddress: seq<byte> := [0, 0, 0, 0]

  /** High octet of a port in network order. */
  function PortHigh(p: Port): byte { p / 256 }

  /** Low octet of a port in network order. */
  function PortLow(p: Port): byte { p % 256 }

  /** A port read from two octets, big-endian. */
  function BigEndianPort(hi: byte, lo: byte): (p: Port)
    ensures PortHigh(p) == hi && PortLow(p) == lo
  {
    hi * 256 + lo
  }

  /** Splitting a port into its two octets and reading them back gives the port. */
  lemma PortOctetsRoundTrip(p: Port)
    ensures BigEndianPort(PortHigh(p), PortLow(p)) == p
  {
  }

  /** `BitConverter.ToInt32(bytes, 0)` throws unless at least four octets are given. */
  predicate ToInt32Defined(addr: seq<byte>) { |addr| >= 4 }

  /** `BitConverter.ToInt64(bytes, 0)` throws unless at least eight octets are given,
      so it fails on every 4-octet IPv4 address. */
  predicate ToInt64Defined(addr: seq<byte>) { |addr| >= 8 }

  /** The address octets that the reply builders place in a 4-octet address field:
      the first four octets of the address, taken as given. */
  function AddressField(addr: seq<byte>): (f: seq<byte>)
    requires |addr| >= 4
    ensures |f| == 4 && f == addr[..4]
  {
    addr[..4]
  }
}
