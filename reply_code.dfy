/** The reply codes of SOCKS 5 (section 6 of RFC 1928) and of SOCKS 4, held in
    one enumeration whose underlying type is a single octet. */
module ReplyCodes {
  import opened Net

  datatype ReplyCode =
    // SOCKS 5
    | Ok                    // succeeded
    | SocksFailure          // general SOCKS server failure
    | ConnectionDisallowed  // connection not allowed by ruleset
    | NetworkUnreachable
    | HostUnreachable
    | ConnectionRefused
    | TtlExpires
    | UnsupportedCommand
    | UnsupportedAddrType
    | Reserved              // 9; 9..255 are unassigned
    // SOCKS 4
    | RequestGranted
    | RequestRejected1      // rejected or failed
    | RequestRejected2      // cannot connect to identd on the client
    | RequestRejected3      // identd and client report different user-ids
  {
    /** The octet sent on the wire, `(byte)code`. */
    function Value(): byte
    {
      match this
      case Ok => 0
      case SocksFailure => 1
      case ConnectionDisallowed => 2
      case NetworkUnreachable => 3
      case HostUnreachable => 4
      case ConnectionRefused => 5
      case TtlExpires => 6
      case UnsupportedCommand => 7
      case UnsupportedAddrType => 8
      case Reserved => 9
      case RequestGranted => 90
      case RequestRejected1 => 91
      case RequestRejected2 => 92
      case RequestRejected3 => 93
    }

    predicate IsSocks5() { Value() <= 9 }

    predicate IsSocks4() { 90 <= Value() <= 93 }
  }

  /** The SOCKS 5 codes in declaration order, Ok .. Reserved. */
  const Socks5Codes: seq<ReplyCode> :=
    [Ok, SocksFailure, ConnectionDisallowed, NetworkUnreachable, HostUnreachable,
     ConnectionRefused, TtlExpires, UnsupportedCommand, UnsupportedAddrType, Reserved]

  /** The SOCKS 4 codes in declaration order, RequestGranted .. RequestRejected3. */
  const Socks4Codes: seq<ReplyCode> :=
    [RequestGranted, RequestRejected1, RequestRejected2, RequestRejected3]

  /** The SOCKS 5 codes take the consecutive values 0..9, in order, as RFC 1928 assigns them. */
  lemma Socks5CodesConsecutive(i: nat)
    requires i < |Socks5Codes|
    ensures Socks5Codes[i].Value() == i && Socks5Codes[i].IsSocks5()
  {
  }

  /** The SOCKS 4 codes take the consecutive values 90..93, in order. */
  lemma Socks4CodesConsecutive(i: nat)
    requires i < |Socks4Codes|
    ensures Socks4Codes[i].Value() == 90 + i && Socks4Codes[i].IsSocks4()
  {
  }

  /** Every code is either a SOCKS 5 or a SOCKS 4 code, never both. */
  lemma RangesDisjoint(c: ReplyCode)
    ensures c.IsSocks5() != c.IsSocks4()
  {
  }

  /** Distinct codes are distinct octets, so a reply octet names its code. */
  lemma ValueInjective(c: ReplyCode, d: ReplyCode)
    ensures c.Value() == d.Value() ==> c == d
  {
  }
}
