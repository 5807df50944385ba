# SecureProxy SOCKS core, modelled in Dafny

SecureProxy is a C# proxy server. Each accepted connection becomes a `Client`.
A protocol handler (`Socks5Handler` or `Socks4Handler`) negotiates with that client:
- method selection;
- the request for CONNECT, BIND or UDP ASSOCIATE;
- the reply.

Once negotiation succeeds, `Client.StartRelay` starts a `RelayThread`. It copies octets both ways between the client and the upstream connection. `SecureStream` provides a day-keyed XOR transform, which a connection flagged as secure applies to every send and receive; only the client's connection can carry that flag.

This project models that core:

| file | module | contents |
|---|---|---|
| `wrappers.dfy` | `Wrappers` | `Option` and `Result` |
| `net.dfy` | `Net` | octets, ports, endpoints, big-endian port octets, the length demands of `BitConverter.ToInt32`/`ToInt64` |
| `reply_code.dfy` | `ReplyCodes` | the `ReplyCode` enumeration and its octet values |
| `command.dfy` | `Commands` | the SOCKS 5 request parser (`Request.ParseRequest`), `CreateReply`, `Reply.ToBytes` |
| `secure_stream.dfy` | `SecureStream` | in-place `Encrypt`/`Decrypt` on arrays, proved against a pure `XorRange` |
| `socks_handler.dfy` | `SocksHandler` | the effects a handler has on its client connection; octet accumulation |
| `socks5_handler.dfy` | `Socks5` | the SOCKS 5 handler as a class, with pure functions for the greeting, the query and the replies |
| `socks4_handler.dfy` | `Socks4` | the SOCKS 4 and 4a handler as a class, with pure functions for request checks, reply octets and the user id and domain |
| `relay.dfy` | `Relay` | `RelayThread` as a class over two fixed 32768-octet buffers that each receive fills, with its effect trace and a once-only teardown |
| `client.dfy` | `Session` | `Client`: the socket setters that dispose what they replace, `StartRelay`, `Dispose` |

How the classes record their behaviour:
- Each handler callback is a method that appends the effects it causes to the object's `trace`. The effects are sends on the client connection with the completion they continue into, receives, closes and upstream connects.
- Each callback also updates the fields the C# code updates.
- Pure functions of the inputs (`QueryOutcome`, `DisposeReply`, `Selection`, `XorRange`, `Teardown`) say what those effects are.
- Lemmas then state the protocol properties about those functions.

The model follows the code where the code differs from what its documentation suggests:
- A SOCKS 5 domain-name request has its port read from octets `4+len` and `5+len`. That is the last name octet and the first port octet, not the port (`Command.cs:66`). CONNECT still reaches the right port, because `ProcessQuery` recomputes it from octets `len+5` and `len+6`. Every other use of the parsed port sees the shifted value. `Commands.DomainRequestPortDiscrepancy` and `Commands.DomainPortCounterexample` state this.
- `ProcessQuery`'s catch answers every parse failure with `SocksFailure`. The code carried by `RequestParseException` (for example `HostUnreachable` for an unresolvable name) is never read.
- `IPHelper.Endpoint2Int` and the BIND branches use `BitConverter.ToInt64` on an address's octets. That throws for a 4-octet IPv4 address. So the SOCKS 4 reply for an IPv4 upstream is always the fallback `[0, 91, 0, …]`, and BIND with an IPv4 external address always fails.
- `IsValidQuery` disposes on an IPv6 or unknown address type and returns `false`. `OnRecvRequest` then arms another receive anyway. The model keeps both effects.

## Model

| member | source | states |
|---|---|---|
| Net.BigEndianPort | SecureProxy/Command.cs:48 | a port read high octet first has those two octets as its network-order octets |
| Net.PortOctetsRoundTrip | SecureProxy/Command.cs:115 | splitting a port into network-order octets and reading them back gives the port |
| Net.AddressField | SecureProxy/Socks5Handler.cs:380-390 | the address field of a reply is the address's first four octets |
| ReplyCodes.Socks5CodesConsecutive | SecureProxy/ReplyCode.cs:13-49 | the SOCKS 5 codes `Ok` … `Reserved` have the values 0 … 9 in order |
| ReplyCodes.Socks4CodesConsecutive | SecureProxy/ReplyCode.cs:52-64 | the SOCKS 4 codes `RequestGranted` … `RequestRejected3` have the values 90 … 93 in order |
| ReplyCodes.RangesDisjoint | SecureProxy/ReplyCode.cs:8-64 | every code is a SOCKS 5 code or a SOCKS 4 code, never both |
| ReplyCodes.ValueInjective | SecureProxy/ReplyCode.cs:8-64 | two codes with the same octet are the same code |
| Commands.ParseHeaderFields | SecureProxy/Command.cs:39-42 | a parsed request carries octets 0–3 as version, command, reserved and address type |
| Commands.ParseRequest | SecureProxy/Command.cs:36-79 | a success has at least 4 octets, carries octets 0–3 as version, command, reserved and a known address type; `UnsupportedAddrType` is returned exactly for a 4-octet header with an unknown type; `HostUnreachable` only for a domain request; no other rejection code occurs |
| Commands.ParseIpV4 | SecureProxy/Command.cs:43-49 | an IPv4 request parses exactly when it has at least 10 octets; the address is octets 4–7 and the port is octets 8–9, big-endian |
| Commands.ParseIpV6 | SecureProxy/Command.cs:68-74 | an IPv6 request parses exactly when it has at least 22 octets; the address is octets 4–19 and the port is octets 20–21 |
| Commands.ParseDomain | SecureProxy/Command.cs:50-67 | a domain request fails with `HostUnreachable` when the name does not resolve; otherwise the address is the resolved one and the port is read from octets `4+len`, `5+len` |
| Commands.ParseUnsupportedAddrType | SecureProxy/Command.cs:75-78 | any other address type fails with `UnsupportedAddrType` |
| Commands.IpV4RequestRoundTrip | SecureProxy/Command.cs:36-49 | parsing an encoded IPv4 request gives back its command, address and port |
| Commands.IpV6RequestRoundTrip | SecureProxy/Command.cs:36-74 | parsing an encoded IPv6 request gives back its command, address and port |
| Commands.DomainRequestPortDiscrepancy | SecureProxy/Command.cs:66 | for an encoded domain request the parsed port is (last name octet)·256 + the high port octet, while the port where the protocol puts it is the encoded port |
| Commands.DomainPortCounterexample | SecureProxy/Command.cs:66 | the request for "a", port 80 parses with port 24832 |
| Commands.CreateReply | SecureProxy/Command.cs:80-90 | the reply keeps the request's version and address type, has code `Ok`, reserved 0 and the given bind address and port |
| Commands.ToBytes | SecureProxy/Command.cs:107-117 | the reply octets are version, code value, reserved, type, the address octets, then the port in network order |
| Commands.IpV4ReplyEchoesRequest | SecureProxy/Command.cs:80-117 | a reply created from a parsed IPv4 request for its own address and port serializes to the request with octets 1 and 2 set to 0 |
| SecureStream.XorInPlace | SecureProxy/SecureStream.cs:11-14 | the array afterwards is `XorRange` of its old contents |
| SecureStream.Encrypt | SecureProxy/SecureStream.cs:9-15 | the octets at `offset … offset+length-1` are XORed with `(day·8) mod 256`; no other octet changes |
| SecureStream.Decrypt | SecureProxy/SecureStream.cs:17-23 | the same transform as `Encrypt` |
| SecureStream.XorRange | SecureProxy/SecureStream.cs:11-14 | the transform keeps the buffer length |
| SecureStream.BitXorTwice | SecureProxy/SecureStream.cs:13 | XOR with the same key twice is the identity |
| SecureStream.DecryptAfterEncrypt | SecureProxy/SecureStream.cs:9-23 | decrypting an encrypted range with the same day's key restores the buffer |
| SecureStream.RangeOnly | SecureProxy/SecureStream.cs:11-13 | octets outside the range are unchanged; octets inside are XORed with the key |
| SecureStream.EmptyRangeIdentity | SecureProxy/SecureStream.cs:11 | a non-positive length leaves the buffer unchanged |
| SecureStream.DayKeyChangesRange | SecureProxy/SecureStream.cs:13 | for a day of the month 1–31 the key is a non-zero multiple of 8 and every octet in the range changes |
| SecureStream.Key | SecureProxy/SecureStream.cs:13 | the key octet `(byte)(day*8)` is 8 times the day taken modulo 32 |
| SecureStream.KeyOfDay | SecureProxy/SecureStream.cs:13 | truncating `day*8` to an octet equals `8 * (day mod 32)` |
| SocksHandler.AddBytes | SecureProxy/Socks5Handler.cs:171 | the accumulated octets are the old octets followed by the `n` received ones |
| SocksHandler.DisposeCompletion | SecureProxy/Socks5Handler.cs:401 | a reply continues into the good path exactly when its octet 1 is the protocol's success code, and into the bad path otherwise |
| Socks5.GreetingCompleteness | SecureProxy/Socks5Handler.cs:67-77 | a greeting is complete when its length is its first octet + 1: a whole greeting is complete and every proper prefix is not |
| Socks5.GreetingComplete | SecureProxy/Socks5Handler.cs:67-77 | a complete greeting has between 1 and 256 octets |
| Socks5.SelectMethod | SecureProxy/Socks5Handler.cs:85-105 | the loop's result is `Selection` over the offered methods, and the chosen method follows the selection |
| Socks5.SelectionWithoutCredentials | SecureProxy/Socks5Handler.cs:90-95 | without required credentials the reply is 0 exactly when method 0 is offered, and 255 otherwise |
| Socks5.SelectionWithCredentials | SecureProxy/Socks5Handler.cs:97-102 | with required credentials the reply is 2 exactly when method 2 is offered, and never 0 |
| Socks5.SelectionIgnoresOrder | SecureProxy/Socks5Handler.cs:85-105 | the selection depends only on the set of offered methods |
| Socks5.Selection | SecureProxy/Socks5Handler.cs:85-105 | the reply is 0, 2 or 255, and a reply other than 255 names a method the client offered |
| Socks5.CheckQueryCases | SecureProxy/Socks5Handler.cs:191-217 | IPv4 queries are complete at 10 octets and domain queries at `len+7`; IPv6 is rejected and other types abort |
| Socks5.CheckQuery | SecureProxy/Socks5Handler.cs:191-217 | a verdict other than incomplete needs at least 4 octets, and a complete query has at least 7 octets and an IPv4 or domain-name address type |
| Socks5.QueryPort | SecureProxy/Socks5Handler.cs:231-243 | the CONNECT port of a domain query is read from the octets after the name |
| Socks5.CompleteIpV4Parses | SecureProxy/Socks5Handler.cs:191-200 | a complete IPv4 query parses, with the address and port of the query |
| Socks5.PrefixesIncomplete | SecureProxy/Socks5Handler.cs:191-217 | encoded IPv4 and domain queries are complete, and every proper prefix is incomplete |
| Socks5.DomainQueryPort | SecureProxy/Socks5Handler.cs:236-243 | CONNECT to an encoded domain query goes to the encoded port |
| Socks5.DisposeReply | SecureProxy/Socks5Handler.cs:369-396 | a 10-octet reply: a failure code with a zero address; `Ok` with the local IPv4 endpoint when there is one; otherwise the `SocksFailure` fallback |
| Socks5.GoodPathIffOk | SecureProxy/Socks5Handler.cs:401 | the reply continues into the good path exactly when the code is `Ok` and the local endpoint is usable |
| Socks5.BindReply | SecureProxy/Socks5Handler.cs:262-279 | the BIND reply is `5, 0, 0, 1`, the external address, then the listening port in network order |
| Socks5.ConnectIpV4Dispatch | SecureProxy/Socks5Handler.cs:228-235 | an IPv4 CONNECT query connects upstream to the address and port of the query |
| Socks5.ConnectDomainDispatch | SecureProxy/Socks5Handler.cs:228-261 | a domain-name CONNECT whose name resolves connects upstream to the resolved address and the encoded port |
| Socks5.UnknownCommandRejected | SecureProxy/Socks5Handler.cs:300-302 | any other command is answered with `UnsupportedCommand` |
| Socks5.UnresolvedNameReply | SecureProxy/Socks5Handler.cs:305-309 | an unresolvable name is answered with `SocksFailure` |
| Socks5.UdpPortExhausted | SecureProxy/Socks5Handler.cs:280-299 | UDP ASSOCIATE to 0.0.0.0:0 with no free port fails with `SocksFailure` |
| Socks5.UdpAssociateReply | SecureProxy/Socks5Handler.cs:280-299 | otherwise UDP ASSOCIATE replies `Ok` with the chosen port and records the client's UDP endpoint |
| Socks5.BindIpV4ExternalFails | SecureProxy/Socks5Handler.cs:262-266 | BIND with a 4-octet external address fails with `SocksFailure` and accepts nothing |
| Socks5.QueryOutcome | SecureProxy/Socks5Handler.cs:220-310 | every query produces exactly one effect; a pending accept follows only a reply sent into the accept; a UDP client endpoint is recorded exactly when a local bind endpoint is, and only with a reply sent into the UDP receive |
| Socks5.Dispatch | SecureProxy/Socks5Handler.cs:226-303 | exactly one effect, which is an upstream connect exactly when the command is CONNECT; the accept and UDP facts of `QueryOutcome` hold as well |
| Socks5.Socks5Handler.constructor | SecureProxy/Socks5Handler.cs:55-58 | a new handler has no method, no octets, no pending accept, no UDP or bind endpoint |
| Socks5.Socks5Handler.ProcessRequest | SecureProxy/Socks5Handler.cs:80-113 | sends `5, selection` and records the chosen method |
| Socks5.Socks5Handler.OnAuthSent | SecureProxy/Socks5Handler.cs:116-131 | a failed send or no method closes; otherwise the chosen method starts |
| Socks5.Socks5Handler.OnAuthenticationComplete | SecureProxy/Socks5Handler.cs:134-158 | success clears the octets and arms a receive; failure closes |
| Socks5.Socks5Handler.Dispose | SecureProxy/Socks5Handler.cs:369-407 | sends `DisposeReply` with the completion chosen by octet 1 |
| Socks5.Socks5Handler.OnRecvRequest | SecureProxy/Socks5Handler.cs:161-187 | closes on a failed receive; otherwise accumulates, processes a complete query, and re-arms the receive after the effects of `IsValidQuery` |
| Socks5.Socks5Handler.ProcessQuery | SecureProxy/Socks5Handler.cs:220-310 | the effects and new state are `QueryOutcome` of the query |
| Socks5.Socks5Handler.DispatchQuery | SecureProxy/Socks5Handler.cs:226-303 | the effects and new state of a parsed request are `Dispatch` of it |
| Socks5.Socks5Handler.OnConnected | SecureProxy/Socks5Handler.cs:335-354 | a successful connect replies `Ok` with the local endpoint; a failed one replies `SocksFailure` |
| Socks5.Socks5Handler.OnAccept | SecureProxy/Socks5Handler.cs:357-362 | the listener is disposed and `Ok` is sent |
| Socks5.Socks5Handler.OnAcceptError | SecureProxy/Socks5Handler.cs:363-366 | replies `SocksFailure` |
| Socks4.IndexOf | SecureProxy/Socks4Handler.cs:63-72 | the first index at or after `start` holding the octet, or −1 exactly when there is none |
| Socks4.UnknownCommandAborts | SecureProxy/Socks4Handler.cs:57-58 | a command other than 1 or 2 aborts the request |
| Socks4.CompleteDomainMode | SecureProxy/Socks4Handler.cs:63-67 | a SOCKS 4a request (address 0.0.0.x, x ≠ 0) is complete exactly when a user-id NUL and a later name NUL are present |
| Socks4.CompleteAddressMode | SecureProxy/Socks4Handler.cs:68-72 | any other request is complete exactly when a NUL ends the user id |
| Socks4.UserId | SecureProxy/Socks4Handler.cs:90-91 | the user id is the NUL-free run of octets from offset 7 up to the first NUL |
| Socks4.DomainName | SecureProxy/Socks4Handler.cs:92-100 | a name is found exactly when a second NUL follows the user id's NUL, and it is the run of octets between the two |
| Socks4.RequestPort | SecureProxy/Socks4Handler.cs:89 | the port is octets 1–2, big-endian |
| Socks4.CompleteDomainModeHasName | SecureProxy/Socks4Handler.cs:92-100 | a complete SOCKS 4a request always yields a domain name |
| Socks4.Socks4RoundTrip | SecureProxy/Socks4Handler.cs:86-112 | an encoded SOCKS 4 CONNECT with a literal address (not 0.0.0.x) is complete and gives back its port and user id; the target is that address |
| Socks4.Socks4aRoundTrip | SecureProxy/Socks4Handler.cs:86-100 | an encoded 4a CONNECT is complete and gives back its port, user id and name |
| Socks4.ConnectTarget | SecureProxy/Socks4Handler.cs:92-99 | a literal-address request connects to octets 3–6; a 4a request connects to the resolution of its name when there is one; no target arises only in 4a mode |
| Socks4.Encode4aLayout | SecureProxy/Socks4Handler.cs:63-67 | an encoded 4a request has its two NULs right after the user id and after the name, with the user id and name between them |
| Socks4.DisposeReply | SecureProxy/Socks4Handler.cs:153-171 | an 8-octet reply with the code and the upstream endpoint, or the `[0, 91, 0, …]` fallback when that endpoint is missing or cannot be converted |
| Socks4.IpV4ReplyIsFallback | SecureProxy/Socks4Handler.cs:160-167 | with an IPv4 upstream endpoint the reply is always the fallback, so the bad path follows |
| Socks4.GoodPathIffGranted | SecureProxy/Socks4Handler.cs:171 | the good path follows exactly when the code is `RequestGranted` and the endpoint can be converted |
| Socks4.BindReply | SecureProxy/Socks4Handler.cs:113-130 | the BIND reply is `0, 90`, the listening port, then the external address |
| Socks4.AcceptCode | SecureProxy/Socks4Handler.cs:188-191 | an inbound connection is granted exactly when it comes from the expected address; otherwise it is rejected with 91 |
| Socks4.Socks4Handler.constructor | SecureProxy/Socks4Handler.cs:49 | a new handler has no user, no bind address, no pending accept and no upstream |
| Socks4.Socks4Handler.IsValidRequest | SecureProxy/Socks4Handler.cs:53-78 | the result is `CheckRequest`, and an unknown command also closes |
| Socks4.CheckRequest | SecureProxy/Socks4Handler.cs:53-78 | a complete request has at least 8 octets and a NUL at or after offset 7; the request aborts exactly when its first octet is neither 1 nor 2 |
| Socks4.Socks4Handler.Dispose | SecureProxy/Socks4Handler.cs:153-177 | sends `DisposeReply` with the completion chosen by octet 1 |
| Socks4.Socks4Handler.ProcessRequest | SecureProxy/Socks4Handler.cs:81-137 | CONNECT records the user and connects to the resolved target, or rejects with 91 when the target cannot be found; BIND replies and waits, or rejects with 91; an empty request faults and is rejected with 91; a command other than 1 or 2 has no effect |
| Socks4.Socks4Handler.OnConnected | SecureProxy/Socks4Handler.cs:140-150 | records the upstream endpoint and replies granted or rejected |
| Socks4.Socks4Handler.OnAccept | SecureProxy/Socks4Handler.cs:184-192 | the listener is disposed and `AcceptCode` is replied |
| Socks4.Socks4Handler.OnAcceptError | SecureProxy/Socks4Handler.cs:178-181 | replies `RequestRejected1` |
| Relay.CountAppend | SecureProxy/RelayThread.cs:105-126 | counting effects distributes over concatenation of traces |
| Relay.TeardownCount | SecureProxy/RelayThread.cs:112-124 | how often an effect occurs in a teardown, connection by connection and for the destroyer |
| Relay.Teardown | SecureProxy/RelayThread.cs:112-124 | two effects per present connection plus one for the destroyer, none of them a send or receive |
| Relay.TeardownCounts | SecureProxy/RelayThread.cs:108-125 | a teardown shuts down and closes each present connection exactly once, and notifies the destroyer once when there is one |
| Relay.TeardownAfter | SecureProxy/RelayThread.cs:105-126 | appending a teardown adds exactly those counts to a trace |
| Relay.TeardownOnce | SecureProxy/RelayThread.cs:105-126 | a trace without a teardown, extended by one, holds exactly one teardown |
| Relay.OtherKeepsCounts | SecureProxy/RelayThread.cs:55-103 | receives and sends leave the teardown counts as they were |
| Relay.Fill | SecureProxy/RelayThread.cs:29-30 | a receive places the received octets at the start of the buffer and leaves the rest as it was |
| Relay.RelayThread.constructor | SecureProxy/RelayThread.cs:14-26 | two fresh 32768-octet buffers, and nothing outstanding |
| Relay.RelayThread.Start | SecureProxy/RelayThread.cs:27-31 | arms one receive on each side |
| Relay.RelayThread.OnClientReceive | SecureProxy/RelayThread.cs:55-70 | the received octets are written into the client buffer, and exactly those octets are sent to the remote side; zero or an error tears down and sends nothing |
| Relay.RelayThread.OnRemoteReceive | SecureProxy/RelayThread.cs:72-87 | the received octets are written into the remote buffer, and exactly those octets are sent to the client; zero or an error tears down and sends nothing |
| Relay.RelayThread.OnRemoteSent | SecureProxy/RelayThread.cs:97-103 | a completed send re-arms the client receive; otherwise nothing happens |
| Relay.RelayThread.OnClientSent | SecureProxy/RelayThread.cs:89-95 | a completed send re-arms the remote receive; otherwise nothing happens |
| Relay.RelayThread.Dispose | SecureProxy/RelayThread.cs:105-126 | the first call appends the teardown and later calls change nothing, so the invariant "at most one teardown" is kept |
| Session.Client.Empty | SecureProxy/Client.cs:60-64 | no sockets, no destroyer, no relay |
| Session.Client.constructor | SecureProxy/Client.cs:53-57 | the given client socket and destroyer, and no relay |
| Session.Client.SetClientSocket | SecureProxy/Client.cs:74-79 | a previous client socket is disposed before the new one is stored |
| Session.Client.SetDestinationSocket | SecureProxy/Client.cs:90-95 | a previous destination socket is disposed before the new one is stored |
| Session.Client.Dispose | SecureProxy/Client.cs:120-124 | forwarded to the relay when there is one |
| Session.Client.StartRelay | SecureProxy/Client.cs:141-161 | a missing socket or a loop back to the proxy disposes without a relay; otherwise a fresh relay over both sockets is started |

## Left out

- `SocketConnection`, `AsyncHelper` and the `Socket` API are not part of this model. On a connection created as secure, `SocketConnection` encrypts before each send and decrypts on each send and receive completion (`SocketConnection.cs:87-88`, `125-126`, `140-141`). Only a connection accepted from a listener takes the listener's flag (`SocketConnection.cs:153`, `180`), so the client connection may be secure. Upstream connections are always created non-secure, for CONNECT at `Socks5Handler.cs:245` and `Socks4Handler.cs:101`, and so is the BIND accept socket (`Socks5Handler.cs:265`, `Socks4Handler.cs:117`) whose accepted peer inherits that. At most the client side of a relay is transformed. The modelled relay and handlers carry the octets as they appear after that transform. A send or receive is an effect in the trace, and its completion is a later method call carrying the octet count.
- The SOCKS handler base class (`SocksHandler.cs`, with `AddBytes` and the accept loop) is not part of this model. `AddBytes` and the completion choice are the functions in `socks_handler.dfy`.
- DNS resolution, the external address, the listening port, the free UDP port, the local endpoint, the connect outcome and the day of the month become parameters (`Environment`, `day`).
- The UDP relay (`StartUdpReceive`, `OnUdpReceive`) is a stub in the code. It appears only as the `UdpReceive` completion.
- The user/password sub-negotiation (`AuthUserPass` and `AuthNone` classes) is not part of this model. Its outcome is the `success` argument of `OnAuthenticationComplete`.
- Logging (`Console.WriteLine`), exception messages and `ToString` are left out.
- Concurrency: the callbacks are modelled as running one at a time. In the code the two relay directions complete on independent I/O callbacks, and `_disposeCalled` is a plain `bool` that is tested and then set (`RelayThread.cs:105-110`). Two end-of-stream receives completing at once can both pass the test and tear down twice. The once-only teardown (`Relay.RelayThread.Valid`, `Relay.TeardownOnce`) holds only for callbacks run one at a time. That race is not modelled.
- `IPAddress`: addresses are their octets in network order, and `IPAddress.Any` is `0.0.0.0`. Endianness and the signed `long`/`int` arithmetic of `ToInt64`/`ToInt32` are not modelled beyond their length demand. Reply address fields take the first four octets as given.
- Socks4.Socks4Handler.OnAccept: requires a recorded bind address, which the code only reaches after BIND set it. The peer is passed in for `RemoteConnection.RemoteEndPoint`.
- Text decoding of user ids and domain names (ASCII/UTF-8) is not modelled; they remain octet strings.
- SecureStream.Encrypt: the code reads `DateTime.UtcNow.Day` once per octet (`SecureStream.cs:13`, `21`). The model fixes one `day` per call, so a buffer transformed across midnight UTC, where the key changes part way, is not modelled. `SecureStream.DecryptAfterEncrypt` says nothing about that case, or about an encryption and a decryption on different days.
- SecureStream.Decrypt: the same per-octet clock reading (`SecureStream.cs:21`) is not modelled, for the same reason.
- Net.AddressField: the SOCKS 5 reply builds its address octets from the signed little-endian `int` of the address, by `%`, `/` and `Math.Floor` arithmetic (`Socks5Handler.cs:380-390`). The model takes the first four octets as given. The two can differ when the address's last octet is 128 or more, because the `int` is then negative and C#'s `%` and `/` truncate toward zero.
