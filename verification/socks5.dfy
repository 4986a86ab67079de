/** The SOCKS5 messages the client-role coordinator reads and writes (RFC 1928).
    Their byte encodings are not part of this model: a parser is a total function
    from a buffer to its parse result, and a reply is recorded by its kind and code. */
module Socks5 {
  import opened Wrappers
  import opened Buffers
  import opened Frames

  /** CMD values of section 4 of RFC 1928. */
  const REQUEST_COMMAND_CONNECT: byte := 0x01
  const REQUEST_COMMAND_UDP: byte := 0x03

  /** REP values of section 6 of RFC 1928. */
  const REPLY_SUCCEEDED: byte := 0x00
  const REPLY_COMMAND_NOT_SUPPORTED: byte := 0x07

  /** A parsed CONNECT / BIND / UDP ASSOCIATE request (RequestMessage). */
  datatype Request = Request(cmd: byte, addr: Address)

  /** A parsed UDP request header with its datagram (UdpRequestMessage, section 7 of RFC 1928). */
  datatype UdpRequest = UdpRequest(frag: byte, addr: Address, data: Buffer)

  /** What a handshake buffer was recognised as. */
  datatype Message = Identify | CommandRequest(request: Request) | Unrecognised

  /** What the coordinator writes back to the local application. */
  datatype Response = Select | Reply(rep: byte)

  /** IdentifierMessage.parse (non-null or not), RequestMessage.parse and UdpRequestMessage.parse. */
  datatype Parsers = Parsers(
    identify: Buffer -> bool,
    request: Buffer -> Option<Request>,
    udpRequest: Buffer -> Option<UdpRequest>)

  /** The handshake tries the identifier parser first and the request parser second. */
  function ParseHandshake(p: Parsers, b: Buffer): (m: Message)
    ensures m.Identify? <==> p.identify(b)
    ensures m.CommandRequest? <==> !p.identify(b) && p.request(b).Some?
    ensures m.CommandRequest? ==> p.request(b) == Some(m.request)
  {
    if p.identify(b) then Identify
    else match p.request(b)
      case Some(req) => CommandRequest(req)
      case None => Unrecognised
  }
}
