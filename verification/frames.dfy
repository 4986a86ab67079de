/** Target addresses and the plaintext tunnel frame built by Encapsulator.pack:
    a 2-byte big-endian length, the address (type tag, host, port), then the payload.
    Encapsulator's own source is not part of this model; the layout below is the one
    the coordinator relies on. The smallest IPv4 frame (length field plus an IPv4 address
    and port) is the 9 bytes Socket.obtainIV insists on; a frame to a short domain name
    can be smaller. */
module Frames {
  import opened Buffers

  /** Address-type tags of section 4 of RFC 1928. */
  const ATYP_V4: byte := 0x01
  const ATYP_DOMAIN: byte := 0x03
  const ATYP_V6: byte := 0x04

  /** Length field plus an IPv4 address and port, with no payload. */
  const MIN_FRAME_LEN: nat := 9

  datatype Host = V4(v4: Buffer) | DomainName(name: Buffer) | V6(v6: Buffer)

  datatype RawAddress = RawAddress(host: Host, port: int) {
    predicate WellFormed() {
      && 0 <= port < U16_LIMIT
      && match host
         case V4(b) => |b| == 4
         case DomainName(n) => |n| < 256
         case V6(b) => |b| == 16
    }
  }

  /** A target address as a SOCKS5 request delivers it (class Address). */
  type Address = a: RawAddress | a.WellFormed() witness RawAddress(V4([0, 0, 0, 0]), 0)

  /** The address part of a frame: tag, host (a domain carries its own length byte), port. */
  function EncodeAddress(a: Address): (r: Buffer)
    ensures |r| >= 4
    ensures a.host.V4? ==> |r| == 7 && r[0] == ATYP_V4
    ensures a.host.V6? ==> |r| == 19 && r[0] == ATYP_V6
    ensures a.host.DomainName? ==> |r| == 4 + |a.host.name| && r[0] == ATYP_DOMAIN
    ensures ReadUInt16BE(r, |r| - 2) == a.port
  {
    match a.host
    case V4(b) => [ATYP_V4] + b + UInt16BE(a.port)
    case DomainName(n) => [ATYP_DOMAIN, |n| as byte] + n + UInt16BE(a.port)
    case V6(b) => [ATYP_V6] + b + UInt16BE(a.port)
  }

  /** Encapsulator.pack: the length field counts every byte after it, truncated to 16 bits. */
  function Pack(a: Address, payload: Buffer): (f: Buffer)
    ensures |f| == 2 + |EncodeAddress(a)| + |payload|
    ensures ReadUInt16BE(f, 0) == (|f| - 2) % U16_LIMIT
    ensures f[2..] == EncodeAddress(a) + payload
  {
    UInt16BE(|EncodeAddress(a)| + |payload|) + EncodeAddress(a) + payload
  }
}
