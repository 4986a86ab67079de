# Socket coordinator model

A Dafny model of the per-connection protocol coordinator of blinksocks, class `Socket`.
The same class runs in two roles:

- **Client role.** It answers the local SOCKS5 handshake of RFC 1928: method selection in
  section 3, CONNECT and UDP ASSOCIATE in section 4, and replies in section 6. After the
  handshake it frames each payload for the locked-in target and writes it to the cipher.
  In UDP mode it first strips the UDP request header of section 7.
- **Server role.** It feeds the tunnel bytes to the decipher and forwards each decrypted
  frame to the TCP relay.

With `use_iv` on, the client appends a fresh IV to its first frame and writes that frame
under the IV-less cipher. It then rebuilds both ciphers on the new IV and tells the relay.
The server takes the last `IV_LEN` bytes of its first decrypted frame as the IV and strips
them. It lowers the 2-byte length field by `IV_LEN`, forwards the frame, and then rebuilds
its ciphers.

The class becomes one immutable record, `Socket.Connection`. Each event becomes one pure
step, `Socket.Step`, which returns the next record and the list of effects the source
performs, in order. The events are a transport `data` buffer, a buffer handed to the
shared collector `onReceived`, and `close`. The effects are:

- a socket write;
- a cipher or decipher write, tagged with the IV that cipher was built on;
- a cipher rebuild;
- a relay `setIV`;
- a forward to the destination or to the server;
- a relay close;
- a socket end or destroy.

`Socket.Run` applies a sequence of events in order. The `Tunnel` module puts a client
connection and a server connection side by side; its lemmas relate the two ends of the IV
bootstrap.

Modules:

- `Buffers`: bytes, and the big-endian 16-bit field.
- `Frames`: the target address and the frame layout of `Encapsulator.pack`.
- `Crypto`: `IV_LEN` and the IV type.
- `Socks5`: parse results of the SOCKS5 messages and the replies.
- `Socket`: the coordinator itself.
- `Tunnel`: properties that relate the two roles.

Collaborators whose source is not part of this model are handled as follows:

- **Ciphers.** A cipher is known only by the IV it was created with.
- **`Encapsulator.pack`.** It has a declared layout:
  `[length: u16 BE][ATYP][host][port: u16 BE][payload]`. The length counts every byte
  after the field. An IPv4 address takes 7 bytes, so the smallest IPv4 frame is the 9 bytes
  that `obtainIV` tests for. A domain address takes 4 bytes plus the name, so a frame to a
  short domain can be smaller than that.
- **SOCKS5 parsers.** They are total functions from a buffer to a parse result
  (`Socks5.Parsers`).
- **`CRYPTO_IV_LEN`.** It is a constant `IV_LEN` whose value is left open apart from being
  positive, so every general property holds for any positive IV length. A zero length is
  excluded because `buffer.slice(-0)` returns the whole buffer, not an empty IV. Only
  `Tunnel.ExampleConnect` fixes it at 16.
- **`Crypto.generateIV()`.** It is an input to each step of type `Iv`, so it always has
  exactly `IV_LEN` bytes.
- **Relays.** A relay is recorded only by whether it has been created.

An IPv4 target encodes as 7 bytes: the tag, 4 host bytes and a 2-byte port. So in
`Tunnel.ExampleConnect`, with a 16-byte IV and the 5-byte payload "GET /", the first frame's
length field is 7 + 5 + 16 = 28.

The 9-byte minimum that `obtainIV` adds to the IV length (Socket.js:60) fits an IPv4 frame
with no payload. The guard therefore assumes at least that much, and it rejects honest
bootstrap frames to very short domain targets: `Tunnel.BootstrapGuard` gives the exact
condition, and `Tunnel.ShortDomainBootstrapRejected` shows that a one-letter domain with a
one-byte first payload makes the server destroy the connection.

## Model

| member | source | states |
|---|---|---|
| `Socket.Init` | src/classes/Socket/Socket.js:27-51 | a new connection has no relay, no ready flag and no IV, its ciphers are built without an IV, and it satisfies the connection invariant in either role |
| `Socket.GetRelay` | src/classes/Socket/Socket.js:76-94 | the server always gets the TCP relay; a client gets TCP iff CONNECT succeeded, otherwise UDP iff UDP ASSOCIATE succeeded, otherwise none; only the chosen relay's existence changes |
| `Socket.GetRelayMemoised` | src/classes/Socket/Socket.js:79-91 | asking for the relay a second time returns the same relay and creates nothing new |
| `Socket.ObtainIv` | src/classes/Socket/Socket.js:59-67 | there is no IV exactly when the buffer is shorter than `IV_LEN + 9`; otherwise the buffer is its prefix followed by the IV, so the IV is its last `IV_LEN` bytes |
| `Socket.FixUp` | src/classes/Socket/Socket.js:149-152 | the forwarded buffer is `IV_LEN` bytes shorter; bytes 2.. equal the input's bytes up to the IV; the length field is the old field minus `IV_LEN`, taken modulo 2^16 when the old field is below `IV_LEN` (so it wraps up by exactly 2^16 for any IV no longer than 2^16 bytes) |
| `Socks5.ParseHandshake` | src/classes/Socket/Socket.js:191-200 | a buffer the identifier parser accepts is an identifier even if it also parses as a request; otherwise it is the parsed request; otherwise it is unrecognised |
| `Socket.OnSocksHandshake` | src/classes/Socket/Socket.js:189-229 | an identifier gets exactly one Select write and no state change; CONNECT or UDP ASSOCIATE sets only the matching ready flag and the target, with one success reply; any other command gets one not-supported reply and no state change; an unrecognised buffer gets no write at all |
| `Socket.SendPayload` | src/classes/Socket/Socket.js:120-133 | the first write of a ready client goes to the pre-rotation cipher; with no IV and IV mode on it is `pack(target, payload ++ iv)`, followed by the cipher rebuild and then the relay's `setIV` on the ready mode's relay, and the IV is set; otherwise it is `pack(target, payload)` and nothing changes |
| `Socket.OnReceiving` | src/classes/Socket/Socket.js:96-118 | the server only feeds the decipher; a client that is not ready only ever writes SOCKS5 replies; in UDP mode an unparsable buffer causes no effect and no state change, and a parsed one sends only its DATA field |
| `Socket.OnReceived` | src/classes/Socket/Socket.js:137-162 | a server with no IV ends and destroys the socket on a too-short buffer, without forwarding, rebinding or setting the IV; otherwise it tells the relay the trailing IV, forwards the fixed-up frame and then rebinds; later buffers are forwarded unchanged; a ready client forwards to the server on its mode's relay |
| `Socket.OnClose` | src/classes/Socket/Socket.js:178-187 | close touches no state and its only possible effect is closing the TCP relay, which happens iff one exists |
| `Socket.Step` | src/classes/Socket/Socket.js:96-187 | every event keeps the connection invariant, which includes "at most one ready flag" and "ciphers keyed on the recorded IV"; a set IV is never reassigned; the target and flags never change once ready; the ciphers are rebuilt in a step iff that step sets the IV, and always on that IV |
| `Socket.Run` | src/classes/Socket/Socket.js:53-55 | over any sequence of events the invariant holds at the end; an IV that was set stays the same; a completed handshake is never renegotiated |
| `Socket.RunRebindsOnce` | src/classes/Socket/Socket.js:121-155 | over any sequence of events the ciphers are rebuilt at most once: exactly once if the IV went from unset to set, never if it was already set |
| `Buffers.ReadUInt16BE` | src/classes/Socket/Socket.js:150 | `readUInt16BE(0)` of a frame yields an unsigned 16-bit value, in the range 0 to 65535 |
| `Buffers.UInt16BE` | src/classes/Socket/Socket.js:150-152 | the two bytes written back into the length field are two bytes that read back, big-endian, as the new length taken modulo 2^16 |
| `Frames.EncodeAddress` | src/classes/Socket/Socket.js:125-132 | the target address inside a frame is 7 bytes for IPv4, 19 for IPv6 and 4 plus the name for a domain; it starts with the SOCKS5 address type and ends with the 2-byte big-endian port |
| `Frames.Pack` | src/classes/Socket/Socket.js:125-132 | a frame's length field equals the number of bytes after it, truncated to 16 bits, and those bytes are the address followed by the payload |
| `Tunnel.BootstrapGuard` | src/classes/Socket/Socket.js:59-67 | the server's size guard accepts the client's bootstrap frame `pack(a, p ++ iv)` iff address and payload together take at least 7 bytes |
| `Tunnel.BootstrapFrameFixUp` | src/classes/Socket/Socket.js:125-152 | the server's fix-up inverts the client's bootstrap framing: from an accepted `pack(a, p ++ iv)` it recovers `iv` and exactly `pack(a, p)`, length field included, wrap-around or not |
| `Tunnel.NumericTargetBootstrapAccepted` | src/classes/Socket/Socket.js:60-66 | a bootstrap frame to an IPv4 or IPv6 target always passes the server's size guard, which then yields the appended IV |
| `Tunnel.ShortDomainBootstrapRejected` | src/classes/Socket/Socket.js:60-64 | a bootstrap frame to a one-letter domain with at most one payload byte fails the server's size guard |
| `Tunnel.TunnelBootstrap` | src/classes/Socket/Socket.js:120-155 | a CONNECT client's first frame is written under the IV-less cipher, and the server decrypts it with its IV-less decipher; the server forwards exactly the frame without the IV; both ends then hold the same IV and have rebuilt their ciphers on it |
| `Tunnel.TunnelSteadyState` | src/classes/Socket/Socket.js:130-158 | with the same IV at both ends, a client payload is written as an IV-free frame under that IV's cipher; the server decrypts it with the same IV and forwards it byte for byte; no IV changes |
| `Tunnel.ExampleConnect` | src/classes/Socket/Socket.js:120-152 | CONNECT to 93.184.216.34:80 then "GET /": the first frame's length field is 28 and the server forwards it with 12 and the payload intact; the next payload "more" goes out with field 11 under the new cipher |

## Left out

- benchmark/bootstrap.js is a measurement harness. It spawns processes, writes files and
  scrapes output, and has no protocol logic.
- Logging, and `onError`. `onError` only logs and never changes state.
- The `had_error` flag of `close`. It only selects a log line.
- The cipher algorithms and `Crypto.generateIV`. A cipher is named by its IV, and the fresh
  IV is an input. The model assumes the decipher returns each client write whole, as one
  `onReceived` buffer. The `Tunnel` lemmas rely on that assumption.
- The byte encodings of the SOCKS5 messages and the UDP request header. Parsers are total
  functions, and replies are recorded by kind and code.
- The bytes of `Encapsulator.pack`. The layout is declared above, and its length field is
  truncated to 16 bits.
- `Encapsulator.numberToArray` is not part of this model. When the length field at
  Socket.js:150 is below `IV_LEN`, the subtraction goes negative. The model writes that
  result back modulo 2^16, which is what storing the value byte by byte into a Buffer does
  if `numberToArray` takes the low bytes. A client can produce such a field: its own
  length field already wraps when the address, payload and IV exceed 65535 bytes. The wrap
  is harmless there, because `Tunnel.BootstrapFrameFixUp` still recovers the frame without
  the IV, length field included.
- TCP and UDP relay plumbing. A relay is reduced to recorded effects: `setIV`,
  `forwardToDst`, `forwardToServer` and `close`.
- Event-emitter wiring and asynchronous delivery. Events form a sequential list. The shared
  collector is one `Received` event, whichever cipher produced the buffer.
- Socket lifetime after `end()` / `destroy()`. The source keeps no closed flag, so the model
  keeps none either. After a failed `obtainIV` the IV stays unset, exactly as in the source.
- `onClose` closes only the TCP relay. A UDP relay is left open, as in the source.
- A client `onReceived` before the handshake finishes calls a method on the null returned by
  `getRelay` and throws. The model records this as the `NullRelay` effect and changes
  nothing. This cannot happen in practice, because the client's cipher is first written
  only after the handshake.
