/** The per-connection coordinator, class Socket of src/classes/Socket/Socket.js, as a
    pure step function. Each event (a buffer from the transport, a buffer from the
    shared cipher collector, or the transport closing) yields the next connection
    state together with the effects the source performs, in the order it performs them. */
module Socket {
  import opened Wrappers
  import opened Buffers
  import opened Frames
  import opened Crypto
  import opened Socks5

  /** The process-wide settings the coordinator reads: Config.isServer and Config.use_iv. */
  datatype Config = Config(isServer: bool, useIv: bool)

  datatype RelayKind = Tcp | Udp

  /** The fields of one Socket. A relay is recorded only by whether it has been created,
      since at most one of each kind ever exists per connection. */
  datatype Connection = Connection(
    tcpRelay: bool,
    udpRelay: bool,
    socksTcpReady: bool,
    socksUdpReady: bool,
    target: Option<Address>,
    iv: Option<Iv>,
    cipherIv: Option<Iv>)  // the IV the current cipher and decipher were created with
  {
    /** The SOCKS5 handshake has completed with CONNECT or UDP ASSOCIATE. */
    predicate Ready() {
      socksTcpReady || socksUdpReady
    }
  }

  datatype Event =
    | Data(buffer: Buffer)      // 'data' from the transport socket: onReceiving
    | Received(buffer: Buffer)  // output of the cipher or the decipher: onReceived
    | Close(hadError: bool)     // 'close' from the transport socket: onClose

  /** One event, with the value Crypto.generateIV() would return if it were called. */
  datatype Input = Input(event: Event, freshIv: Iv)

  datatype Effect =
    | SocketWrite(response: Response)                 // socket.write of a SOCKS5 message
    | CipherWrite(key: Option<Iv>, plaintext: Buffer) // _cipher.write; key names the cipher
    | DecipherWrite(key: Option<Iv>, ciphertext: Buffer)
    | RebindCiphers(iv: Iv)                           // updateCiphers with the new IV
    | RelaySetIv(relay: RelayKind, iv: Iv)
    | ForwardToDst(relay: RelayKind, buffer: Buffer)
    | ForwardToServer(relay: RelayKind, buffer: Buffer)
    | RelayClose(relay: RelayKind)
    | SocketEnd
    | SocketDestroy
    | NullRelay  // a relay method is called on getRelay()'s null, which throws

  datatype Outcome = Outcome(next: Connection, effects: seq<Effect>)

  datatype RelayChoice = RelayChoice(next: Connection, relay: Option<RelayKind>)

  /** What holds of every connection between events. */
  predicate Valid(cfg: Config, c: Connection) {
    && c.cipherIv == c.iv
    && (c.iv.Some? ==> cfg.useIv && (c.tcpRelay || c.udpRelay))
    && !(c.socksTcpReady && c.socksUdpReady)
    && (c.Ready() ==> c.target.Some?)
    && (cfg.isServer ==> !c.Ready() && c.target.None? && !c.udpRelay)
    && (!cfg.isServer ==> (c.tcpRelay ==> c.socksTcpReady) && (c.udpRelay ==> c.socksUdpReady))
  }

  /** The constructor: no relay, no handshake, no IV, ciphers created without an IV. */
  function Init(): (c: Connection)
    ensures forall cfg: Config :: Valid(cfg, c)
    ensures !c.Ready() && c.iv.None? && c.cipherIv.None?
  {
    Connection(false, false, false, false, None, None, None)
  }

  /** getRelay: the TCP relay on the server or once CONNECT succeeded, else the UDP relay
      once UDP ASSOCIATE succeeded, else none; the chosen relay is created on first use. */
  function GetRelay(cfg: Config, c: Connection): (r: RelayChoice)
    ensures r.relay == Some(Tcp) <==> cfg.isServer || c.socksTcpReady
    ensures r.relay == Some(Udp) <==> !cfg.isServer && !c.socksTcpReady && c.socksUdpReady
    ensures r.relay.None? <==> !cfg.isServer && !c.Ready()
    ensures r.next.tcpRelay == (c.tcpRelay || r.relay == Some(Tcp))
    ensures r.next.udpRelay == (c.udpRelay || r.relay == Some(Udp))
    ensures r.next.(tcpRelay := c.tcpRelay, udpRelay := c.udpRelay) == c
  {
    if c.socksTcpReady || cfg.isServer then
      RelayChoice(c.(tcpRelay := true), Some(Tcp))
    else if c.socksUdpReady || cfg.isServer then
      RelayChoice(c.(udpRelay := true), Some(Udp))
    else
      RelayChoice(c, None)
  }

  /** getRelay is memoised: asking again returns the same relay and creates nothing. */
  lemma GetRelayMemoised(cfg: Config, c: Connection)
    ensures GetRelay(cfg, GetRelay(cfg, c).next) == RelayChoice(GetRelay(cfg, c).next, GetRelay(cfg, c).relay)
  {
  }

  /** obtainIV: a decrypted buffer shorter than an empty IPv4 frame plus an IV yields none;
      otherwise the IV is the buffer's last IV_LEN bytes. */
  function ObtainIv(buffer: Buffer): (r: Option<Iv>)
    ensures r.None? <==> |buffer| < IV_LEN + MIN_FRAME_LEN
    ensures r.Some? ==> buffer == buffer[..|buffer| - IV_LEN] + r.value
  {
    if |buffer| < IV_LEN + MIN_FRAME_LEN then None else Some(buffer[|buffer| - IV_LEN..])
  }

  /** The server's surgery on the first decrypted frame: drop the trailing IV and lower the
      length field by IV_LEN. The source does not check that the field is at least IV_LEN;
      a smaller field wraps around to a value near 2^16. */
  function FixUp(buffer: Buffer): (out: Buffer)
    requires |buffer| >= IV_LEN + 2
    ensures |out| == |buffer| - IV_LEN
    ensures out[2..] == buffer[2..|buffer| - IV_LEN]
    ensures ReadUInt16BE(buffer, 0) >= IV_LEN ==> ReadUInt16BE(out, 0) == ReadUInt16BE(buffer, 0) - IV_LEN
    ensures ReadUInt16BE(buffer, 0) < IV_LEN ==> ReadUInt16BE(out, 0) == (ReadUInt16BE(buffer, 0) - IV_LEN) % U16_LIMIT
    ensures ReadUInt16BE(buffer, 0) < IV_LEN <= U16_LIMIT ==>
      ReadUInt16BE(out, 0) == ReadUInt16BE(buffer, 0) - IV_LEN + U16_LIMIT
  {
    var buf := buffer[..|buffer| - IV_LEN];
    UInt16BE(ReadUInt16BE(buf, 0) - IV_LEN) + buf[2..]
  }

  /** onSocksHandshake: answer an identifier with Select; answer CONNECT or UDP ASSOCIATE
      with success, locking in the target and the matching ready flag; answer any other
      command with "command not supported"; ignore an unrecognised buffer. */
  function OnSocksHandshake(c: Connection, msg: Message): (r: Outcome)
    requires !c.Ready()
    ensures forall e | e in r.effects :: e.SocketWrite?
    ensures |r.effects| == (if msg.Unrecognised? then 0 else 1)
    ensures msg.Identify? ==> r.effects == [SocketWrite(Select)]
    ensures r.next.socksTcpReady <==> msg.CommandRequest? && msg.request.cmd == REQUEST_COMMAND_CONNECT
    ensures r.next.socksUdpReady <==> msg.CommandRequest? && msg.request.cmd == REQUEST_COMMAND_UDP
    ensures msg.CommandRequest? ==>
      r.effects == [SocketWrite(Reply(if r.next.Ready() then REPLY_SUCCEEDED else REPLY_COMMAND_NOT_SUPPORTED))]
    ensures r.next.Ready() ==> msg.CommandRequest? && r.next.target == Some(msg.request.addr)
    ensures !r.next.Ready() ==> r.next == c
    ensures r.next.(socksTcpReady := false, socksUdpReady := false, target := c.target) == c
  {
    match msg
    case Identify => Outcome(c, [SocketWrite(Select)])
    case CommandRequest(req) =>
      if req.cmd == REQUEST_COMMAND_UDP || req.cmd == REQUEST_COMMAND_CONNECT then
        var locked := c.(target := Some(req.addr));
        var next := if req.cmd == REQUEST_COMMAND_CONNECT then locked.(socksTcpReady := true)
                    else locked.(socksUdpReady := true);
        Outcome(next, [SocketWrite(Reply(REPLY_SUCCEEDED))])
      else
        Outcome(c, [SocketWrite(Reply(REPLY_COMMAND_NOT_SUPPORTED))])
    case Unrecognised => Outcome(c, [])
  }

  /** The client's send path once the handshake is done. Without an IV (and with IV mode
      on) the payload goes out with a fresh IV appended, under the pre-rotation cipher;
      then both ciphers are rebuilt on that IV; then the relay is told the IV. Afterwards
      a payload goes out framed as is, under the current cipher. */
  function SendPayload(cfg: Config, c: Connection, payload: Buffer, newIv: Iv): (r: Outcome)
    requires Valid(cfg, c) && !cfg.isServer && c.Ready()
    ensures |r.effects| >= 1 && r.effects[0].CipherWrite? && r.effects[0].key == c.iv
    ensures forall e | e in r.effects[1..] :: !e.CipherWrite?
    ensures c.iv.None? && cfg.useIv ==>
      && r.effects[0].plaintext == Pack(c.target.value, payload + newIv)
      && r.effects[1..] == [RebindCiphers(newIv), RelaySetIv(if c.socksTcpReady then Tcp else Udp, newIv)]
      && r.next.iv == Some(newIv)
    ensures !(c.iv.None? && cfg.useIv) ==>
      && r.effects == [CipherWrite(c.iv, Pack(c.target.value, payload))]
      && r.next == c
    ensures r.next.(iv := c.iv, cipherIv := c.iv, tcpRelay := c.tcpRelay, udpRelay := c.udpRelay) == c
  {
    if c.iv.None? && cfg.useIv then
      var frame := Pack(c.target.value, payload + newIv);
      var rotated := c.(iv := Some(newIv), cipherIv := Some(newIv));
      var choice := GetRelay(cfg, rotated);
      var notify := match choice.relay
        case Some(kind) => [RelaySetIv(kind, newIv)]
        case None => [NullRelay];
      Outcome(choice.next, [CipherWrite(c.cipherIv, frame), RebindCiphers(newIv)] + notify)
    else
      Outcome(c, [CipherWrite(c.cipherIv, Pack(c.target.value, payload))])
  }

  /** onReceiving: the server feeds every transport buffer to the decipher; the client runs
      the handshake until a ready flag is set, then (in UDP mode, after unwrapping the UDP
      request header, dropping what does not parse) sends the payload. */
  function OnReceiving(cfg: Config, p: Parsers, c: Connection, buffer: Buffer, newIv: Iv): (r: Outcome)
    requires Valid(cfg, c)
    ensures cfg.isServer ==> r == Outcome(c, [DecipherWrite(c.iv, buffer)])
    ensures !cfg.isServer && !c.Ready() ==>
      (forall e | e in r.effects :: e.SocketWrite?) && r == OnSocksHandshake(c, ParseHandshake(p, buffer))
    ensures !cfg.isServer && c.socksUdpReady && p.udpRequest(buffer).None? ==> r == Outcome(c, [])
    ensures !cfg.isServer && c.socksUdpReady && p.udpRequest(buffer).Some? ==>
      r == SendPayload(cfg, c, p.udpRequest(buffer).value.data, newIv)
    ensures !cfg.isServer && c.socksTcpReady ==> r == SendPayload(cfg, c, buffer, newIv)
  {
    if cfg.isServer then
      Outcome(c, [DecipherWrite(c.cipherIv, buffer)])
    else if !c.socksTcpReady && !c.socksUdpReady then
      OnSocksHandshake(c, ParseHandshake(p, buffer))
    else if c.socksUdpReady then
      match p.udpRequest(buffer)
      case Some(req) => SendPayload(cfg, c, req.data, newIv)
      case None => Outcome(c, [])
    else
      SendPayload(cfg, c, buffer, newIv)
  }

  /** onReceived, the collector both ciphers write to. On the server: take the IV from the
      first decrypted buffer (destroying the socket if it is too short), forward the
      fixed-up frame, then rebuild the ciphers; forward every later buffer unchanged. On
      the client: hand the encrypted buffer to the relay towards the server. */
  function OnReceived(cfg: Config, c: Connection, buffer: Buffer): (r: Outcome)
    requires Valid(cfg, c)
    ensures cfg.isServer && cfg.useIv && c.iv.None? && |buffer| < IV_LEN + MIN_FRAME_LEN ==>
      r.effects == [SocketEnd, SocketDestroy] && r.next == c.(tcpRelay := true)
    ensures cfg.isServer && cfg.useIv && c.iv.None? && |buffer| >= IV_LEN + MIN_FRAME_LEN ==>
      && r.next.iv.Some?
      && buffer == buffer[..|buffer| - IV_LEN] + r.next.iv.value
      && r.effects == [RelaySetIv(Tcp, r.next.iv.value), ForwardToDst(Tcp, FixUp(buffer)), RebindCiphers(r.next.iv.value)]
      && r.next == c.(tcpRelay := true, iv := r.next.iv, cipherIv := r.next.iv)
    ensures cfg.isServer && !(cfg.useIv && c.iv.None?) ==>
      r == Outcome(c.(tcpRelay := true), [ForwardToDst(Tcp, buffer)])
    ensures !cfg.isServer && c.Ready() ==>
      r.effects == [ForwardToServer(if c.socksTcpReady then Tcp else Udp, buffer)] && r.next.iv == c.iv
    ensures !cfg.isServer && !c.Ready() ==> r == Outcome(c, [NullRelay])
  {
    var choice := GetRelay(cfg, c);
    var c1 := choice.next;
    if cfg.isServer then
      var relay := choice.relay.value;
      if c1.iv.None? && cfg.useIv then
        match ObtainIv(buffer)
        case None => Outcome(c1, [SocketEnd, SocketDestroy])
        case Some(iv) =>
          var c2 := c1.(iv := Some(iv), cipherIv := Some(iv));
          Outcome(c2, [RelaySetIv(relay, iv), ForwardToDst(relay, FixUp(buffer)), RebindCiphers(iv)])
      else
        Outcome(c1, [ForwardToDst(relay, buffer)])
    else
      match choice.relay
      case Some(relay) => Outcome(c1, [ForwardToServer(relay, buffer)])
      case None => Outcome(c1, [NullRelay])
  }

  /** onClose: close the TCP relay if there is one; nothing else is touched. */
  function OnClose(c: Connection): (r: Outcome)
    ensures r.next == c
    ensures forall e | e in r.effects :: e == RelayClose(Tcp)
    ensures RelayClose(Tcp) in r.effects <==> c.tcpRelay
    ensures |r.effects| <= 1
  {
    if c.tcpRelay then Outcome(c, [RelayClose(Tcp)]) else Outcome(c, [])
  }

  /** The number of cipher rebuilds in a list of effects. */
  function Rebinds(effects: seq<Effect>): nat {
    if |effects| == 0 then 0
    else (if effects[0].RebindCiphers? then 1 else 0) + Rebinds(effects[1..])
  }

  lemma {:induction false} RebindsAppend(a: seq<Effect>, b: seq<Effect>)
    ensures Rebinds(a + b) == Rebinds(a) + Rebinds(b)
    decreases |a|
  {
    if |a| > 0 {
      assert (a + b)[0] == a[0];
      assert (a + b)[1..] == a[1..] + b;
      RebindsAppend(a[1..], b);
    } else {
      assert a + b == b;
    }
  }

  /** One event. The invariant is kept, a set IV is never reassigned, the handshake result
      is never renegotiated, and the ciphers are rebuilt exactly when the IV becomes set. */
  function Step(cfg: Config, p: Parsers, c: Connection, input: Input): (r: Outcome)
    requires Valid(cfg, c)
    ensures Valid(cfg, r.next)
    ensures c.iv.Some? ==> r.next.iv == c.iv
    ensures c.Ready() ==>
      r.next.target == c.target && r.next.socksTcpReady == c.socksTcpReady && r.next.socksUdpReady == c.socksUdpReady
    ensures Rebinds(r.effects) == (if c.iv.None? && r.next.iv.Some? then 1 else 0)
    ensures forall e | e in r.effects && e.RebindCiphers? :: r.next.iv == Some(e.iv)
  {
    match input.event
    case Data(b) => OnReceiving(cfg, p, c, b, input.freshIv)
    case Received(b) => OnReceived(cfg, c, b)
    case Close(_) => OnClose(c)
  }

  /** A sequence of events, applied in order; the effects are concatenated. */
  function Run(cfg: Config, p: Parsers, c: Connection, inputs: seq<Input>): (r: Outcome)
    requires Valid(cfg, c)
    ensures Valid(cfg, r.next)
    ensures c.iv.Some? ==> r.next.iv == c.iv
    ensures c.Ready() ==>
      r.next.target == c.target && r.next.socksTcpReady == c.socksTcpReady && r.next.socksUdpReady == c.socksUdpReady
    decreases |inputs|
  {
    if |inputs| == 0 then Outcome(c, [])
    else
      var first := Step(cfg, p, c, inputs[0]);
      var rest := Run(cfg, p, first.next, inputs[1..]);
      Outcome(rest.next, first.effects + rest.effects)
  }

  /** Over any sequence of events the ciphers are rebuilt at most once: exactly once if the
      IV went from unset to set, never if it was already set. */
  lemma {:induction false} RunRebindsOnce(cfg: Config, p: Parsers, c: Connection, inputs: seq<Input>)
    requires Valid(cfg, c)
    ensures var r := Run(cfg, p, c, inputs);
      Rebinds(r.effects) == (if c.iv.None? && r.next.iv.Some? then 1 else 0)
    decreases |inputs|
  {
    if |inputs| > 0 {
      var first := Step(cfg, p, c, inputs[0]);
      var rest := Run(cfg, p, first.next, inputs[1..]);
      RunRebindsOnce(cfg, p, first.next, inputs[1..]);
      RebindsAppend(first.effects, rest.effects);
    }
  }
}
