/** The two ends of one tunnel connection together: what a client coordinator writes to
    its cipher is what the server coordinator's decipher hands back, so the client's
    IV-bearing first frame and the server's fix-up can be checked against each other. */
module Tunnel {
  import opened Wrappers
  import opened Buffers
  import opened Frames
  import opened Crypto
  import opened Socks5
  import opened Socket

  const Client: Config := Config(false, true)
  const Server: Config := Config(true, true)

  /** Lowering a 16-bit field by k after raising it by k gives the field back, wrap-around included. */
  lemma WrapShift(n: int, k: int)
    ensures ((n + k) % U16_LIMIT - k) % U16_LIMIT == n % U16_LIMIT
  {
  }

  /** The server's size guard on a bootstrap frame: `pack(a, p ++ iv)` yields an IV exactly
      when the address and payload fill at least the 7 bytes of an IPv4 address. */
  lemma BootstrapGuard(a: Address, payload: Buffer, iv: Iv)
    ensures ObtainIv(Pack(a, payload + iv)).Some? <==> |EncodeAddress(a)| + |payload| >= MIN_FRAME_LEN - 2
  {
  }

  /** A bootstrap frame splits into the frame header and body the client packed, then the IV. */
  lemma BootstrapFrameSplit(a: Address, payload: Buffer, iv: Iv)
    ensures var frame := Pack(a, payload + iv);
      && frame[..|frame| - IV_LEN] == UInt16BE(|EncodeAddress(a)| + |payload| + IV_LEN) + (EncodeAddress(a) + payload)
      && frame[|frame| - IV_LEN..] == iv
  {
    var frame := Pack(a, payload + iv);
    var head := UInt16BE(|EncodeAddress(a)| + |payload| + IV_LEN) + (EncodeAddress(a) + payload);
    assert frame == head + iv;
  }

  /** The server's fix-up inverts the client's bootstrap framing: from a frame packed with
      the IV appended it recovers the IV and exactly the frame packed without it. */
  lemma BootstrapFrameFixUp(a: Address, payload: Buffer, iv: Iv)
    requires |EncodeAddress(a)| + |payload| >= MIN_FRAME_LEN - 2
    ensures ObtainIv(Pack(a, payload + iv)) == Some(iv)
    ensures FixUp(Pack(a, payload + iv)) == Pack(a, payload)
  {
    var frame := Pack(a, payload + iv);
    var n := |EncodeAddress(a)| + |payload|;
    var rest := EncodeAddress(a) + payload;
    BootstrapFrameSplit(a, payload, iv);
    var body := frame[..|frame| - IV_LEN];
    assert body == UInt16BE(n + IV_LEN) + rest;
    assert body[2..] == rest;
    WrapShift(n, IV_LEN);
    assert ReadUInt16BE(body, 0) == (n + IV_LEN) % U16_LIMIT;
    assert UInt16BE(ReadUInt16BE(body, 0) - IV_LEN) == UInt16BE(n);
    assert FixUp(frame) == UInt16BE(n) + rest;
  }

  /** A bootstrap frame towards an IPv4 or IPv6 target always passes the server's guard. */
  lemma NumericTargetBootstrapAccepted(a: Address, payload: Buffer, iv: Iv)
    requires a.host.V4? || a.host.V6?
    ensures ObtainIv(Pack(a, payload + iv)) == Some(iv)
  {
    BootstrapFrameFixUp(a, payload, iv);
  }

  /** A one-letter domain with a one-byte first payload makes a bootstrap frame of
      8 + IV_LEN bytes, one byte short of the server's guard: the server destroys the
      connection. */
  lemma ShortDomainBootstrapRejected(name: byte, port: int, payload: Buffer, iv: Iv)
    requires 0 <= port < U16_LIMIT && |payload| <= 1
    ensures ObtainIv(Pack(RawAddress(DomainName([name]), port), payload + iv)).None?
  {
    BootstrapGuard(RawAddress(DomainName([name]), port), payload, iv);
  }

  /** The first payload of a CONNECT client travels as a frame carrying the new IV under the
      IV-less cipher, which the server decrypts with its IV-less decipher; the server
      forwards exactly the frame the client would have sent without the IV, and both ends
      then hold the same IV and have rebuilt their ciphers on it. */
  lemma TunnelBootstrap(p: Parsers, client: Connection, server: Connection,
                        payload: Buffer, ciphertext: Buffer, newIv: Iv, unusedIv: Iv)
    requires Valid(Client, client) && Valid(Server, server)
    requires client.socksTcpReady && client.iv.None? && server.iv.None?
    requires |EncodeAddress(client.target.value)| + |payload| >= MIN_FRAME_LEN - 2
    ensures var sent := Step(Client, p, client, Input(Data(payload), newIv));
      var frame := Pack(client.target.value, payload + newIv);
      var arrived := Step(Server, p, server, Input(Data(ciphertext), unusedIv));
      var decrypted := Step(Server, p, server, Input(Received(frame), unusedIv));
      && sent.effects == [CipherWrite(None, frame), RebindCiphers(newIv), RelaySetIv(Tcp, newIv)]
      && arrived.effects == [DecipherWrite(None, ciphertext)]
      && decrypted.effects
         == [RelaySetIv(Tcp, newIv), ForwardToDst(Tcp, Pack(client.target.value, payload)), RebindCiphers(newIv)]
      && sent.next.iv == decrypted.next.iv == sent.next.cipherIv == decrypted.next.cipherIv == Some(newIv)
  {
    BootstrapFrameFixUp(client.target.value, payload, newIv);
  }

  /** Once both ends hold the same IV, a client payload travels as an IV-free frame under the
      rebuilt cipher, the server decrypts it with the decipher on the same IV and forwards
      the frame byte for byte; neither end changes its IV. */
  lemma TunnelSteadyState(p: Parsers, client: Connection, server: Connection,
                          payload: Buffer, ciphertext: Buffer, iv: Iv, newIv: Iv)
    requires Valid(Client, client) && Valid(Server, server)
    requires client.socksTcpReady && client.iv == Some(iv) && server.iv == Some(iv)
    ensures var sent := Step(Client, p, client, Input(Data(payload), newIv));
      var frame := Pack(client.target.value, payload);
      var arrived := Step(Server, p, server, Input(Data(ciphertext), newIv));
      var decrypted := Step(Server, p, server, Input(Received(frame), newIv));
      && sent.effects == [CipherWrite(Some(iv), frame)]
      && arrived.effects == [DecipherWrite(Some(iv), ciphertext)]
      && decrypted.effects == [ForwardToDst(Tcp, frame)]
      && sent.next == client
      && decrypted.next.iv == Some(iv)
  {
  }

  /** A worked CONNECT to 93.184.216.34:80: the first payload "GET /" goes out in a frame
      whose length field counts the 7 address bytes, the 5 payload bytes and the 16 IV
      bytes; the server forwards it with the field lowered to 12; the next payload "more"
      goes out with a field of 11 and no IV. */
  lemma ExampleConnect(p: Parsers, newIv: Iv)
    requires IV_LEN == 16
    ensures var target: Address := RawAddress(V4([93, 184, 216, 34]), 80);
      var first: Buffer := [0x47, 0x45, 0x54, 0x20, 0x2f];
      var second: Buffer := [0x6d, 0x6f, 0x72, 0x65];
      var ready := Init().(socksTcpReady := true, target := Some(target));
      var sent := Step(Client, p, ready, Input(Data(first), newIv));
      var later := Step(Client, p, sent.next, Input(Data(second), newIv));
      var forwarded := Step(Server, p, Init(), Input(Received(sent.effects[0].plaintext), newIv));
      && ReadUInt16BE(sent.effects[0].plaintext, 0) == 28
      && ReadUInt16BE(forwarded.effects[1].buffer, 0) == 12
      && forwarded.effects[1].buffer[2..] == EncodeAddress(target) + first
      && later.effects == [CipherWrite(Some(newIv), Pack(target, second))]
      && ReadUInt16BE(later.effects[0].plaintext, 0) == 11
  {
    var target: Address := RawAddress(V4([93, 184, 216, 34]), 80);
    var first: Buffer := [0x47, 0x45, 0x54, 0x20, 0x2f];
    BootstrapFrameFixUp(target, first, newIv);
  }
}
