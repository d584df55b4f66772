/** The BOLT-8 connection object: lazy handshake, key split, and the Write and Read calls. */
module Bolt8Conn {
  import opened Bytes
  import opened Bolt8Primitives
  import opened Bolt8Handshake
  import opened Bolt8Ratchet
  import opened ByteStream
  import Wire

  /** The sending and receiving state after the split; the two roles take the keys crosswise. */
  function Split(p: Primitives, isInitiator: bool, ck: Key): (Ratchet, Ratchet) {
    var (a, b) := p.hkdf(ck, []);
    if isInitiator then (Ratchet(a, ck, 0), Ratchet(b, ck, 0)) else (Ratchet(b, ck, 0), Ratchet(a, ck, 0))
  }

  class Conn {
    const p: Primitives
    const wire: Wire.Conn
    const isInitiator: bool
    const localStatic: Scalar
    // The key the random source yields when this side generates its ephemeral.
    const ephemeral: Scalar

    var remoteStatic: Option<Point>
    var handshakeDone: bool
    var sk: Key
    var rk: Key
    var sck: Key
    var rck: Key
    var sn: nat
    var rn: nat
    var handshakeHash: Key
    var readBuf: bytes

    // What was to arrive when the handshake that completed was begun.
    ghost var heard: bytes

    constructor Client(p: Primitives, wire: Wire.Conn, localStatic: Scalar, remoteStatic: Option<Point>, ephemeral: Scalar)
      ensures this.p == p && this.wire == wire && isInitiator && !handshakeDone
      ensures this.localStatic == localStatic && this.ephemeral == ephemeral && this.remoteStatic == remoteStatic
      ensures sn == rn == 0 && readBuf == []
    {
      this.p, this.wire, isInitiator := p, wire, true;
      this.localStatic, this.ephemeral, this.remoteStatic := localStatic, ephemeral, remoteStatic;
      handshakeDone, readBuf, sn, rn, heard := false, [], 0, 0, [];
      sk, rk, sck, rck, handshakeHash := ZERO_KEY, ZERO_KEY, ZERO_KEY, ZERO_KEY, ZERO_KEY;
    }

    constructor Server(p: Primitives, wire: Wire.Conn, localStatic: Scalar, ephemeral: Scalar)
      ensures this.p == p && this.wire == wire && !isInitiator && !handshakeDone
      ensures this.localStatic == localStatic && this.ephemeral == ephemeral && this.remoteStatic == None
      ensures sn == rn == 0 && readBuf == []
    {
      this.p, this.wire, isInitiator := p, wire, false;
      this.localStatic, this.ephemeral, this.remoteStatic := localStatic, ephemeral, None;
      handshakeDone, readBuf, sn, rn, heard := false, [], 0, 0, [];
      sk, rk, sck, rck, handshakeHash := ZERO_KEY, ZERO_KEY, ZERO_KEY, ZERO_KEY, ZERO_KEY;
    }

    /**
     * Before the handshake nothing has been sent or read; a handshake that is done was one on what this side
     * heard, and has left its hash and the other side's key.
     */
    ghost predicate Valid()
      reads this, wire
    {
      && wire.Valid()
      && (!handshakeDone ==> sn == 0 && rn == 0 && readBuf == [])
      && (handshakeDone ==>
            var outcome := ShakeOn(heard).outcome;
            outcome.Done? && handshakeHash == outcome.hash && remoteStatic == Some(outcome.remoteStatic))
    }

    /** The handshake this side runs on what arrives; a client without a remote key runs none. */
    ghost function ShakeOn(inbox: bytes): Run
      reads this
    {
      if isInitiator then
        if remoteStatic.None? then Run([], inbox, Failed)
        else Initiate(p, localStatic, remoteStatic.value, ephemeral, inbox)
      else Respond(p, localStatic, ephemeral, inbox)
    }

    // The connection as its next Write or Read finds it, once the handshake is over. On a connection that is
    // closed before its handshake nothing is written and nothing arrives.

    ghost predicate Ready()
      reads this, wire
    {
      handshakeDone || (wire.open && ShakeOn(wire.inbox).outcome.Done?)
    }

    ghost function Greeting(): bytes
      reads this, wire
    {
      if handshakeDone || !wire.open then [] else ShakeOn(wire.inbox).sent
    }

    ghost function Incoming(): bytes
      reads this, wire
    {
      if handshakeDone || !wire.open then wire.inbox else ShakeOn(wire.inbox).rest
    }

    ghost function Tx(): Ratchet
      reads this, wire
      requires Ready()
    {
      if handshakeDone then Ratchet(sk, sck, sn) else Split(p, isInitiator, ShakeOn(wire.inbox).outcome.ck).0
    }

    ghost function Rx(): Ratchet
      reads this, wire
      requires Ready()
    {
      if handshakeDone then Ratchet(rk, rck, rn) else Split(p, isInitiator, ShakeOn(wire.inbox).outcome.ck).1
    }

    /** The keys of the two directions from the last chaining key. */
    method SplitKeys(ck: Key)
      modifies this`sk, this`rk, this`sck, this`rck
      ensures (Ratchet(sk, sck, 0), Ratchet(rk, rck, 0)) == Split(p, isInitiator, ck)
    {
      var (a, b) := p.hkdf(ck, []);
      if isInitiator {
        sk, rk := a, b;
      } else {
        rk, sk := a, b;
      }
      sck, rck := ck, ck;
    }

    method Handshake() returns (ok: bool)
      requires Valid()
      modifies this, wire
      ensures Valid() && wire.open == old(wire.open) && ok == handshakeDone == old(Ready())
      ensures wire.outbox == old(wire.outbox) + old(Greeting()) && wire.inbox == old(Incoming())
      ensures ok ==> Tx() == old(Tx()) && Rx() == old(Rx())
      ensures readBuf == old(readBuf)
      ensures heard == if ok && !old(handshakeDone) then old(wire.inbox) else old(heard)
      ensures !ok ==> remoteStatic == old(remoteStatic)
    {
      hide Initiate, Respond, Split;
      if handshakeDone {
        return true;
      }
      ghost var inbox := wire.inbox;
      var outcome;
      if isInitiator {
        if remoteStatic.None? {
          return false;
        }
        outcome := RunInitiator(p, wire, localStatic, remoteStatic.value, ephemeral);
      } else {
        outcome := RunResponder(p, wire, localStatic, ephemeral);
        if outcome.Done? {
          remoteStatic := Some(outcome.remoteStatic);
        }
      }
      if outcome.Failed? {
        handshakeHash := ZERO_KEY;
        return false;
      }
      handshakeHash := outcome.hash;
      SplitKeys(outcome.ck);
      handshakeDone, heard := true, inbox;
      ok := true;
    }

    /** The hash of the handshake this side ran on what it heard; zero until then. */
    method Fingerprint() returns (h: Key)
      requires Valid()
      ensures h == if handshakeDone then ShakeOn(heard).outcome.hash else ZERO_KEY
    {
      h := if handshakeDone then handshakeHash else ZERO_KEY;
    }

    method MaybeRekeySend()
      modifies this`sk, this`sck, this`sn
      ensures Ratchet(sk, sck, sn) == Rekey(p, old(Ratchet(sk, sck, sn)))
    {
      if sn < REKEY_INTERVAL {
        return;
      }
      var (chain, key) := p.hkdf(sck, sk);
      sck, sk, sn := chain, key, 0;
    }

    method MaybeRekeyRecv()
      modifies this`rk, this`rck, this`rn
      ensures Ratchet(rk, rck, rn) == Rekey(p, old(Ratchet(rk, rck, rn)))
    {
      if rn < REKEY_INTERVAL {
        return;
      }
      var (chain, key) := p.hkdf(rck, rk);
      rck, rk, rn := chain, key, 0;
    }

    /** On a closed connection both nonces are spent all the same, and no rotation happens. */
    method WriteMessage(m: bytes) returns (ok: bool)
      modifies this`sk, this`sck, this`sn, wire`outbox
      ensures ok == wire.open
      ensures ok ==> wire.outbox == old(wire.outbox) + SealMessage(p, old(Ratchet(sk, sck, sn)), m)
      ensures ok ==> Ratchet(sk, sck, sn) == Advance(p, old(Ratchet(sk, sck, sn)))
      ensures !ok ==> wire.outbox == old(wire.outbox) && Ratchet(sk, sck, sn) == old(Ratchet(sk, sck, sn + 2))
    {
      var lc := p.seal(sk, sn, [], Uint16(|m|));
      sn := sn + 1;
      var pc := p.seal(sk, sn, [], m);
      sn := sn + 1;
      ok := wire.Write(lc + pc);
      if ok {
        MaybeRekeySend();
      }
    }

    /** The loop of Write: one message for every 65535 bytes, the last one shorter. */
    method WriteMessages(data: bytes) returns (n: nat, ok: bool)
      modifies this`sk, this`sck, this`sn, wire`outbox
      ensures wire.open ==>
                var s := Send(MessageCodec(p), old(Ratchet(sk, sck, sn)), data);
                ok && n == |data| && wire.outbox == old(wire.outbox) + s.wire && Ratchet(sk, sck, sn) == s.state
      ensures !wire.open ==>
                && n == 0 && (ok <==> data == []) && wire.outbox == old(wire.outbox)
                && Ratchet(sk, sck, sn) == Spent(old(Ratchet(sk, sck, sn)), data)
    {
      hide Send, SendingOnCourse, Advance, SealMessage;
      ghost var c, start, sent := MessageCodec(p), Ratchet(sk, sck, sn), [];
      SendingStarts(c, start, data);
      var rest := data;
      n := 0;
      while |rest| > 0
        invariant n <= |data| && rest == data[n..]
        invariant wire.outbox == old(wire.outbox) + sent
        invariant SendingOnCourse(c, start, data, n, Ratchet(sk, sck, sn), sent)
        invariant !wire.open ==> n == 0 && Ratchet(sk, sck, sn) == start && sent == []
        decreases |rest|
      {
        var m := if |rest| > MAX_MESSAGE_LEN then MAX_MESSAGE_LEN else |rest|;
        SendingContinues(c, start, data, n, Ratchet(sk, sck, sn), sent, m);
        ghost var sealed := SealMessage(p, Ratchet(sk, sck, sn), rest[..m]);
        assert rest[..m] == data[n..n + m];
        ok := WriteMessage(rest[..m]);
        if !ok {
          return;
        }
        sent := sent + sealed;
        n := n + m;
        rest := rest[m..];
      }
      SendingEnds(c, start, data, Ratchet(sk, sck, sn), sent);
      ok := true;
    }

    /** After the handshake, one `Send` of the stream model; a closed connection costs two nonces and writes nothing. */
    method Write(data: bytes) returns (n: nat, ok: bool)
      requires Valid()
      modifies this, wire
      ensures Valid() && wire.open == old(wire.open) && readBuf == old(readBuf) && wire.inbox == old(Incoming())
      ensures handshakeDone == old(Ready())
      ensures !old(Ready()) ==> n == 0 && !ok && wire.outbox == old(wire.outbox) + old(Greeting())
      ensures old(Ready()) && wire.open ==>
                var s := Send(MessageCodec(p), old(Tx()), data);
                && ok && n == |data|
                && wire.outbox == old(wire.outbox) + old(Greeting()) + s.wire
                && Tx() == s.state && Rx() == old(Rx())
      ensures old(Ready()) && !wire.open ==>
                && n == 0 && (ok <==> data == []) && wire.outbox == old(wire.outbox)
                && Tx() == Spent(old(Tx()), data) && Rx() == old(Rx())
    {
      hide Initiate, Respond, Send, Split;
      var shaken := Handshake();
      if !shaken {
        return 0, false;
      }
      n, ok := WriteMessages(data);
    }

    /** The part of Read that takes one message off the wire. */
    method ReadMessage() returns (plaintext: Option<bytes>)
      requires wire.Valid()
      modifies this`rk, this`rck, this`rn, wire
      ensures wire.outbox == old(wire.outbox) && wire.Valid()
      ensures match OpenMessage(p, old(Ratchet(rk, rck, rn)), old(wire.inbox))
              case Some((next, m, rest)) =>
                plaintext == Some(m) && Ratchet(rk, rck, rn) == next && wire.inbox == rest && wire.open == old(wire.open)
              case None =>
                && plaintext == None && wire.inbox == []
                && rk == old(rk) && rck == old(rck) && old(rn) <= rn <= old(rn) + 1
    {
      var lc, got := wire.ReadFull(LENGTH_SIZE);
      if !got {
        return None;
      }
      var length := Decrypt(p, rk, rn, [], lc);
      if length.None? {
        wire.Close();
        return None;
      }
      rn := rn + 1;
      var body, gotBody := wire.ReadFull(FromUint16(length.value) + MAC_SIZE);
      if !gotBody {
        return None;
      }
      plaintext := Decrypt(p, rk, rn, [], body);
      if plaintext.None? {
        wire.Close();
        return;
      }
      rn := rn + 1;
      MaybeRekeyRecv();
    }

    /**
     * After the handshake, one `Receive` of the stream model into `buf`. A failed Read delivers
     * nothing, spends at most one nonce, and leaves a connection from which nothing more is read.
     */
    method Read(buf: array<byte>) returns (n: nat, ok: bool)
      requires Valid()
      modifies this, wire, buf
      ensures Valid() && n <= buf.Length && buf[n..] == old(buf[n..])
      ensures wire.outbox == old(wire.outbox) + old(Greeting()) && handshakeDone == old(Ready())
      ensures !old(Ready()) ==> n == 0 && !ok
      ensures old(Ready()) ==>
                var r := Receive(MessageCodec(p), old(Rx()), old(readBuf), old(Incoming()), buf.Length);
                && ok == r.ok && buf[..n] == r.data
                && (ok ==> wire.open == old(wire.open) && Ratchet(rk, rck, rn) == r.state && readBuf == r.buffer && wire.inbox == r.wire)
                && (!ok ==> readBuf == [] && wire.inbox == []
                            && (Ratchet(rk, rck, rn) == r.state || Ratchet(rk, rck, rn) == r.state.(nonce := r.state.nonce + 1)))
                && Ratchet(sk, sck, sn) == old(Tx())
    {
      hide Initiate, Respond, Receive, Split;
      var shaken := Handshake();
      if !shaken {
        return 0, false;
      }
      n, ok := ReadPlain(buf);
    }

    /** Read, once the handshake is over. */
    method ReadPlain(buf: array<byte>) returns (n: nat, ok: bool)
      requires wire.Valid()
      modifies this`rk, this`rck, this`rn, this`readBuf, wire, buf
      ensures n <= buf.Length && buf[n..] == old(buf[n..]) && wire.Valid() && wire.outbox == old(wire.outbox)
      ensures var r := Receive(MessageCodec(p), old(Ratchet(rk, rck, rn)), old(readBuf), old(wire.inbox), buf.Length);
              && ok == r.ok && buf[..n] == r.data
              && (ok ==> wire.open == old(wire.open) && Ratchet(rk, rck, rn) == r.state && readBuf == r.buffer && wire.inbox == r.wire)
              && (!ok ==> readBuf == [] && wire.inbox == []
                          && (Ratchet(rk, rck, rn) == r.state || Ratchet(rk, rck, rn) == r.state.(nonce := r.state.nonce + 1)))
    {
      hide OpenMessage;
      if buf.Length == 0 {
        return 0, true;
      }
      if |readBuf| > 0 {
        n := CopyInto(buf, 0, readBuf);
        readBuf := readBuf[n..];
        return n, true;
      }
      var plaintext := ReadMessage();
      if plaintext.None? {
        return 0, false;
      }
      n := CopyInto(buf, 0, plaintext.value);
      if n < |plaintext.value| {
        readBuf := readBuf + plaintext.value[n..];
      }
      ok := true;
    }
  }

  /** The sending state after a write that the closed connection refused: both nonces of one message are spent. */
  function Spent(r: Ratchet, data: bytes): Ratchet {
    if data == [] then r else r.(nonce := r.nonce + 2)
  }

  // ---- What two users learn by comparing fingerprints ----

  /**
   * Channel binding of two connections, whatever the network did to either: with equal fingerprints the
   * client talked to the server's own key, and the server knows the client's.
   */
  lemma FingerprintsBind(client: Conn, server: Conn)
    requires Lawful(client.p) && client.p == server.p
    requires client.Valid() && server.Valid() && client.handshakeDone && server.handshakeDone
    requires client.isInitiator && !server.isInitiator && client.remoteStatic.Some?
    requires client.ShakeOn(client.heard).outcome.hash == server.ShakeOn(server.heard).outcome.hash
    requires |client.heard| >= ACT_SIZE && |server.heard| >= ACT_SIZE + ACT_THREE_SIZE && server.remoteStatic.Some?
    requires NoCollision(client.p, InitiatorView(client.p, client.localStatic, client.remoteStatic.value, client.ephemeral, client.heard),
                         ResponderView(server.p, server.localStatic, server.ephemeral, server.heard, server.remoteStatic.value))
    ensures client.remoteStatic == Some(server.p.publicKey(server.localStatic))
    ensures server.remoteStatic == Some(client.p.publicKey(client.localStatic))
    ensures client.ShakeOn(client.heard).outcome.ck == server.ShakeOn(server.heard).outcome.ck
  {
    hide Initiate, Respond;
    ChannelBinding(client.p, client.localStatic, client.remoteStatic.value, client.ephemeral, client.heard,
                   server.localStatic, server.ephemeral, server.heard);
  }

  // ---- From handshake to stream ----

  /** The initiator sends under the first key of the split and the responder under the second, so each side's sending state is the other's receiving state. */
  lemma SplitCrosses(p: Primitives, ck: Key)
    ensures Split(p, true, ck).0 == Split(p, false, ck).1
    ensures Split(p, true, ck).1 == Split(p, false, ck).0
    ensures Split(p, true, ck).0 == Ratchet(p.hkdf(ck, []).0, ck, 0) && Split(p, true, ck).1 == Ratchet(p.hkdf(ck, []).1, ck, 0)
  {
  }

  /**
   * The whole connection: two honest parties over a faithful channel hold crossed states, and in
   * either direction any Writes and Reads conserve the stream.
   */
  lemma ConnectionIsAStream(p: Primitives, si: Scalar, sr: Scalar, ei: Scalar, er: Scalar,
                            toInitiator: bytes, toResponder: bytes, ops: seq<Op>, fromInitiator: bool)
    requires Lawful(p)
    requires toResponder == Initiate(p, si, p.publicKey(sr), ei, toInitiator).sent
    requires toInitiator == Respond(p, sr, er, toResponder).sent
    ensures var i := Initiate(p, si, p.publicKey(sr), ei, toInitiator).outcome;
            var r := Respond(p, sr, er, toResponder).outcome;
            && i.Done? && r.Done?
            && var tx := Split(p, fromInitiator, if fromInitiator then i.ck else r.ck).0;
               var rx := Split(p, !fromInitiator, if fromInitiator then r.ck else i.ck).1;
               Conserved(MessageCodec(p), ByteStream.Run(MessageCodec(p), Link(tx, rx, [], [], [], []), ops))
  {
    HandshakeAgreement(p, si, sr, ei, er, toInitiator, toResponder);
    var ck := Initiate(p, si, p.publicKey(sr), ei, toInitiator).outcome.ck;
    SplitCrosses(p, ck);
    MessageCodecIsFaithful(p);
    StreamConserved(MessageCodec(p), FreshLink(Split(p, fromInitiator, ck).0), ops);
  }
}
