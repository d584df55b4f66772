/** The WhatsApp transport connection: counter nonces, and a responder handshake on first use. */
module WhatsAppConn {
  import opened Bytes
  import opened ByteStream
  import opened WhatsAppFraming
  import opened WhatsAppNoise
  import Handshake = WhatsAppHandshake

  /** One direction: its key and the uint32 counter of its next frame. */
  datatype Cipher = Cipher(key: Key, counter: nat)

  const MAX_PLAIN: nat := MAX_FRAME_LEN - TAG_SIZE

  function Next(c: Cipher): Cipher {
    c.(counter := (c.counter + 1) % TWO_32)
  }

  function SealFrame(p: Primitives, c: Cipher, m: bytes): bytes {
    Frame(false, p.seal(c.key, c.counter, [], m))
  }

  function OpenFrame(p: Primitives, c: Cipher, wire: bytes): Option<(Cipher, bytes, bytes)> {
    match Unframe(false, wire)
    case None => None
    case Some((ciphertext, rest)) =>
      match p.open(c.key, c.counter, [], ciphertext)
      case None => None
      case Some(m) => Some((Next(c), m, rest))
  }

  function FrameCodec(p: Primitives): Codec<Cipher> {
    Codec(MAX_PLAIN,
          (c: Cipher, m: bytes) => Some((Next(c), SealFrame(p, c, m))),
          (c: Cipher, wire: bytes) => OpenFrame(p, c, wire))
  }

  lemma OpenInvertsSeal(p: Primitives, c: Cipher, m: bytes)
    requires Lawful(p) && |m| <= MAX_PLAIN
    ensures OpenFrame(p, c, SealFrame(p, c, m)) == Some((Next(c), m, []))
  {
    assert SealLaw(p, c.key, c.counter, [], m);
    var frame := SealFrame(p, c, m);
    UnframeInvertsFrame(false, p.seal(c.key, c.counter, [], m), []);
    assert frame + [] == frame;
  }

  /** WhatsApp transport frames carry the byte stream of module ByteStream, even as the counter wraps. */
  lemma FrameCodecIsFaithful(p: Primitives)
    requires Lawful(p)
    ensures Faithful(FrameCodec(p)) && FrameCodec(p).maxBody == 16777199
  {
    var c := FrameCodec(p);
    forall s: Cipher, m: bytes | 0 < |m| <= c.maxBody ensures Inverts(c, s, m) {
      OpenInvertsSeal(p, s, m);
    }
    forall s: Cipher, wire: bytes, more: bytes ensures Stable(c, s, wire, more) {
      if OpenFrame(p, s, wire).Some? {
        UnframeIsStable(false, wire, more);
      }
    }
  }

  // ---- Counters ----

  /** The cipher after `i` frames. */
  function After(c: Cipher, i: nat): Cipher {
    if i == 0 then c else Next(After(c, i - 1))
  }

  lemma {:induction false} CounterAfter(key: Key, i: nat)
    ensures After(Cipher(key, 0), i) == Cipher(key, i % TWO_32)
  {
    if i > 0 {
      CounterAfter(key, i - 1);
      var q, r := (i - 1) / TWO_32, (i - 1) % TWO_32;
      assert i == q * TWO_32 + (r + 1);
      if r + 1 == TWO_32 {
        assert i == (q + 1) * TWO_32;
      }
    }
  }

  /** Frame i goes out under the key of its direction and the nonce i modulo 2^32. */
  lemma FrameUsesItsNonce(p: Primitives, key: Key, i: nat, m: bytes)
    requires Lawful(p)
    ensures SealFrame(p, After(Cipher(key, 0), i), m) == Uint24(|m| + 16) + p.seal(key, i % 0x1_0000_0000, [], m)
  {
    CounterAfter(key, i);
    assert SealLaw(p, key, i % TWO_32, [], m);
    var c := p.seal(key, i % TWO_32, [], m);
    assert [] + Uint24(|c|) + c == Uint24(|c|) + c;
  }

  /** A framed ciphertext is taken exactly when it opens under the next nonce, and then spends it. */
  lemma FrameOpensIff(p: Primitives, c: Cipher, ciphertext: bytes, rest: bytes)
    requires |ciphertext| <= MAX_FRAME_LEN
    ensures OpenFrame(p, c, Uint24(|ciphertext|) + ciphertext + rest)
            == match p.open(c.key, c.counter, [], ciphertext)
               case None => None
               case Some(m) => Some((Cipher(c.key, (c.counter + 1) % 0x1_0000_0000), m, rest))
  {
    hide Unframe;
    UnframeIff(Uint24(|ciphertext|) + ciphertext + rest, ciphertext, rest);
  }

  /**
   * The first n frames of a direction use pairwise different nonces exactly when n is at most 2^32:
   * nothing checks the counter, and frame 2^32 goes out under the nonce of frame 0.
   */
  lemma NoncesDistinctIff(key: Key, n: nat)
    ensures (forall i, j | 0 <= i < j < n :: After(Cipher(key, 0), i).counter != After(Cipher(key, 0), j).counter)
            <==> n <= TWO_32
  {
    if n <= TWO_32 {
      forall i, j | 0 <= i < j < n ensures After(Cipher(key, 0), i).counter != After(Cipher(key, 0), j).counter {
        CounterAfter(key, i);
        CounterAfter(key, j);
      }
    } else {
      CounterAfter(key, 0);
      CounterAfter(key, TWO_32);
      assert After(Cipher(key, 0), 0).counter == After(Cipher(key, 0), TWO_32).counter;
    }
  }

  /** What a Read that delivers nothing leaves to read: nothing after a cut, else what follows the refused frame. */
  function AfterRefusal(wire: bytes): bytes {
    match Unframe(false, wire)
    case None => []
    case Some((_, rest)) => rest
  }

  // ---- The connection ----

  class Conn {
    const p: Primitives
    const framed: FramedConn
    // The responder's static key and the ephemeral key its random source yields; unused by a client.
    const own: Handshake.KeyPair
    const eph: Handshake.KeyPair

    // `pending` until the deferred handshake has run; `hsErr` once it has failed.
    var pending: bool
    var hsErr: bool
    var writeKey: Key
    var readKey: Key
    var peerStatic: Option<Key>
    var writeCounter: nat
    var readCounter: nat
    var readBuf: bytes

    constructor Client(p: Primitives, framed: FramedConn, own: Handshake.KeyPair, hs: Handshake.Outcome)
      requires hs.Done? && !framed.readHeader && !framed.writeHeader && framed.rw.Valid()
      ensures Valid() && Ready() && this.p == p && this.framed == framed
      ensures Tx() == Cipher(hs.writeKey, 0) && Rx() == Cipher(hs.readKey, 0) && readBuf == []
      ensures peerStatic == Some(hs.peerStatic)
    {
      this.p, this.framed, this.own, eph := p, framed, own, own;
      pending, hsErr := false, false;
      writeKey, readKey, peerStatic := hs.writeKey, hs.readKey, Some(hs.peerStatic);
      writeCounter, readCounter, readBuf := 0, 0, [];
    }

    constructor DeferredServer(p: Primitives, framed: FramedConn, own: Handshake.KeyPair, eph: Handshake.KeyPair)
      requires framed.readHeader && !framed.writeHeader && framed.rw.Valid()
      ensures Valid() && pending && this.p == p && this.framed == framed && this.own == own && this.eph == eph
      ensures peerStatic == None
    {
      this.p, this.framed, this.own, this.eph := p, framed, own, eph;
      pending, hsErr := true, false;
      writeKey, readKey, peerStatic := ZERO_KEY, ZERO_KEY, None;
      writeCounter, readCounter, readBuf := 0, 0, [];
    }

    ghost predicate Valid()
      reads this, framed, framed.rw
    {
      && framed.rw.Valid() && !framed.writeHeader
      && (pending ==> !hsErr && writeCounter == 0 && readCounter == 0 && readBuf == [])
      && (!pending && !hsErr ==> !framed.readHeader)
    }

    /** The deferred handshake on what will arrive, with the empty payload of a plain peer. */
    ghost function Shake(): Handshake.Run
      reads this, framed, framed.rw
    {
      Handshake.ServerRun(p, own, eph, [], framed.readHeader, framed.rw.inbox)
    }

    // The connection as its next Write or Read finds it, once the handshake is over.

    ghost predicate Ready()
      reads this, framed, framed.rw
    {
      if pending then Shake().outcome.Done? else !hsErr
    }

    ghost function Greeting(): bytes
      reads this, framed, framed.rw
    {
      if pending then Shake().sent else []
    }

    ghost function Incoming(): bytes
      reads this, framed, framed.rw
      requires Ready()
    {
      if pending then Shake().rest else framed.rw.inbox
    }

    ghost function Tx(): Cipher
      reads this, framed, framed.rw
      requires Ready()
    {
      if pending then Cipher(Shake().outcome.writeKey, 0) else Cipher(writeKey, writeCounter)
    }

    ghost function Rx(): Cipher
      reads this, framed, framed.rw
      requires Ready()
    {
      if pending then Cipher(Shake().outcome.readKey, 0) else Cipher(readKey, readCounter)
    }

    /** Runs the deferred handshake at most once; a failure is remembered for ever. */
    method EnsureHandshake() returns (ok: bool)
      requires Valid()
      modifies this, framed, framed.rw
      ensures Valid() && framed.rw.open == old(framed.rw.open) && !pending && ok == !hsErr == Ready() == old(Ready())
      ensures framed.rw.outbox == old(framed.rw.outbox) + old(Greeting())
      ensures ok ==> framed.rw.inbox == old(Incoming()) && Tx() == old(Tx()) && Rx() == old(Rx())
      ensures readBuf == old(readBuf)
      ensures ok && old(pending) ==> peerStatic == Some(old(Shake()).outcome.peerStatic)
      ensures !ok && old(pending) ==> peerStatic == old(peerStatic)
    {
      hide Handshake.ServerRun;
      if pending {
        pending := false;
        var outcome, uses := Handshake.ServerHandshake(p, framed, own, eph, []);
        if outcome.Failed? {
          hsErr := true;
        } else {
          writeKey, readKey, peerStatic := outcome.writeKey, outcome.readKey, Some(outcome.peerStatic);
        }
      }
      ok := !hsErr;
    }

    /** After the handshake, one `Send` of the stream model; a closed connection costs one nonce and writes nothing. */
    method Write(data: bytes) returns (n: nat, ok: bool)
      requires Valid() && Lawful(p)
      modifies this, framed, framed.rw
      ensures Valid() && framed.rw.open == old(framed.rw.open) && readBuf == old(readBuf)
      ensures !hsErr == Ready() == old(Ready())
      ensures !old(Ready()) ==> n == 0 && !ok && framed.rw.outbox == old(framed.rw.outbox) + old(Greeting())
      ensures old(Ready()) ==> framed.rw.inbox == old(Incoming()) && Rx() == old(Rx())
      ensures old(Ready()) && framed.rw.open ==>
                var s := Send(FrameCodec(p), old(Tx()), data);
                && ok && n == |data|
                && framed.rw.outbox == old(framed.rw.outbox) + old(Greeting()) + s.wire && Tx() == s.state
      ensures old(Ready()) && !framed.rw.open ==>
                && n == 0 && (ok <==> data == []) && framed.rw.outbox == old(framed.rw.outbox) + old(Greeting())
                && Tx() == if ok then old(Tx()) else Next(old(Tx()))
    {
      hide Handshake.ServerRun, Send;
      ok := EnsureHandshake();
      if !ok {
        return 0, false;
      }
      n, ok := WriteFrames(data);
    }

    /** The loop of Write: one frame for every 2^24-17 bytes, the last one shorter. */
    method WriteFrames(data: bytes) returns (n: nat, ok: bool)
      requires !framed.writeHeader && Lawful(p)
      modifies this`writeCounter, framed`writeHeader, framed.rw`outbox
      ensures !framed.writeHeader
      ensures framed.rw.open ==>
                var s := Send(FrameCodec(p), Cipher(writeKey, old(writeCounter)), data);
                && ok && n == |data| && s.ok
                && framed.rw.outbox == old(framed.rw.outbox) + s.wire && Cipher(writeKey, writeCounter) == s.state
      ensures !framed.rw.open ==>
                && n == 0 && (ok <==> data == []) && framed.rw.outbox == old(framed.rw.outbox)
                && Cipher(writeKey, writeCounter) ==
                   if ok then Cipher(writeKey, old(writeCounter)) else Next(Cipher(writeKey, old(writeCounter)))
    {
      hide Send, SendingOnCourse, Frame;
      ghost var c, start, sent := FrameCodec(p), Cipher(writeKey, writeCounter), [];
      SendingStarts(c, start, data);
      var rest := data;
      n := 0;
      while |rest| > 0
        invariant n <= |data| && rest == data[n..]
        invariant !framed.writeHeader && framed.rw.outbox == old(framed.rw.outbox) + sent
        invariant SendingOnCourse(c, start, data, n, Cipher(writeKey, writeCounter), sent)
        invariant !framed.rw.open ==> n == 0 && writeCounter == old(writeCounter) && sent == []
        decreases |rest|
      {
        var m := Min(|rest|, MAX_PLAIN);
        SendingContinues(c, start, data, n, Cipher(writeKey, writeCounter), sent, m);
        assert rest[..m] == data[n..n + m];
        ghost var sealed := SealFrame(p, Cipher(writeKey, writeCounter), rest[..m]);
        var ciphertext := p.seal(writeKey, writeCounter, [], rest[..m]);
        assert SealLaw(p, writeKey, writeCounter, [], rest[..m]);
        writeCounter := (writeCounter + 1) % TWO_32;
        var written := framed.WriteFrame(ciphertext);
        if !written {
          return n, false;
        }
        sent := sent + sealed;
        n := n + m;
        rest := rest[m..];
      }
      SendingEnds(c, start, data, Cipher(writeKey, writeCounter), sent);
      ok := true;
    }

    /**
     * After the handshake, one `Receive` of the stream model into `buf`. A frame that does not
     * authenticate is skipped, delivers nothing, and leaves the counter for the next frame.
     */
    method Read(buf: array<byte>) returns (n: nat, ok: bool)
      requires Valid()
      modifies this, framed, framed.rw, buf
      ensures Valid() && n <= buf.Length && buf[n..] == old(buf[n..])
      ensures buf.Length == 0 ==> n == 0 && ok && framed.rw.outbox == old(framed.rw.outbox)
      ensures buf.Length > 0 ==>
                && framed.rw.outbox == old(framed.rw.outbox) + old(Greeting()) && Ready() == old(Ready())
                && (!old(Ready()) ==> n == 0 && !ok)
                && (old(Ready()) ==>
                      var r := Receive(FrameCodec(p), old(Rx()), old(readBuf), old(Incoming()), buf.Length);
                      && ok == r.ok && buf[..n] == r.data && Rx() == r.state && Tx() == old(Tx()) && readBuf == r.buffer
                      && framed.rw.inbox == (if ok then r.wire else AfterRefusal(old(Incoming()))))
      ensures framed.rw.open == old(framed.rw.open)
    {
      hide Handshake.ServerRun, Unframe;
      if buf.Length == 0 {
        return 0, true;
      }
      ok := EnsureHandshake();
      if !ok {
        return 0, false;
      }
      if |readBuf| > 0 {
        n := CopyInto(buf, 0, readBuf);
        readBuf := readBuf[n..];
        return n, true;
      }
      var ciphertext, got := framed.ReadFrame();
      if !got {
        return 0, false;
      }
      var plaintext := p.open(readKey, readCounter, [], ciphertext);
      if plaintext.None? {
        return 0, false;
      }
      readCounter := (readCounter + 1) % TWO_32;
      n := CopyInto(buf, 0, plaintext.value);
      if n < |plaintext.value| {
        readBuf := readBuf + plaintext.value[n..];
      }
    }
  }

  /**
   * The whole connection: two honest parties whose handshake messages fit their frames hold crossed
   * ciphers, and in either direction any Writes and Reads conserve the stream.
   */
  lemma ConnectionIsAStream(p: Primitives, c: Handshake.Cert.Context, root: Option<Key>, x: Handshake.Exchange,
                            toClient: bytes, toServer: bytes, ops: seq<Op>, fromClient: bool)
    requires Handshake.Honest(p, x)
    requires toServer == Handshake.ClientRun(p, c, root, x.client, x.clientEph, x.clientPayload, true, toClient).sent
    requires toClient == Handshake.ServerRun(p, x.server, x.serverEph, x.serverPayload, true, toServer).sent
    requires Handshake.ClientRun(p, c, root, x.client, x.clientEph, x.clientPayload, true, toClient).outcome.Done?
    ensures var client := Handshake.ClientRun(p, c, root, x.client, x.clientEph, x.clientPayload, true, toClient).outcome;
            var server := Handshake.ServerRun(p, x.server, x.serverEph, x.serverPayload, true, toServer).outcome;
            && server.Done?
            && var tx := Cipher(if fromClient then client.writeKey else server.writeKey, 0);
               var rx := Cipher(if fromClient then server.readKey else client.readKey, 0);
               Conserved(FrameCodec(p), ByteStream.Run(FrameCodec(p), Link(tx, rx, [], [], [], []), ops))
  {
    hide Handshake.ClientRun, Handshake.ServerRun;
    Handshake.HandshakeAgreement(p, c, root, x, toClient, toServer);
    var client := Handshake.ClientRun(p, c, root, x.client, x.clientEph, x.clientPayload, true, toClient).outcome;
    var tx := Cipher(if fromClient then client.writeKey else client.readKey, 0);
    FrameCodecIsFaithful(p);
    StreamConserved(FrameCodec(p), Link(tx, tx, [], [], [], []), ops);
  }
}
