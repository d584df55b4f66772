/** Both sides of the WhatsApp Noise XX handshake, over protobuf messages in frames. */
module WhatsAppHandshake {
  import opened Bytes
  import opened WhatsAppProto
  import opened WhatsAppFraming
  import opened WhatsAppNoise
  import Cert = WhatsAppCert

  function Pattern(): (r: bytes)
    ensures |r| == 32
  {
    Ascii("Noise_XX_25519_AESGCM_SHA256") + [0, 0, 0, 0]
  }

  datatype KeyPair = KeyPair(priv: Key, pub: Key)

  /** One party's view: the messages' fields, the two static keys, and the three shared secrets. */
  datatype Session = Session(
    clientEphemeral: Key,
    serverEphemeral: Key,
    encServerStatic: bytes,
    encServerPayload: bytes,
    encClientStatic: bytes,
    encClientPayload: bytes,
    ee: bytes,
    es: bytes,
    se: bytes)
  {
    // The handshake hash after each value it absorbs, in order.
    function HashOne(p: Primitives): Key { MixHash(p, MixHash(p, InitialHash(p, Pattern()), Header()), clientEphemeral) }
    function HashTwo(p: Primitives): Key { MixHash(p, HashOne(p), serverEphemeral) }
    function HashThree(p: Primitives): Key { MixHash(p, HashTwo(p), encServerStatic) }
    function HashFour(p: Primitives): Key { MixHash(p, HashThree(p), encServerPayload) }
    function HashFive(p: Primitives): Key { MixHash(p, HashFour(p), encClientStatic) }

    // Salt and key after each secret.
    function MixOne(p: Primitives): (Key, Key) { p.hkdf(InitialHash(p, Pattern()), ee) }
    function MixTwo(p: Primitives): (Key, Key) { p.hkdf(MixOne(p).0, es) }
    function MixThree(p: Primitives): (Key, Key) { p.hkdf(MixTwo(p).0, se) }

    function Transport(p: Primitives): (Key, Key) { p.hkdf(MixThree(p).0, []) }

    function SealServer(p: Primitives, serverStatic: Key, payload: bytes): Session {
      var v := this.(encServerStatic := p.seal(MixOne(p).1, 0, HashTwo(p), serverStatic));
      v.(encServerPayload := p.seal(MixTwo(p).1, 0, v.HashThree(p), payload))
    }

    function SealClient(p: Primitives, clientStatic: Key, payload: bytes): Session {
      var v := this.(encClientStatic := p.seal(MixTwo(p).1, 1, HashFour(p), clientStatic));
      v.(encClientPayload := p.seal(MixThree(p).1, 0, v.HashFive(p), payload))
    }

    function Hello(): bytes { MarshalClientHello(clientEphemeral) }
    function Reply(): bytes { MarshalServerHello(serverEphemeral, encServerStatic, encServerPayload) }
    function Finish(): bytes { MarshalClientFinish(encClientStatic, encClientPayload) }
  }

  datatype Outcome = Failed | Done(writeKey: Key, readKey: Key, peerStatic: Key)

  // What a run writes, what it leaves unread, and how it ends.
  datatype Run = Run(sent: bytes, rest: bytes, outcome: Outcome)

  ghost predicate Distinct(uses: seq<(nat, nat)>) {
    forall i, j | 0 <= i < j < |uses| :: uses[i] != uses[j]
  }

  // Every (mix, counter) pair a handshake may use; a run that stops early has used a prefix.
  const ALL_USES: seq<(nat, nat)> := [(1, 0), (2, 0), (2, 1), (3, 0)]

  // ---- Client ----

  /** The certificate check of a client that was given a root key. */
  predicate CertAccepted(c: Cert.Context, root: Option<Key>, cert: bytes, serverStatic: bytes) {
    root.Some? ==> Cert.VerifyServerCert(c, root.value, cert, serverStatic).Accepted?
  }

  /** A ServerHello the client goes on with: the session so far and the server's static key. */
  function AcceptReply(p: Primitives, c: Cert.Context, root: Option<Key>, eph: KeyPair, reply: ServerHello): Option<(Session, Key)>
    requires |reply.ephemeral| == 32
  {
    var ee := p.x25519(eph.priv, reply.ephemeral);
    if ee.None? then None else
    var v := Session(eph.pub, reply.ephemeral, reply.encStatic, reply.payload, [], [], ee.value, [], []);
    var serverStatic := p.open(v.MixOne(p).1, 0, v.HashTwo(p), reply.encStatic);
    if serverStatic.None? || |serverStatic.value| != 32 then None else
    var es := p.x25519(eph.priv, serverStatic.value);
    if es.None? then None else
    var w := v.(es := es.value);
    var cert := p.open(w.MixTwo(p).1, 0, w.HashThree(p), reply.payload);
    if cert.None? || !CertAccepted(c, root, cert.value, serverStatic.value) then None
    else Some((w, serverStatic.value))
  }

  /** The session the client ends in, with the server's static key. */
  function ClientSession(p: Primitives, c: Cert.Context, root: Option<Key>, own: KeyPair, eph: KeyPair,
                         payload: bytes, reply: ServerHello): Option<(Session, Key)>
    requires |reply.ephemeral| == 32
  {
    match AcceptReply(p, c, root, eph, reply)
    case None => None
    case Some((w, serverStatic)) =>
      match p.x25519(own.priv, reply.ephemeral)
      case None => None
      case Some(se) => Some((w.(se := se).SealClient(p, own.pub, payload), serverStatic))
  }

  function ClientRun(p: Primitives, c: Cert.Context, root: Option<Key>, own: KeyPair, eph: KeyPair, payload: bytes,
                     header: bool, inbox: bytes): Run
  {
    var hello := Frame(header, MarshalClientHello(eph.pub));
    match Unframe(false, inbox)
    case None => Run(hello, [], Failed)
    case Some((message, rest)) =>
      match UnmarshalServerHello(message)
      case Err(_) => Run(hello, rest, Failed)
      case Ok(reply) =>
        match ClientSession(p, c, root, own, eph, payload, reply)
        case None => Run(hello, rest, Failed)
        case Some((v, serverStatic)) =>
          if |v.Finish()| > MAX_FRAME_LEN then Run(hello, rest, Failed)
          else Run(hello + Frame(false, v.Finish()), rest, Done(v.Transport(p).0, v.Transport(p).1, serverStatic))
  }

  lemma HelloFits(pub: Key)
    ensures |MarshalClientHello(pub)| <= MAX_FRAME_LEN
  {
    BytesFieldSize(HELLO_EPHEMERAL, pub);
    BytesFieldSize(HM_CLIENT_HELLO, BytesField(HELLO_EPHEMERAL, pub));
  }

  method ClientHandshake(p: Primitives, c: Cert.Context, rw: FramedConn, own: KeyPair, eph: KeyPair, payload: bytes,
                         root: Option<Key>)
    returns (outcome: Outcome, ghost uses: seq<(nat, nat)>)
    requires rw.rw.Valid() && !rw.readHeader
    modifies rw, rw.rw
    ensures rw.rw.open ==>
              var run := ClientRun(p, c, root, own, eph, payload, old(rw.writeHeader), old(rw.rw.inbox));
              && outcome == run.outcome && rw.rw.outbox == old(rw.rw.outbox) + run.sent
              && (outcome.Done? ==> rw.rw.inbox == run.rest)
    ensures !rw.rw.open ==> outcome == Failed && rw.rw.outbox == old(rw.rw.outbox)
    ensures !rw.writeHeader && !rw.readHeader && rw.rw.open == old(rw.rw.open) && rw.rw.Valid()
    ensures Distinct(uses) && uses <= ALL_USES && (outcome.Done? ==> uses == ALL_USES)
  {
    hide Frame, Unframe, MarshalClientHello, UnmarshalServerHello, ClientSession, Pattern, Header, MixHash, InitialHash,
         NoiseHandshake.NoReuse, Session.Transport, Session.Finish;
    uses := [];
    var nh := new NoiseHandshake(p, Pattern(), Header());
    nh.Authenticate(eph.pub);
    HelloFits(eph.pub);
    var sent := rw.WriteFrame(MarshalClientHello(eph.pub));
    if !sent {
      return Failed, uses;
    }

    var message, got := rw.ReadFrame();
    if !got {
      return Failed, uses;
    }
    var parsed := UnmarshalServerHello(message);
    if parsed.Err? {
      return Failed, uses;
    }
    outcome, uses := ClientFinishHandshake(p, c, rw, nh, own, eph, payload, root, parsed.value);
  }

  /** The client's part after a ServerHello has been parsed, up to the certificate check. */
  method ClientAcceptReply(p: Primitives, c: Cert.Context, nh: NoiseHandshake, eph: KeyPair, root: Option<Key>, reply: ServerHello)
    returns (serverStatic: Option<Key>)
    requires |reply.ephemeral| == 32
    requires nh.p == p && nh.epoch == 0 && nh.uses == [] && nh.counter == 0 && nh.NoReuse()
    requires nh.salt == InitialHash(p, Pattern())
    requires nh.hash == MixHash(p, MixHash(p, InitialHash(p, Pattern()), Header()), eph.pub)
    modifies nh
    ensures nh.NoReuse()
    ensures match AcceptReply(p, c, root, eph, reply)
            case None => serverStatic == None && nh.uses <= ALL_USES
            case Some((w, key)) =>
              && serverStatic == Some(key) && nh.uses == [(1, 0), (2, 0)]
              && nh.hash == w.HashFour(p) && (nh.salt, nh.key) == w.MixTwo(p) && nh.counter == 1 && nh.epoch == 2
  {
    hide Pattern, Header, MixHash, InitialHash, NoiseHandshake.NoReuse, Cert.VerifyServerCert;
    nh.Authenticate(reply.ephemeral);
    var ok := nh.MixSharedSecretIntoKey(eph.priv, reply.ephemeral);
    if !ok {
      return None;
    }
    var decrypted := nh.Decrypt(reply.encStatic);
    if decrypted.None? || |decrypted.value| != 32 {
      return None;
    }
    ok := nh.MixSharedSecretIntoKey(eph.priv, decrypted.value);
    if !ok {
      return None;
    }
    var cert := nh.Decrypt(reply.payload);
    if cert.None? {
      return None;
    }
    if root.Some? && !Cert.VerifyServerCert(c, root.value, cert.value, decrypted.value).Accepted? {
      return None;
    }
    serverStatic := Some(decrypted.value);
  }

  /** The rest of the client's part: ClientFinish and the transport keys. */
  method ClientFinishHandshake(p: Primitives, c: Cert.Context, rw: FramedConn, nh: NoiseHandshake, own: KeyPair, eph: KeyPair,
                               payload: bytes, root: Option<Key>, reply: ServerHello)
    returns (outcome: Outcome, ghost uses: seq<(nat, nat)>)
    requires rw.rw.open && !rw.writeHeader && |reply.ephemeral| == 32
    requires nh.p == p && nh.epoch == 0 && nh.uses == [] && nh.counter == 0 && nh.NoReuse()
    requires nh.salt == InitialHash(p, Pattern())
    requires nh.hash == MixHash(p, MixHash(p, InitialHash(p, Pattern()), Header()), eph.pub)
    modifies nh, rw`writeHeader, rw.rw`outbox
    ensures match ClientSession(p, c, root, own, eph, payload, reply)
            case None => outcome == Failed && rw.rw.outbox == old(rw.rw.outbox)
            case Some((v, serverStatic)) =>
              if |v.Finish()| > MAX_FRAME_LEN then outcome == Failed && rw.rw.outbox == old(rw.rw.outbox)
              else && outcome == Done(v.Transport(p).0, v.Transport(p).1, serverStatic)
                   && rw.rw.outbox == old(rw.rw.outbox) + Frame(false, v.Finish())
    ensures !rw.writeHeader
    ensures Distinct(uses) && uses <= ALL_USES && (outcome.Done? ==> uses == ALL_USES)
  {
    hide Frame, MarshalClientFinish, Pattern, Header, MixHash, InitialHash, AcceptReply, NoiseHandshake.NoReuse;
    var serverStatic := ClientAcceptReply(p, c, nh, eph, root, reply);
    if serverStatic.None? {
      nh.UsesAreDistinct();
      return Failed, nh.uses;
    }
    var encStatic := nh.Encrypt(own.pub);
    var ok := nh.MixSharedSecretIntoKey(own.priv, reply.ephemeral);
    if !ok {
      nh.UsesAreDistinct();
      return Failed, nh.uses;
    }
    var encPayload := nh.Encrypt(payload);
    ok := rw.WriteFrame(MarshalClientFinish(encStatic, encPayload));
    if !ok {
      nh.UsesAreDistinct();
      return Failed, nh.uses;
    }
    var write, read := nh.Finish();
    nh.UsesAreDistinct();
    return Done(write, read, serverStatic.value), nh.uses;
  }

  // ---- Server ----

  /** The session once the server has answered a ClientHello carrying `clientEph`. */
  function ServerReply(p: Primitives, own: KeyPair, eph: KeyPair, clientEph: Key, payload: bytes): Option<Session> {
    var ee, es := p.x25519(eph.priv, clientEph), p.x25519(own.priv, clientEph);
    if ee.None? || es.None? then None
    else Some(Session(clientEph, eph.pub, [], [], [], [], ee.value, es.value, []).SealServer(p, own.pub, payload))
  }

  /** A ClientFinish the server ends with: the final session and the client's static key. */
  function AcceptFinish(p: Primitives, v: Session, eph: KeyPair, encStatic: bytes, encPayload: bytes): Option<(Session, Key)> {
    var w := v.(encClientStatic := encStatic, encClientPayload := encPayload);
    var clientStatic := p.open(w.MixTwo(p).1, 1, w.HashFour(p), encStatic);
    if clientStatic.None? || |clientStatic.value| != 32 then None else
    var se := p.x25519(eph.priv, clientStatic.value);
    if se.None? then None else
    var x := w.(se := se.value);
    if p.open(x.MixThree(p).1, 0, x.HashFive(p), encPayload).None? then None else Some((x, clientStatic.value))
  }

  function ServerFinish(p: Primitives, v: Session, eph: KeyPair, inbox: bytes): (bytes, Outcome) {
    match Unframe(false, inbox)
    case None => ([], Failed)
    case Some((message, rest)) =>
      match UnmarshalClientFinish(message)
      case Err(_) => (rest, Failed)
      case Ok((encStatic, encPayload)) =>
        match AcceptFinish(p, v, eph, encStatic, encPayload)
        case None => (rest, Failed)
        case Some((w, clientStatic)) => (rest, Done(w.Transport(p).1, w.Transport(p).0, clientStatic))
  }

  function ServerRun(p: Primitives, own: KeyPair, eph: KeyPair, payload: bytes, header: bool, inbox: bytes): Run {
    match Unframe(header, inbox)
    case None => Run([], [], Failed)
    case Some((message, rest)) =>
      match UnmarshalClientHello(message)
      case Err(_) => Run([], rest, Failed)
      case Ok(clientEph) =>
        match ServerReply(p, own, eph, clientEph, payload)
        case None => Run([], rest, Failed)
        case Some(v) =>
          if |v.Reply()| > MAX_FRAME_LEN then Run([], rest, Failed) else
          var (unread, outcome) := ServerFinish(p, v, eph, rest);
          Run(Frame(false, v.Reply()), unread, outcome)
  }

  method ServerHandshake(p: Primitives, rw: FramedConn, own: KeyPair, eph: KeyPair, payload: bytes)
    returns (outcome: Outcome, ghost uses: seq<(nat, nat)>)
    requires rw.rw.Valid() && !rw.writeHeader
    modifies rw, rw.rw
    ensures var run := ServerRun(p, own, eph, payload, old(rw.readHeader), old(rw.rw.inbox));
            && outcome == run.outcome && rw.rw.outbox == old(rw.rw.outbox) + run.sent
            && (outcome.Done? ==> rw.rw.inbox == run.rest && !rw.readHeader)
    ensures !rw.writeHeader && rw.rw.open == old(rw.rw.open) && rw.rw.Valid()
    ensures Distinct(uses) && uses <= ALL_USES && (outcome.Done? ==> uses == ALL_USES)
  {
    hide Frame, Unframe, UnmarshalClientHello, UnmarshalClientFinish, Pattern, Header, MixHash, InitialHash,
         AcceptFinish, ServerReply, NoiseHandshake.NoReuse, Session.Reply;
    uses := [];
    var nh := new NoiseHandshake(p, Pattern(), Header());
    var message, got := rw.ReadFrame();
    if !got {
      return Failed, uses;
    }
    var hello := UnmarshalClientHello(message);
    if hello.Err? {
      return Failed, uses;
    }
    nh.Authenticate(hello.value);
    ghost var v := ServerReply(p, own, eph, hello.value, payload);
    var sent := ServerSendReply(p, rw, nh, own, eph, hello.value, payload);
    if !sent {
      nh.UsesAreDistinct();
      return Failed, nh.uses;
    }
    message, got := rw.ReadFrame();
    if !got {
      nh.UsesAreDistinct();
      return Failed, nh.uses;
    }
    var finish := UnmarshalClientFinish(message);
    if finish.Err? {
      nh.UsesAreDistinct();
      return Failed, nh.uses;
    }
    outcome := ServerAcceptFinish(p, nh, eph, v.value, finish.value.0, finish.value.1);
    nh.UsesAreDistinct();
    uses := nh.uses;
  }

  method ServerSendReply(p: Primitives, rw: FramedConn, nh: NoiseHandshake, own: KeyPair, eph: KeyPair, clientEph: Key, payload: bytes)
    returns (ok: bool)
    requires rw.rw.open && !rw.writeHeader
    requires nh.p == p && nh.epoch == 0 && nh.uses == [] && nh.counter == 0 && nh.NoReuse()
    requires nh.salt == InitialHash(p, Pattern())
    requires nh.hash == MixHash(p, MixHash(p, InitialHash(p, Pattern()), Header()), clientEph)
    modifies nh, rw`writeHeader, rw.rw`outbox
    ensures !rw.writeHeader && nh.uses <= ALL_USES && nh.NoReuse()
    ensures match ServerReply(p, own, eph, clientEph, payload)
            case None => !ok && rw.rw.outbox == old(rw.rw.outbox)
            case Some(v) =>
              && (ok <==> |v.Reply()| <= MAX_FRAME_LEN)
              && rw.rw.outbox == old(rw.rw.outbox) + (if ok then Frame(false, v.Reply()) else [])
              && nh.uses == [(1, 0), (2, 0)] && nh.counter == 1 && nh.epoch == 2
              && nh.hash == v.HashFour(p) && (nh.salt, nh.key) == v.MixTwo(p)
  {
    hide Frame, MarshalServerHello, Pattern, Header, MixHash, InitialHash, NoiseHandshake.NoReuse;
    nh.Authenticate(eph.pub);
    ok := nh.MixSharedSecretIntoKey(eph.priv, clientEph);
    if !ok {
      return;
    }
    var encStatic := nh.Encrypt(own.pub);
    ok := nh.MixSharedSecretIntoKey(own.priv, clientEph);
    if !ok {
      return;
    }
    var encPayload := nh.Encrypt(payload);
    ok := rw.WriteFrame(MarshalServerHello(eph.pub, encStatic, encPayload));
  }

  method ServerAcceptFinish(p: Primitives, nh: NoiseHandshake, eph: KeyPair, ghost v: Session, encStatic: bytes, encPayload: bytes)
    returns (outcome: Outcome)
    requires nh.p == p && nh.uses == [(1, 0), (2, 0)] && nh.counter == 1 && nh.epoch == 2 && nh.NoReuse()
    requires nh.hash == v.HashFour(p) && (nh.salt, nh.key) == v.MixTwo(p)
    modifies nh
    ensures nh.NoReuse()
    ensures match AcceptFinish(p, v, eph, encStatic, encPayload)
            case None => outcome == Failed
            case Some((w, clientStatic)) => outcome == Done(w.Transport(p).1, w.Transport(p).0, clientStatic)
    ensures nh.uses <= ALL_USES && (outcome.Done? ==> nh.uses == ALL_USES)
  {
    hide Pattern, Header, MixHash, InitialHash, NoiseHandshake.NoReuse;
    var clientStatic := nh.Decrypt(encStatic);
    if clientStatic.None? || |clientStatic.value| != 32 {
      return Failed;
    }
    var ok := nh.MixSharedSecretIntoKey(eph.priv, clientStatic.value);
    if !ok {
      return Failed;
    }
    var payload := nh.Decrypt(encPayload);
    if payload.None? {
      return Failed;
    }
    var write, read := nh.Finish();
    outcome := Done(read, write, clientStatic.value);
  }

  // ---- The protocol in straight lines ----

  /**
   * The Noise XX handshake for the client (sections 5.2, 5.3 and 7.5 of the Noise Protocol Framework), on a parsed
   * ServerHello: the three secrets are ephemeral with ephemeral, ephemeral with the server's static key, and the own
   * static key with the server's ephemeral; with a root key the opened payload must be a certificate that vouches for
   * the opened static key. The client sends under the first transport key.
   */
  ghost predicate ClientFollows(p: Primitives, c: Cert.Context, root: Option<Key>, own: KeyPair, eph: KeyPair, payload: bytes,
                                reply: ServerHello, writeKey: Key, readKey: Key, serverStatic: Key, finish: bytes)
    requires |reply.ephemeral| == 32
  {
    var pattern: Key := Ascii("Noise_XX_25519_AESGCM_SHA256") + [0, 0, 0, 0];
    var h0 := p.sha256(p.sha256(p.sha256(pattern + ['W' as int, 'A' as int, 6, 3]) + eph.pub) + reply.ephemeral);
    var ee := p.x25519(eph.priv, reply.ephemeral);
    && ee.Some?
    && var (s1, k1) := p.hkdf(pattern, ee.value);
       var h1 := p.sha256(h0 + reply.encStatic);
       var es := p.x25519(eph.priv, serverStatic);
    && p.open(k1, 0, h0, reply.encStatic) == Some(serverStatic) && es.Some?
    && var (s2, k2) := p.hkdf(s1, es.value);
       var h2 := p.sha256(h1 + reply.payload);
       var cert, se := p.open(k2, 0, h1, reply.payload), p.x25519(own.priv, reply.ephemeral);
    && cert.Some? && se.Some?
    && (root.Some? ==> Cert.VerifyServerCert(c, root.value, cert.value, serverStatic).Accepted?)
    && var c1 := p.seal(k2, 1, h2, own.pub);
       var (s3, k3) := p.hkdf(s2, se.value);
       (writeKey, readKey) == p.hkdf(s3, []) && finish == MarshalClientFinish(c1, p.seal(k3, 0, p.sha256(h2 + c1), payload))
  }

  /** The same for the server, on a parsed ClientHello and ClientFinish; it sends under the second transport key. */
  ghost predicate ServerFollows(p: Primitives, own: KeyPair, eph: KeyPair, payload: bytes, clientEph: Key, encStatic: bytes,
                                encPayload: bytes, writeKey: Key, readKey: Key, clientStatic: Key, reply: bytes)
  {
    var pattern: Key := Ascii("Noise_XX_25519_AESGCM_SHA256") + [0, 0, 0, 0];
    var h0 := p.sha256(p.sha256(p.sha256(pattern + ['W' as int, 'A' as int, 6, 3]) + clientEph) + eph.pub);
    var ee, es := p.x25519(eph.priv, clientEph), p.x25519(own.priv, clientEph);
    && ee.Some? && es.Some?
    && var (s1, k1) := p.hkdf(pattern, ee.value);
       var c1 := p.seal(k1, 0, h0, own.pub);
       var h1 := p.sha256(h0 + c1);
       var (s2, k2) := p.hkdf(s1, es.value);
       var c2 := p.seal(k2, 0, h1, payload);
       var h2 := p.sha256(h1 + c2);
       var se := p.x25519(eph.priv, clientStatic);
    && reply == MarshalServerHello(eph.pub, c1, c2)
    && p.open(k2, 1, h2, encStatic) == Some(clientStatic) && se.Some?
    && var (s3, k3) := p.hkdf(s2, se.value);
    && p.open(k3, 0, p.sha256(h2 + encStatic), encPayload).Some?
    && (readKey, writeKey) == p.hkdf(s3, [])
  }

  /** The client's session ends with these keys exactly when the protocol gives them. */
  lemma ClientSessionIsNoise(p: Primitives, c: Cert.Context, root: Option<Key>, own: KeyPair, eph: KeyPair, payload: bytes,
                             reply: ServerHello, writeKey: Key, readKey: Key, serverStatic: Key, finish: bytes)
    requires |reply.ephemeral| == 32
    ensures ClientFollows(p, c, root, own, eph, payload, reply, writeKey, readKey, serverStatic, finish)
            <==> match ClientSession(p, c, root, own, eph, payload, reply)
                 case None => false
                 case Some((v, key)) => serverStatic == key && (writeKey, readKey) == v.Transport(p) && finish == v.Finish()
  {
    hide Cert.VerifyServerCert, MarshalClientFinish;
    PatternIs();
  }

  lemma PatternIs()
    ensures Pattern() == Ascii("Noise_XX_25519_AESGCM_SHA256") + [0, 0, 0, 0]
    ensures Header() == ['W' as int, 'A' as int, 6, 3]
  {
  }

  /**
   * Whatever arrives, the client is done exactly when a ServerHello stands in front of it, with which the protocol
   * goes through, the certificate check included, to a ClientFinish that fits a frame; and then it has sent just that.
   */
  lemma ClientIsNoise(p: Primitives, c: Cert.Context, root: Option<Key>, own: KeyPair, eph: KeyPair, payload: bytes,
                      header: bool, inbox: bytes, writeKey: Key, readKey: Key, serverStatic: Key)
    ensures ClientRun(p, c, root, own, eph, payload, header, inbox).outcome == Done(writeKey, readKey, serverStatic)
            <==> && Unframe(false, inbox).Some? && UnmarshalServerHello(Unframe(false, inbox).value.0).Ok?
                 && exists finish: bytes ::
                      && |finish| <= MAX_FRAME_LEN
                      && ClientFollows(p, c, root, own, eph, payload, UnmarshalServerHello(Unframe(false, inbox).value.0).value,
                                       writeKey, readKey, serverStatic, finish)
                      && ClientRun(p, c, root, own, eph, payload, header, inbox).sent
                         == Frame(header, MarshalClientHello(eph.pub)) + Frame(false, finish)
  {
    hide Frame, Unframe, MarshalClientHello, UnmarshalServerHello, ClientSession, ClientFollows, Session.Finish, Session.Transport;
    if Unframe(false, inbox).Some? && UnmarshalServerHello(Unframe(false, inbox).value.0).Ok? {
      var reply := UnmarshalServerHello(Unframe(false, inbox).value.0).value;
      forall finish: bytes
        ensures ClientFollows(p, c, root, own, eph, payload, reply, writeKey, readKey, serverStatic, finish)
                <==> match ClientSession(p, c, root, own, eph, payload, reply)
                     case None => false
                     case Some((v, key)) => serverStatic == key && (writeKey, readKey) == v.Transport(p) && finish == v.Finish()
      {
        ClientSessionIsNoise(p, c, root, own, eph, payload, reply, writeKey, readKey, serverStatic, finish);
      }
    }
  }

  /** A client with a root key never ends with a server whose key no certificate under that root vouches for. */
  lemma PinnedRootIsEnforced(p: Primitives, c: Cert.Context, root: Key, own: KeyPair, eph: KeyPair, payload: bytes,
                             header: bool, inbox: bytes)
    requires ClientRun(p, c, Some(root), own, eph, payload, header, inbox).outcome.Done?
    ensures var outcome := ClientRun(p, c, Some(root), own, eph, payload, header, inbox).outcome;
            exists cert: bytes :: Cert.VerifyServerCert(c, root, cert, outcome.peerStatic).Accepted?
  {
    hide ClientRun, Unframe, UnmarshalServerHello, Frame, ClientFollows, Cert.VerifyServerCert;
    var outcome := ClientRun(p, c, Some(root), own, eph, payload, header, inbox).outcome;
    ClientIsNoise(p, c, Some(root), own, eph, payload, header, inbox, outcome.writeKey, outcome.readKey, outcome.peerStatic);
    var reply := UnmarshalServerHello(Unframe(false, inbox).value.0).value;
    var finish: bytes :| ClientFollows(p, c, Some(root), own, eph, payload, reply, outcome.writeKey, outcome.readKey,
                                       outcome.peerStatic, finish);
    var _ := CertificateOf(p, c, root, own, eph, payload, reply, outcome.writeKey, outcome.readKey, outcome.peerStatic, finish);
  }

  /** The certificate is the opened payload of the ServerHello. */
  lemma CertificateOf(p: Primitives, c: Cert.Context, root: Key, own: KeyPair, eph: KeyPair, payload: bytes,
                      reply: ServerHello, writeKey: Key, readKey: Key, serverStatic: Key, finish: bytes) returns (cert: bytes)
    requires |reply.ephemeral| == 32
    requires ClientFollows(p, c, Some(root), own, eph, payload, reply, writeKey, readKey, serverStatic, finish)
    ensures Cert.VerifyServerCert(c, root, cert, serverStatic).Accepted?
  {
    hide Cert.VerifyServerCert, MarshalClientFinish;
    PatternIs();
    var pattern := Pattern();
    var h0 := p.sha256(p.sha256(p.sha256(pattern + Header()) + eph.pub) + reply.ephemeral);
    var (s1, k1) := p.hkdf(pattern, p.x25519(eph.priv, reply.ephemeral).value);
    var (s2, k2) := p.hkdf(s1, p.x25519(eph.priv, serverStatic).value);
    cert := p.open(k2, 0, p.sha256(h0 + reply.encStatic), reply.payload).value;
  }

  /** The same exactness for the server. */
  lemma ServerIsNoise(p: Primitives, own: KeyPair, eph: KeyPair, payload: bytes, clientEph: Key, encStatic: bytes, encPayload: bytes,
                      writeKey: Key, readKey: Key, clientStatic: Key, reply: bytes)
    ensures ServerFollows(p, own, eph, payload, clientEph, encStatic, encPayload, writeKey, readKey, clientStatic, reply)
            <==> match ServerReply(p, own, eph, clientEph, payload)
                 case None => false
                 case Some(v) =>
                   reply == v.Reply()
                   && match AcceptFinish(p, v, eph, encStatic, encPayload)
                      case None => false
                      case Some((w, key)) => clientStatic == key && (readKey, writeKey) == w.Transport(p)
  {
    hide MarshalServerHello;
    PatternIs();
  }

  /** The two messages a server reads, when they stand in front of what arrives. */
  function ReadByServer(header: bool, inbox: bytes): Option<(Key, bytes, bytes)> {
    match Unframe(header, inbox)
    case None => None
    case Some((hello, rest)) =>
      match Unframe(false, rest)
      case None => None
      case Some((finish, _)) =>
        match (UnmarshalClientHello(hello), UnmarshalClientFinish(finish))
        case (Ok(eph), Ok((encStatic, encPayload))) => Some((eph, encStatic, encPayload))
        case _ => None
  }

  /** Whatever arrives, the server is done exactly when the protocol goes through with the two messages in front of it. */
  lemma ServerRunIsNoise(p: Primitives, own: KeyPair, eph: KeyPair, payload: bytes, header: bool, inbox: bytes,
                         writeKey: Key, readKey: Key, clientStatic: Key)
    ensures ServerRun(p, own, eph, payload, header, inbox).outcome == Done(writeKey, readKey, clientStatic)
            <==> match ReadByServer(header, inbox)
                 case None => false
                 case Some((clientEph, encStatic, encPayload)) =>
                   exists reply: bytes ::
                     && |reply| <= MAX_FRAME_LEN
                     && ServerFollows(p, own, eph, payload, clientEph, encStatic, encPayload, writeKey, readKey, clientStatic, reply)
                     && ServerRun(p, own, eph, payload, header, inbox).sent == Frame(false, reply)
  {
    hide Frame, Unframe, UnmarshalClientHello, UnmarshalClientFinish, ServerReply, AcceptFinish, ServerFollows, Session.Reply,
         Session.Transport;
    match ReadByServer(header, inbox) {
      case None =>
      case Some((clientEph, encStatic, encPayload)) =>
        var v := ServerReply(p, own, eph, clientEph, payload);
        if v.Some? {
          ServerIsNoise(p, own, eph, payload, clientEph, encStatic, encPayload, writeKey, readKey, clientStatic, v.value.Reply());
        }
        forall reply: bytes
          | ServerFollows(p, own, eph, payload, clientEph, encStatic, encPayload, writeKey, readKey, clientStatic, reply)
          ensures v.Some? && reply == v.value.Reply()
        {
          ServerIsNoise(p, own, eph, payload, clientEph, encStatic, encPayload, writeKey, readKey, clientStatic, reply);
        }
    }
  }

  // ---- Agreement ----

  ghost predicate WellFormed(p: Primitives, k: KeyPair) {
    k.pub == p.publicKey(k.priv)
  }

  /** The four key pairs of an honest exchange and the two payloads. */
  datatype Exchange = Exchange(client: KeyPair, clientEph: KeyPair, clientPayload: bytes,
                               server: KeyPair, serverEph: KeyPair, serverPayload: bytes)

  ghost predicate Honest(p: Primitives, x: Exchange) {
    && Lawful(p)
    && WellFormed(p, x.client) && WellFormed(p, x.clientEph) && WellFormed(p, x.server) && WellFormed(p, x.serverEph)
    && DhLaw(p, x.clientEph.priv, x.serverEph.priv) && DhLaw(p, x.clientEph.priv, x.server.priv)
    && DhLaw(p, x.client.priv, x.serverEph.priv)
  }

  /** The one session two honest parties share. */
  function HonestSession(p: Primitives, x: Exchange): Session
    requires p.x25519(x.clientEph.priv, x.serverEph.pub).Some? && p.x25519(x.clientEph.priv, x.server.pub).Some?
    requires p.x25519(x.client.priv, x.serverEph.pub).Some?
  {
    Session(x.clientEph.pub, x.serverEph.pub, [], [], [], [], p.x25519(x.clientEph.priv, x.serverEph.pub).value,
            p.x25519(x.clientEph.priv, x.server.pub).value, p.x25519(x.client.priv, x.serverEph.pub).value)
    .SealServer(p, x.server.pub, x.serverPayload).SealClient(p, x.client.pub, x.clientPayload)
  }

  lemma BytesFieldHoldsData(num: nat, data: bytes)
    ensures |data| <= |BytesField(num, data)|
  {
  }

  /** What the honest server answers, and that it answers nothing else. */
  lemma ServerAnswers(p: Primitives, x: Exchange, later: bytes)
    requires Honest(p, x)
    ensures var v := HonestSession(p, x);
            ServerRun(p, x.server, x.serverEph, x.serverPayload, true, Frame(true, v.Hello()) + later).sent
            == if |v.Reply()| <= MAX_FRAME_LEN then Frame(false, v.Reply()) else []
  {
    hide Frame, Unframe, MarshalClientHello, UnmarshalClientHello, MarshalServerHello, ServerFinish, Pattern, Header;
    var v := HonestSession(p, x);
    HelloFits(x.clientEph.pub);
    UnframeInvertsFrame(true, v.Hello(), later);
    ClientHelloRoundTrip(x.clientEph.pub);
  }

  /** The honest client accepts that answer exactly when it accepts the certificate in it. */
  lemma ClientAcceptsReply(p: Primitives, c: Cert.Context, root: Option<Key>, x: Exchange)
    requires Honest(p, x)
    ensures var v := HonestSession(p, x);
            ClientSession(p, c, root, x.client, x.clientEph, x.clientPayload,
                          ServerHello(v.serverEphemeral, v.encServerStatic, v.encServerPayload))
            == if CertAccepted(c, root, x.serverPayload, x.server.pub) then Some((v, x.server.pub)) else None
  {
    hide Pattern, Header, CertAccepted;
    var v := HonestSession(p, x);
    assert SealLaw(p, v.MixOne(p).1, 0, v.HashTwo(p), x.server.pub);
    assert SealLaw(p, v.MixTwo(p).1, 0, v.HashThree(p), x.serverPayload);
  }

  lemma ClientAnswers(p: Primitives, c: Cert.Context, root: Option<Key>, x: Exchange)
    requires Honest(p, x)
    requires |HonestSession(p, x).Reply()| <= MAX_FRAME_LEN
    ensures var v := HonestSession(p, x);
            ClientRun(p, c, root, x.client, x.clientEph, x.clientPayload, true, Frame(false, v.Reply()))
            == if CertAccepted(c, root, x.serverPayload, x.server.pub) && |v.Finish()| <= MAX_FRAME_LEN
               then Run(Frame(true, v.Hello()) + Frame(false, v.Finish()), [],
                        Done(v.Transport(p).0, v.Transport(p).1, x.server.pub))
               else Run(Frame(true, v.Hello()), [], Failed)
  {
    hide Frame, Unframe, MarshalClientHello, UnmarshalServerHello, MarshalClientFinish, ClientSession, Pattern, Header,
         Session.Transport, Session.Finish, BytesField, CertAccepted;
    var v := HonestSession(p, x);
    UnframeInvertsFrame(false, v.Reply(), []);
    assert Frame(false, v.Reply()) + [] == Frame(false, v.Reply());
    ReplyHoldsFields(v.serverEphemeral, v.encServerStatic, v.encServerPayload);
    ServerHelloRoundTrip(v.serverEphemeral, v.encServerStatic, v.encServerPayload);
    ClientAcceptsReply(p, c, root, x);
  }

  lemma ReplyHoldsFields(ephemeral: bytes, encStatic: bytes, payload: bytes)
    ensures |ephemeral| + |encStatic| + |payload| <= |MarshalServerHello(ephemeral, encStatic, payload)|
  {
    BytesFieldHoldsData(HELLO_EPHEMERAL, ephemeral);
    BytesFieldHoldsData(HELLO_STATIC, encStatic);
    BytesFieldHoldsData(HELLO_PAYLOAD, payload);
    BytesFieldHoldsData(HM_SERVER_HELLO, BytesField(HELLO_EPHEMERAL, ephemeral) + BytesField(HELLO_STATIC, encStatic)
                                         + BytesField(HELLO_PAYLOAD, payload));
  }

  lemma FinishHoldsFields(encStatic: bytes, payload: bytes)
    ensures |encStatic| + |payload| <= |MarshalClientFinish(encStatic, payload)|
  {
    BytesFieldHoldsData(FINISH_STATIC, encStatic);
    BytesFieldHoldsData(FINISH_PAYLOAD, payload);
    BytesFieldHoldsData(HM_CLIENT_FINISH, BytesField(FINISH_STATIC, encStatic) + BytesField(FINISH_PAYLOAD, payload));
  }

  lemma ServerAcceptsFinish(p: Primitives, x: Exchange, reply: Session)
    requires Honest(p, x)
    requires ServerReply(p, x.server, x.serverEph, x.clientEph.pub, x.serverPayload) == Some(reply)
    ensures var v := HonestSession(p, x);
            AcceptFinish(p, reply, x.serverEph, v.encClientStatic, v.encClientPayload) == Some((v, x.client.pub))
  {
    hide Pattern, Header;
    var v := HonestSession(p, x);
    assert SealLaw(p, v.MixTwo(p).1, 1, v.HashFour(p), x.client.pub);
    assert SealLaw(p, v.MixThree(p).1, 0, v.HashFive(p), x.clientPayload);
  }

  lemma ServerCompletes(p: Primitives, x: Exchange)
    requires Honest(p, x)
    requires |HonestSession(p, x).Reply()| <= MAX_FRAME_LEN && |HonestSession(p, x).Finish()| <= MAX_FRAME_LEN
    ensures var v := HonestSession(p, x);
            ServerRun(p, x.server, x.serverEph, x.serverPayload, true, Frame(true, v.Hello()) + Frame(false, v.Finish()))
            == Run(Frame(false, v.Reply()), [], Done(v.Transport(p).1, v.Transport(p).0, x.client.pub))
  {
    hide Frame, Unframe, MarshalClientHello, UnmarshalClientHello, UnmarshalClientFinish, AcceptFinish,
         Session.Transport, MarshalServerHello, Pattern, Header;
    var v := HonestSession(p, x);
    HelloFits(x.clientEph.pub);
    UnframeInvertsFrame(true, v.Hello(), Frame(false, v.Finish()));
    UnframeInvertsFrame(false, v.Finish(), []);
    assert Frame(false, v.Finish()) + [] == Frame(false, v.Finish());
    ClientHelloRoundTrip(x.clientEph.pub);
    FinishHoldsFields(v.encClientStatic, v.encClientPayload);
    ClientFinishRoundTrip(v.encClientStatic, v.encClientPayload);
    ServerAcceptsFinish(p, x, ServerReply(p, x.server, x.serverEph, x.clientEph.pub, x.serverPayload).value);
  }

  /**
   * Agreement over the actual bytes: when each side's inbox is what the other side writes, both finish
   * or neither does, and they finish exactly when the messages fit a frame and the client has no root key
   * or one that vouches for the server's payload and key. Then they hold crossed transport keys and each
   * knows the other's static key.
   */
  lemma HandshakeAgreement(p: Primitives, c: Cert.Context, root: Option<Key>, x: Exchange, toClient: bytes, toServer: bytes)
    requires Honest(p, x)
    requires toServer == ClientRun(p, c, root, x.client, x.clientEph, x.clientPayload, true, toClient).sent
    requires toClient == ServerRun(p, x.server, x.serverEph, x.serverPayload, true, toServer).sent
    ensures var v := HonestSession(p, x);
            var client := ClientRun(p, c, root, x.client, x.clientEph, x.clientPayload, true, toClient).outcome;
            var server := ServerRun(p, x.server, x.serverEph, x.serverPayload, true, toServer).outcome;
            && (client.Done? <==>
                  && |v.Reply()| <= MAX_FRAME_LEN && |v.Finish()| <= MAX_FRAME_LEN
                  && (root.None? || Cert.VerifyServerCert(c, root.value, x.serverPayload, x.server.pub).Accepted?))
            && (server.Done? <==> client.Done?)
            && (client.Done? ==>
                  && client.writeKey == server.readKey && client.readKey == server.writeKey
                  && client.peerStatic == x.server.pub && server.peerStatic == x.client.pub)
  {
    hide Cert.VerifyServerCert;
    var v := HonestSession(p, x);
    var hello := Frame(true, v.Hello());
    assert hello <= toServer by {
      hide Frame, MarshalClientHello, UnmarshalServerHello, ClientSession, Session.Finish, Session.Transport;
    }
    assert toServer == hello + toServer[|hello|..];
    ServerAnswers(p, x, toServer[|hello|..]);
    if |v.Reply()| > MAX_FRAME_LEN {
      NoReplyNoHandshake(p, c, root, x, toServer[|hello|..]);
    } else {
      ClientAnswers(p, c, root, x);
      if CertAccepted(c, root, x.serverPayload, x.server.pub) && |v.Finish()| <= MAX_FRAME_LEN {
        ServerCompletes(p, x);
      } else {
        NoFinishNoHandshake(p, x);
      }
    }
  }

  /** For every exchange there is such a pair of inboxes. */
  lemma HandshakeExists(p: Primitives, c: Cert.Context, root: Option<Key>, x: Exchange)
    requires Honest(p, x)
    ensures exists toClient: bytes, toServer: bytes ::
              && toServer == ClientRun(p, c, root, x.client, x.clientEph, x.clientPayload, true, toClient).sent
              && toClient == ServerRun(p, x.server, x.serverEph, x.serverPayload, true, toServer).sent
  {
    hide ClientRun, ServerRun, Session.Reply, Session.Finish, Session.Hello, Session.Transport, Frame, CertAccepted, HonestSession;
    var v := HonestSession(p, x);
    var hello := Frame(true, v.Hello());
    assert hello + [] == hello;
    ServerAnswers(p, x, []);
    if |v.Reply()| > MAX_FRAME_LEN {
      NoReplyNoHandshake(p, c, root, x, []);
      assert hello == ClientRun(p, c, root, x.client, x.clientEph, x.clientPayload, true, []).sent;
    } else {
      ClientAnswers(p, c, root, x);
      if CertAccepted(c, root, x.serverPayload, x.server.pub) && |v.Finish()| <= MAX_FRAME_LEN {
        ServerCompletes(p, x);
      }
      var toServer := ClientRun(p, c, root, x.client, x.clientEph, x.clientPayload, true, Frame(false, v.Reply())).sent;
      assert Frame(false, v.Reply()) == ServerRun(p, x.server, x.serverEph, x.serverPayload, true, toServer).sent;
    }
  }

  lemma NoReplyNoHandshake(p: Primitives, c: Cert.Context, root: Option<Key>, x: Exchange, later: bytes)
    requires Honest(p, x) && |HonestSession(p, x).Reply()| > MAX_FRAME_LEN
    ensures ClientRun(p, c, root, x.client, x.clientEph, x.clientPayload, true, [])
            == Run(Frame(true, HonestSession(p, x).Hello()), [], Failed)
    ensures ServerRun(p, x.server, x.serverEph, x.serverPayload, true,
                      Frame(true, HonestSession(p, x).Hello()) + later).outcome.Failed?
  {
    hide Frame, Unframe, MarshalClientHello, UnmarshalClientHello, MarshalServerHello, ServerFinish, Pattern, Header;
    NothingToUnframe();
    var v := HonestSession(p, x);
    HelloFits(x.clientEph.pub);
    UnframeInvertsFrame(true, v.Hello(), later);
    ClientHelloRoundTrip(x.clientEph.pub);
  }

  lemma NoFinishNoHandshake(p: Primitives, x: Exchange)
    requires Honest(p, x)
    ensures ServerRun(p, x.server, x.serverEph, x.serverPayload, true, Frame(true, HonestSession(p, x).Hello())).outcome.Failed?
  {
    hide Frame, Unframe, MarshalClientHello, UnmarshalClientHello, MarshalServerHello, Pattern, Header;
    NothingToUnframe();
    var hello := Frame(true, HonestSession(p, x).Hello());
    assert hello + [] == hello;
    HelloFits(x.clientEph.pub);
    UnframeInvertsFrame(true, HonestSession(p, x).Hello(), []);
    ClientHelloRoundTrip(x.clientEph.pub);
  }

  lemma NothingToUnframe()
    ensures Unframe(false, []) == None
  {
  }
}
