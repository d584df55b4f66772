/** The NoiseSocket connection: legacy or negotiated handshake, then padded transport messages. */
module NoiseSocketConn {
  import opened Bytes
  import opened ByteStream
  import opened LengthPrefix
  import opened Noise
  import opened NoiseDrive
  import opened NoiseSocketFrames
  import opened Negotiation
  import Agreement = NegotiationAgreement
  import Binding = NegotiationBinding
  import PrologueHistory
  import Text = NegotiationText
  import Wire

  // ---- Transport messages ----

  const MAX_BODY: nat := MAX_LENGTH - 2 - 16

  function SealMessage(z: Library, c: CipherState, m: bytes): Option<(CipherState, bytes)> {
    match Encrypt(z, c, Uint16(|m|) + m)
    case None => None
    case Some((next, ciphertext)) => if |ciphertext| > MAX_LENGTH then None else Some((next, Frame(ciphertext)))
  }

  /** The body of a decrypted payload: what follows it is padding. */
  function Body(payload: bytes): Option<bytes> {
    if |payload| < 2 then None else
    var n := FromUint16(payload[..2]);
    if 2 + n > |payload| then None else Some(payload[2..2 + n])
  }

  function OpenMessage(z: Library, c: CipherState, wire: bytes): Option<(CipherState, bytes, bytes)> {
    match Unframe(wire)
    case None => None
    case Some((ciphertext, rest)) =>
      match Decrypt(z, c, ciphertext)
      case None => None
      case Some((next, payload)) =>
        match Body(payload)
        case None => None
        case Some(body) => Some((next, body, rest))
  }

  /** What a Read that gets no body leaves: the receiving state, and what is still to read. */
  function AfterFailure(z: Library, c: CipherState, wire: bytes): (CipherState, bytes) {
    match Unframe(wire)
    case None => (c, [])
    case Some((ciphertext, rest)) =>
      if c.n > z.maxNonce then (c, []) else
      match Decrypt(z, c, ciphertext)
      case None => (c, rest)
      case Some((next, _)) => (next, rest)
  }

  function MessageCodec(z: Library): Codec<CipherState> {
    Codec(MAX_BODY,
          (c: CipherState, m: bytes) => SealMessage(z, c, m),
          (c: CipherState, wire: bytes) => OpenMessage(z, c, wire))
  }

  /** One body: the ciphertext always fits its frame, and only the nonces can run out. */
  lemma CodecSeals(z: Library, c: CipherState, m: bytes)
    requires Lawful(z) && |m| <= 65517
    ensures MessageCodec(z).maxBody == MAX_BODY == 65517
    ensures match Encrypt(z, c, Uint16(|m|) + m)
            case None => MessageCodec(z).seal(c, m) == None
            case Some((next, ciphertext)) => |ciphertext| <= MAX_LENGTH && MessageCodec(z).seal(c, m) == Some((next, Frame(ciphertext)))
  {
    assert SealLaw(z, c.key, c.n, Uint16(|m|) + m);
  }

  /** A payload gives back a body exactly when it is that body's length, the body, and whatever padding follows. */
  lemma PaddingIsIgnored(payload: bytes, m: bytes)
    ensures Body(payload) == Some(m) <==> |m| <= MAX_LENGTH && Uint16(|m|) + m <= payload
  {
    Uint16RoundTrip(|m|);
    if Body(payload) == Some(m) {
      Uint16Inverse(payload[..2]);
      assert payload[..2 + |m|] == payload[..2] + payload[2..2 + |m|];
    }
    if |m| <= MAX_LENGTH && Uint16(|m|) + m <= payload {
      var head := Uint16(|m|) + m;
      assert payload[..|head|] == head;
      assert payload[..2] == head[..2] && payload[2..2 + |m|] == head[2..];
    }
  }

  /**
   * A framed ciphertext is taken exactly when it opens, under the next nonce and while there is one, to a payload with a
   * body, and then spends the nonce.
   */
  lemma FrameOpensIff(z: Library, c: CipherState, ciphertext: bytes, rest: bytes)
    requires |ciphertext| <= MAX_LENGTH
    ensures OpenMessage(z, c, Uint16(|ciphertext|) + ciphertext + rest)
            == if c.n > z.maxNonce then None else
               match z.open(c.key, c.n, ciphertext)
               case None => None
               case Some(payload) =>
                 match Body(payload)
                 case None => None
                 case Some(m) => Some((CipherState(c.key, c.n + 1), m, rest))
  {
    hide Unframe, Body;
    UnframeIff(Uint16(|ciphertext|) + ciphertext + rest, ciphertext, rest);
  }

  /** Every frame in flight takes one nonce: a Write of n frames moves the sender by n. */
  lemma {:induction false} NoncesCount(z: Library, c: CipherState, wire: bytes)
    ensures match InFlight(MessageCodec(z), c, wire)
            case None => true
            case Some((last, _)) => last == CipherState(c.key, c.n + |Opened(MessageCodec(z), c, wire)|)
    decreases |wire|
  {
    hide SealMessage, Body;
    if wire != [] {
      match OpenMessage(z, c, wire) {
        case None =>
        case Some((next, m, rest)) =>
          if |rest| < |wire| {
            NoncesCount(z, next, rest);
          }
      }
    } else {
      assert Unframe([]).None?;
    }
  }

  /** A frame over any payload that decrypts to `m` and padding opens to `m`. */
  lemma PaddedFrameOpens(z: Library, c: CipherState, m: bytes, padding: bytes, rest: bytes)
    requires Lawful(z) && c.n <= z.maxNonce && 2 + |m| + |padding| + TAG_SIZE <= MAX_LENGTH
    ensures OpenMessage(z, c, Frame(z.seal(c.key, c.n, Uint16(|m|) + m + padding)) + rest) == Some((Advance(c), m, rest))
  {
    hide Frame, Unframe, Body;
    var payload := Uint16(|m|) + m + padding;
    assert SealLaw(z, c.key, c.n, payload);
    UnframeInvertsFrame(z.seal(c.key, c.n, payload), rest);
    assert payload[..|Uint16(|m|) + m|] == Uint16(|m|) + m;
    PaddingIsIgnored(payload, m);
  }

  lemma MessageCodecIsFaithful(z: Library)
    requires Lawful(z)
    ensures ByteStream.Faithful(MessageCodec(z)) && MessageCodec(z).maxBody == 65517
  {
    hide Body;
    var c := MessageCodec(z);
    forall s: CipherState, m: bytes | 0 < |m| <= c.maxBody ensures Inverts(c, s, m) {
      assert SealLaw(z, s.key, s.n, Uint16(|m|) + m);
      if SealMessage(z, s, m).Some? {
        var frame := SealMessage(z, s, m).value.1;
        PaddedFrameOpens(z, s, m, [], []);
        assert Uint16(|m|) + m + [] == Uint16(|m|) + m && frame + [] == frame;
      }
    }
    forall s: CipherState, wire: bytes, more: bytes ensures Stable(c, s, wire, more) {
      if OpenMessage(z, s, wire).Some? {
        UnframeIsStable(wire, more);
      }
    }
  }

  // A body and the padding a peer chose to send with it.
  datatype Padded = Padded(body: bytes, padding: bytes)

  ghost predicate Sendable(m: Padded) {
    2 + |m.body| + |m.padding| + TAG_SIZE <= MAX_LENGTH
  }

  /** The wire of a peer that pads its messages. */
  function PaddedWire(z: Library, c: CipherState, ms: seq<Padded>): bytes
    decreases |ms|
  {
    if ms == [] then [] else
    Frame(z.seal(c.key, c.n, Uint16(|ms[0].body|) + ms[0].body + ms[0].padding)) + PaddedWire(z, Advance(c), ms[1..])
  }

  function Bodies(ms: seq<Padded>): bytes {
    if ms == [] then [] else ms[0].body + Bodies(ms[1..])
  }

  /** Padding never reaches the stream, not even when it is all there is: what is in flight is the bodies and nothing else. */
  lemma {:induction false} PaddingNeverLeaks(z: Library, c: CipherState, ms: seq<Padded>)
    requires Lawful(z) && c.n + |ms| <= z.maxNonce + 1 && forall k | 0 <= k < |ms| :: Sendable(ms[k])
    ensures InFlight(MessageCodec(z), c, PaddedWire(z, c, ms)) == Some((c.(n := c.n + |ms|), Bodies(ms)))
    decreases |ms|
  {
    hide OpenMessage, SealMessage;
    if ms != [] {
      assert Sendable(ms[0]);
      var rest := PaddedWire(z, Advance(c), ms[1..]);
      PaddedFrameOpens(z, c, ms[0].body, ms[0].padding, rest);
      PaddingNeverLeaks(z, Advance(c), ms[1..]);
    }
  }

  // ---- The handshake as a value ----

  /** What a handshake writes, what it leaves unread, and the state it ends in if it completes. */
  datatype Outcome = Outcome(sent: bytes, rest: bytes, hs: Option<HandshakeState>)

  function Finished(d: Driven): Outcome {
    Outcome(d.sent, d.rest, if d.Done() then Some(d.hs) else None)
  }

  function Negotiated(r: Run): Outcome {
    Outcome(r.sent, r.rest, if r.Done() then Some(r.final.value.driven.hs) else None)
  }

  /** The Accept-only handshake: negotiation_data on the client's first frame, compared by the server. */
  function LegacyDrive(z: Library, isClient: bool, hs: HandshakeState, initNeg: bytes, inbox: bytes): Driven {
    if isClient then
      match z.compose(hs)
      case None => Driven([], inbox, hs, Refused)
      case Some(m) =>
        var f := HandshakeFrame(initNeg, m);
        if !Fits(f) then Driven([], inbox, Extend(hs, m), Refused) else
        var tail := Drive(z, DriveFraming(), Extend(hs, m), true, [], inbox);
        tail.(sent := FrameBytes(f) + tail.sent)
    else
      match ReadFrame(inbox)
      case None => Driven([], [], hs, Starved)
      case Some((f, rest)) =>
        if f.neg == initNeg && z.accepts(hs, f.msg) then Drive(z, DriveFraming(), Extend(hs, f.msg), false, [], rest)
        else Driven([], rest, hs, Refused)
  }

  function LegacyShake(z: Library, isClient: bool, cfg: Config, initNeg: bytes, app: bytes, inbox: bytes): Driven {
    var hs := HandshakeState(cfg, BuildPrologue(initNeg, app), []);
    if z.start(cfg, hs.prologue) then LegacyDrive(z, isClient, hs, initNeg, inbox) else Driven([], inbox, hs, Refused)
  }

  /** All messages of the pattern, the first with exactly the configured negotiation_data. */
  ghost predicate OpensWith(z: Library, isClient: bool, cfg: Config, initNeg: bytes, prologue: bytes, inbox: bytes, d: Driven) {
    && d.hs.cfg == cfg && d.hs.prologue == prologue && |d.hs.log| == cfg.messages && d.hs.log != [] && |initNeg| <= MAX_LENGTH
    && var f := HandshakeFrame(initNeg, d.hs.log[0]);
       if isClient then FrameBytes(f) <= d.sent && z.compose(HandshakeState(cfg, prologue, [])) == Some(f.msg)
       else ReadFrame(inbox).Some? && ReadFrame(inbox).value.0 == f && z.accepts(HandshakeState(cfg, prologue, []), f.msg)
  }

  lemma LegacyClientOpens(z: Library, hs: HandshakeState, initNeg: bytes, inbox: bytes)
    requires hs.log == [] && hs.cfg.messages >= 1 && LegacyDrive(z, true, hs, initNeg, inbox).Done()
    ensures OpensWith(z, true, hs.cfg, initNeg, hs.prologue, inbox, LegacyDrive(z, true, hs, initNeg, inbox))
  {
    hide FrameBytes, Drive, DriveFraming;
    var m := z.compose(hs).value;
    assert Extend(hs, m).log == [m];
  }

  lemma LegacyServerOpens(z: Library, hs: HandshakeState, initNeg: bytes, inbox: bytes)
    requires hs.log == [] && hs.cfg.messages >= 1 && LegacyDrive(z, false, hs, initNeg, inbox).Done()
    ensures OpensWith(z, false, hs.cfg, initNeg, hs.prologue, inbox, LegacyDrive(z, false, hs, initNeg, inbox))
  {
    hide FrameBytes, ReadFrame, Drive, DriveFraming;
    ReadFrameFits(inbox);
    var f := ReadFrame(inbox).value.0;
    assert Extend(hs, f.msg).log == [f.msg];
  }

  /**
   * Whatever arrives, a completed legacy handshake ran under the plain prologue, and its first message went or came with
   * exactly the configured negotiation_data.
   */
  lemma LegacyKeepsTheRules(z: Library, isClient: bool, cfg: Config, initNeg: bytes, app: bytes, inbox: bytes)
    requires cfg.messages >= 1 && LegacyShake(z, isClient, cfg, initNeg, app, inbox).Done()
    ensures OpensWith(z, isClient, cfg, initNeg, Binding.ChainedPrologue(initNeg, app, []), inbox,
                      LegacyShake(z, isClient, cfg, initNeg, app, inbox))
  {
    hide FrameBytes, ReadFrame, LegacyDrive, Uint16, OpensWith;
    assert BuildPrologue(initNeg, app) + [] == BuildPrologue(initNeg, app);
    var hs := HandshakeState(cfg, BuildPrologue(initNeg, app), []);
    if isClient {
      LegacyClientOpens(z, hs, initNeg, inbox);
    } else {
      LegacyServerOpens(z, hs, initNeg, inbox);
    }
  }

  /**
   * The server of two honest legacy sides completes exactly when it expects the client's negotiation_data
   * and that fits a frame. Then both complete, with equal logs, keys and fingerprints; otherwise, if the
   * pattern has an answer to wait for, neither does.
   */
  lemma LegacyAgreement(z: Library, a: Config, b: Config, negA: bytes, negB: bytes, app: bytes, toA: bytes, toB: bytes)
    requires Interoperable(z, a, b) && a.messages >= 1
    requires toB == LegacyShake(z, true, a, negA, app, toA).sent && toA == LegacyShake(z, false, b, negB, app, toB).sent
    ensures var da, db := LegacyShake(z, true, a, negA, app, toA), LegacyShake(z, false, b, negB, app, toB);
            && (db.Done() <==> negA == negB && |negA| <= MAX_LENGTH)
            && (db.Done() ==> da.Done() && da.hs.log == db.hs.log && z.split(da.hs) == z.split(db.hs) && da.rest == db.rest == []
                              && z.channelBinding(da.hs) == z.channelBinding(db.hs))
            && (a.messages >= 2 ==> (da.Done() <==> db.Done()))
  {
    hide FrameBytes, BuildPrologue, ReadFrame, Drive, DriveFraming;
    var prologue := BuildPrologue(negA, app);
    assert HonestLog(z, a, b, prologue, []);
    assert NextMessageWorks(z, a, b, prologue, []);
    var m := z.compose(HandshakeState(a, prologue, [])).value;
    HonestLogExtends(z, a, b, prologue, [], m);
    assert [] + [m] == [m];
    var f := HandshakeFrame(negA, m);
    if Fits(f) {
      var later := Drive(z, DriveFraming(), HandshakeState(a, prologue, [m]), true, [], toA).sent;
      ReadFrameInvertsFrameBytes(f, later);
      if negA == negB {
        DriveFramingIsFaithful();
        DrivesAgree(z, DriveFraming(), a, b, prologue, [m], toA, later);
      } else if a.messages >= 2 {
        Agreement.StarvedDrive(z, HandshakeState(a, prologue, [m]));
      }
    } else {
      NothingToRead();
    }
  }

  // ---- The connection ----

  /** A pattern has at least one message. */
  ghost predicate BuildsPatterns(s: Setup) {
    forall name: bytes, initiator: bool :: s.build(name, initiator).Some? ==> s.build(name, initiator).value.messages >= 1
  }

  class Conn {
    const z: Library
    const conn: Wire.Conn
    const isClient: bool
    const cfg: Option<Config>
    const initialNegData: bytes
    const appPrologue: bytes
    // When set, the negotiated handshake runs instead of the legacy one, and builds its own configurations.
    const neg: Option<Setup>

    var hs: Option<HandshakeState>
    var handshakeDone: bool
    var incoming: CipherState
    var outgoing: CipherState
    var inputBuffer: bytes

    // What was to arrive when the handshake that completed was begun.
    ghost var heard: bytes

    constructor Legacy(z: Library, conn: Wire.Conn, isClient: bool, cfg: Config, initialNegData: bytes, appPrologue: bytes)
      ensures this.z == z && this.conn == conn && this.isClient == isClient && this.cfg == Some(cfg) && neg == None
      ensures this.initialNegData == initialNegData && this.appPrologue == appPrologue
      ensures !handshakeDone && inputBuffer == []
    {
      this.z, this.conn, this.isClient, this.cfg := z, conn, isClient, Some(cfg);
      this.initialNegData, this.appPrologue, neg := initialNegData, appPrologue, None;
      hs, handshakeDone, inputBuffer, heard := None, false, [], [];
      incoming, outgoing := CipherState(ZERO_KEY, 0), CipherState(ZERO_KEY, 0);
    }

    constructor WithNegotiation(conn: Wire.Conn, isClient: bool, neg: Setup)
      ensures z == neg.z && this.conn == conn && this.isClient == isClient && this.neg == Some(neg)
      ensures appPrologue == neg.appPrologue && !handshakeDone && inputBuffer == []
    {
      z, this.conn, this.isClient, cfg := neg.z, conn, isClient, None;
      initialNegData, appPrologue, this.neg := [], neg.appPrologue, Some(neg);
      hs, handshakeDone, inputBuffer, heard := None, false, [], [];
      incoming, outgoing := CipherState(ZERO_KEY, 0), CipherState(ZERO_KEY, 0);
    }

    ghost predicate Configured()
    {
      match neg
      case None => cfg.Some? && cfg.value.messages >= 1
      case Some(s) => s.z == z && s.appPrologue == appPrologue && BuildsPatterns(s) && (!isClient ==> s.HasTarget())
    }

    /** A completed handshake was one on what this side heard. */
    ghost predicate Valid()
      reads this, conn
    {
      && conn.Valid() && Configured()
      && (!handshakeDone ==> inputBuffer == [])
      && (handshakeDone ==> hs.Some? && ShakeOn(heard).hs == hs)
    }

    /** The handshake on what arrives. */
    ghost function ShakeOn(inbox: bytes): Outcome
      requires Configured()
    {
      match neg
      case None => Finished(LegacyShake(z, isClient, cfg.value, initialNegData, appPrologue, inbox))
      case Some(s) => Negotiated(if isClient then ClientRun(s, inbox) else ServerRun(s, inbox))
    }

    // The connection as its next Write or Read finds it, once the handshake is over. On a connection that is
    // closed before its handshake nothing is written and nothing arrives.

    ghost predicate Ready()
      reads this, conn
      requires Configured()
    {
      handshakeDone || (conn.open && ShakeOn(conn.inbox).hs.Some?)
    }

    ghost function Greeting(): bytes
      reads this, conn
      requires Configured()
    {
      if handshakeDone || !conn.open then [] else ShakeOn(conn.inbox).sent
    }

    ghost function Arriving(): bytes
      reads this, conn
      requires Configured()
    {
      if handshakeDone || !conn.open then conn.inbox else ShakeOn(conn.inbox).rest
    }

    ghost function Tx(): CipherState
      reads this, conn
      requires Configured() && Ready()
    {
      if handshakeDone then outgoing else SendState(z, isClient, ShakeOn(conn.inbox).hs.value)
    }

    ghost function Rx(): CipherState
      reads this, conn
      requires Configured() && Ready()
    {
      if handshakeDone then incoming else SendState(z, !isClient, ShakeOn(conn.inbox).hs.value)
    }

    /** By the side that dialled, not by the Noise role. */
    method AssignCipherStates(c1: Key, c2: Key)
      modifies this`incoming, this`outgoing
      ensures outgoing == CipherState(if isClient then c1 else c2, 0)
      ensures incoming == CipherState(if isClient then c2 else c1, 0)
    {
      if isClient {
        outgoing, incoming := CipherState(c1, 0), CipherState(c2, 0);
      } else {
        outgoing, incoming := CipherState(c2, 0), CipherState(c1, 0);
      }
    }

    /** What a handshake on a closed connection has left behind. */
    ghost predicate Untouched(outbox: bytes, ok: bool)
      reads this, conn
    {
      !ok && !handshakeDone && conn.inbox == [] && conn.outbox == outbox
    }

    /** What a handshake that ended as `o` has left behind. */
    ghost predicate Shaken(o: Outcome, inbox: bytes, ok: bool)
      reads this, conn
    {
      && ok == handshakeDone == o.hs.Some? && inbox == o.rest
      && (ok ==> hs == o.hs && outgoing == SendState(z, isClient, hs.value) && incoming == SendState(z, !isClient, hs.value))
    }

    /** This side's keys, once the last message of the pattern has gone through. */
    ghost predicate CiphersFollow()
      reads this
    {
      hs.Some? && |hs.value.log| == hs.value.cfg.messages ==>
        outgoing == SendState(z, isClient, hs.value) && incoming == SendState(z, !isClient, hs.value)
    }

    /** One message written, in a frame that carries `negData`. */
    method WriteTurn(negData: bytes) returns (ok: bool)
      requires hs.Some?
      modifies this`hs, this`incoming, this`outgoing, conn`outbox
      ensures match z.compose(old(hs).value)
              case None => !ok && hs == old(hs) && conn.outbox == old(conn.outbox)
              case Some(m) =>
                var f := HandshakeFrame(negData, m);
                && ok == (Fits(f) && conn.open) && hs == Some(Extend(old(hs).value, m))
                && conn.outbox == old(conn.outbox) + (if ok then FrameBytes(f) else [])
      ensures ok ==> CiphersFollow()
    {
      hide FrameBytes;
      var written := WriteMessage(z, hs.value);
      if written.None? {
        return false;
      }
      var (msg, next, last) := written.value;
      hs := Some(next);
      ok := WriteFrameAndRecord(conn, HandshakeFrame(negData, msg));
      if ok && last.Some? {
        AssignCipherStates(last.value.0, last.value.1);
      }
    }

    /** One message taken in. */
    method ReadTurn(message: bytes) returns (ok: bool)
      requires hs.Some?
      modifies this`hs, this`incoming, this`outgoing
      ensures ok == z.accepts(old(hs).value, message)
      ensures hs == if ok then Some(Extend(old(hs).value, message)) else old(hs)
      ensures ok ==> CiphersFollow()
    {
      var read := ReadMessage(z, hs.value, message);
      if read.None? {
        return false;
      }
      hs, ok := Some(read.value.0), true;
      if read.value.1.Some? {
        AssignCipherStates(read.value.1.value.0, read.value.1.value.1);
      }
    }

    /** The remaining messages of a handshake, from `startIndex` on. */
    method DriveFrom(start: HandshakeState, total: nat, initiator: bool, startIndex: nat, pending: bytes) returns (ok: bool)
      requires conn.open && !handshakeDone && total == start.cfg.messages && |start.log| == startIndex < total
      modifies this`hs, this`handshakeDone, this`incoming, this`outgoing, conn
      ensures var d := Drive(z, DriveFraming(), start, initiator, pending, old(conn.inbox));
              && conn.open && conn.outbox == old(conn.outbox) + d.sent && Shaken(Finished(d), conn.inbox, ok)
    {
      hide Drive, DrivingOnCourse, FrameBytes, ReadFrame, SendState;
      hs := Some(start);
      ghost var f, whole, sent := DriveFraming(), Drive(z, DriveFraming(), start, initiator, pending, conn.inbox), [];
      DrivingStarts(z, f, start, initiator, pending, conn.inbox);
      var first := pending;
      for i := startIndex to total
        invariant conn.open && !handshakeDone && hs.Some? && hs.value.cfg == start.cfg && |hs.value.log| == i
        invariant conn.outbox == old(conn.outbox) + sent
        invariant DrivingOnCourse(z, f, whole, hs.value, initiator, first, conn.inbox, sent)
        invariant i > startIndex ==> CiphersFollow()
      {
        DrivingContinues(z, f, whole, hs.value, initiator, first, conn.inbox, sent);
        if (i % 2 == 0) == initiator {
          var put := WriteTurn([]);
          if !put {
            return false;
          }
          sent := sent + FrameBytes(HandshakeFrame([], hs.value.log[i]));
        } else {
          var message := first;
          if first != [] {
            first := [];
          } else {
            var frame, got := ReadHandshakeFrame(conn);
            if !got {
              return false;
            }
            message := frame.msg;
          }
          var taken := ReadTurn(message);
          if !taken {
            return false;
          }
        }
      }
      DrivingContinues(z, f, whole, hs.value, initiator, first, conn.inbox, sent);
      handshakeDone := true;
      ok := true;
    }

    /** Message 0 of an attempt as Noise initiator, and its frame on the wire. */
    method OpenAttempt(proto: bytes, initNeg: bytes, transcript: bytes, ghost dead: seq<HandshakeFrame>)
      returns (proposal: Option<(HandshakeState, HandshakeFrame)>)
      requires Configured() && neg.Some? && transcript == EncodeAll(dead)
      modifies conn`outbox
      ensures proposal == if conn.open then Propose(neg.value, proto, initNeg, dead) else None
      ensures conn.outbox == old(conn.outbox) + (if proposal.Some? then FrameBytes(proposal.value.1) else [])
    {
      hide FrameBytes, BuildPrologue, EncodeAll;
      var config := neg.value.build(proto, true);
      if config.None? {
        return None;
      }
      var start := NewHandshakeState(z, config.value, BuildPrologue(initNeg, appPrologue) + transcript);
      if start.None? {
        return None;
      }
      var written := WriteMessage(z, start.value);
      if written.None? {
        return None;
      }
      var (msg, next, last) := written.value;
      if last.Some? {
        return None;
      }
      var f := HandshakeFrame(initNeg, msg);
      var put := WriteFrameAndRecord(conn, f);
      return if put then Some((next, f)) else None;
    }

    /** An attempt as Noise responder, message 0 in hand. */
    method JoinAttempt(proto: bytes, initNeg: bytes, transcript: bytes, ghost dead: seq<HandshakeFrame>, pending: bytes)
      returns (ok: bool)
      requires Configured() && neg.Some? && conn.open && !handshakeDone && transcript == EncodeAll(dead)
      modifies this`hs, this`handshakeDone, this`incoming, this`outgoing, conn
      ensures conn.open
      ensures match Join(neg.value, proto, initNeg, dead, pending, old(conn.inbox))
              case None => !ok && !handshakeDone && conn.outbox == old(conn.outbox) && conn.inbox == old(conn.inbox)
              case Some(d) => conn.outbox == old(conn.outbox) + d.sent && Shaken(Finished(d), conn.inbox, ok)
    {
      hide Drive, DriveFraming, BuildPrologue, EncodeAll, SendState;
      var config := neg.value.build(proto, false);
      if config.None? {
        return false;
      }
      var start := NewHandshakeState(z, config.value, BuildPrologue(initNeg, appPrologue) + transcript);
      if start.None? {
        return false;
      }
      ok := DriveFrom(start.value, config.value.messages, false, 0, pending);
    }

    /** The client's reaction to the answer `reply`: a retry names the next protocol, anything else is final. */
    method ReactTo(state: HandshakeState, f: HandshakeFrame, reply: HandshakeFrame, transcript: bytes,
                   ghost attempt: nat, ghost proto: bytes, ghost dead: seq<HandshakeFrame>)
      returns (retry: Option<bytes>, ok: bool)
      requires Configured() && neg.Some? && isClient && conn.open && !handshakeDone && attempt < MAX_ATTEMPTS
      requires |state.log| == 1 < state.cfg.messages && transcript == EncodeAll(dead)
      modifies this`hs, this`handshakeDone, this`incoming, this`outgoing, conn
      ensures conn.open && (retry.Some? <==> AsksToRetry(neg.value, reply))
      ensures match retry
              case Some(next) =>
                !handshakeDone && next == Text.Parse(reply.neg).value.proto
                && conn.outbox == old(conn.outbox) && conn.inbox == old(conn.inbox)
              case None =>
                var r := React(neg.value, attempt, proto, dead, state, f, reply, old(conn.inbox));
                conn.outbox == old(conn.outbox) + r.sent && Shaken(Negotiated(r), conn.inbox, ok)
    {
      hide Drive, DriveFraming, FrameBytes, SendState, Text.Parse, Join, Initiate, EncodeAll;
      var s := neg.value;
      retry, ok := None, false;
      if |reply.neg| == 0 {
        ok := DriveFrom(state, state.cfg.messages, true, 1, reply.msg);
        return;
      }
      var resp := Text.ParseNeg(reply.neg);
      if resp.Err? {
        return;
      }
      match resp.value.action {
        case Retry =>
          if s.Allowed(resp.value.proto) {
            retry := Some(resp.value.proto);
          }
        case Switch =>
          if s.Allowed(resp.value.proto) {
            EncodeMore(dead, f, f);
            ok := JoinAttempt(resp.value.proto, reply.neg, transcript + FrameBytes(f), dead + [f], reply.msg);
          }
        case _ =>
      }
    }

    /** Propose a protocol, then react to the answer. */
    method NegotiateInitiator() returns (ok: bool)
      requires Configured() && conn.Valid() && neg.Some? && isClient && !handshakeDone
      modifies this`hs, this`handshakeDone, this`incoming, this`outgoing, conn
      ensures conn.open == old(conn.open)
      ensures conn.open ==>
                var r := ClientRun(neg.value, old(conn.inbox));
                conn.outbox == old(conn.outbox) + r.sent && Shaken(Negotiated(r), conn.inbox, ok)
      ensures !conn.open ==> Untouched(old(conn.outbox), ok)
    {
      hide Drive, FrameBytes, ReadFrame, SendState, Text.EncodeProposal, Text.Parse, Propose, Initiate, React, EncodeAll;
      var s := neg.value;
      var proto, transcript: bytes := s.proposed, [];
      ghost var dead, whole := [], ClientRun(s, conn.inbox);
      ghost var total := conn.outbox + whole.sent;
      EmptyTranscript(dead);
      for attempt := 0 to MAX_ATTEMPTS
        invariant conn.open == old(conn.open) && !handshakeDone && transcript == EncodeAll(dead)
        invariant !conn.open ==> conn.inbox == [] && conn.outbox == old(conn.outbox)
        invariant OnCourse(whole, total, conn.outbox, Initiate(s, attempt, proto, dead, conn.inbox))
      {
        InitiatingSteps(s, whole, total, conn.outbox, attempt, proto, dead, conn.inbox);
        var proposal := OpenAttempt(proto, Text.EncodeProposal(proto, s.appData), transcript, dead);
        if proposal.None? {
          return false;
        }
        var (state, f) := proposal.value;
        ProposedState(s, proto, f.neg, dead);
        var reply, got := ReadHandshakeFrame(conn);
        if !got {
          return false;
        }
        var retry;
        retry, ok := ReactTo(state, f, reply, transcript, attempt, proto, dead);
        if retry.None? {
          return;
        }
        EncodeMore(dead, f, reply);
        transcript := transcript + (FrameBytes(f) + FrameBytes(reply));
        ReactionRetries(s, attempt, proto, dead, state, f, reply, conn.inbox);
        dead := dead + [f, reply];
        proto := retry.value;
      }
      InitiatingEnds(s, whole, total, conn.outbox, proto, dead, conn.inbox);
      return false;
    }

    /** The server's answer to a proposal of `proto`: after a retry frame it waits again, anything else is final. */
    method AnswerTo(f: HandshakeFrame, proto: bytes, transcript: bytes, ghost attempt: nat, ghost dead: seq<HandshakeFrame>)
      returns (again: bool, ok: bool)
      requires Configured() && neg.Some? && !isClient && conn.open && !handshakeDone && attempt < MAX_ATTEMPTS
      requires transcript == EncodeAll(dead)
      modifies this`hs, this`handshakeDone, this`incoming, this`outgoing, conn
      ensures conn.open && (again <==> AnswersRetry(neg.value, proto))
      ensures again ==>
                && !handshakeDone && conn.outbox == old(conn.outbox) + FrameBytes(RetryFrame(neg.value.supported[0]))
                && conn.inbox == old(conn.inbox)
      ensures !again ==>
                var r := Answer(neg.value, attempt, dead, f, proto, old(conn.inbox));
                conn.outbox == old(conn.outbox) + r.sent && Shaken(Negotiated(r), conn.inbox, ok)
    {
      hide Drive, DriveFraming, FrameBytes, SendState, Propose, Join, Respond, EncodeAll, SwitchNeg, RetryFrame, RejectFrame;
      var s := neg.value;
      again, ok := false, false;
      if s.Supports(proto) {
        ok := JoinAttempt(proto, f.neg, transcript, dead, f.msg);
        return;
      }
      match s.policy {
        case RetryPolicy =>
          again := WriteFrameAndRecord(conn, RetryFrame(s.supported[0]));
        case SwitchPolicy =>
          var target := s.supported[0];
          EncodeMore(dead, f, f);
          var proposal := OpenAttempt(target, SwitchNeg(target), transcript + FrameBytes(f), dead + [f]);
          if proposal.Some? {
            ProposedState(s, target, SwitchNeg(target), dead + [f]);
            ok := DriveFrom(proposal.value.0, proposal.value.0.cfg.messages, true, 1, []);
          }
        case OtherPolicy =>
        case _ =>
          var _ := WriteFrameAndRecord(conn, RejectFrame(s, proto));
      }
    }

    /** Accept what is proposed, or apply the policy for what is not supported. */
    method NegotiateResponder() returns (ok: bool)
      requires Configured() && conn.Valid() && neg.Some? && !isClient && !handshakeDone
      modifies this`hs, this`handshakeDone, this`incoming, this`outgoing, conn
      ensures conn.open == old(conn.open)
      ensures conn.open ==>
                var r := ServerRun(neg.value, old(conn.inbox));
                conn.outbox == old(conn.outbox) + r.sent && Shaken(Negotiated(r), conn.inbox, ok)
      ensures !conn.open ==> Untouched(old(conn.outbox), ok)
    {
      hide Drive, FrameBytes, ReadFrame, SendState, Text.Parse, Respond, Answer, EncodeAll, RetryFrame;
      var s := neg.value;
      var transcript: bytes := [];
      ghost var dead, whole := [], ServerRun(s, conn.inbox);
      ghost var total := conn.outbox + whole.sent;
      EmptyTranscript(dead);
      for attempt := 0 to MAX_ATTEMPTS
        invariant conn.open == old(conn.open) && !handshakeDone && transcript == EncodeAll(dead)
        invariant !conn.open ==> conn.inbox == [] && conn.outbox == old(conn.outbox)
        invariant OnCourse(whole, total, conn.outbox, Respond(s, attempt, dead, conn.inbox))
      {
        RespondingSteps(s, whole, total, conn.outbox, attempt, dead, conn.inbox);
        NothingToRead();
        var f, got := ReadHandshakeFrame(conn);
        if !got {
          return false;
        }
        var prop := Text.ParseNeg(f.neg);
        if prop.Err? || prop.value.action != Text.Proposal {
          return false;
        }
        ghost var outbox := conn.outbox;
        var again;
        again, ok := AnswerTo(f, prop.value.proto, transcript, attempt, dead);
        if !again {
          return;
        }
        var reply := RetryFrame(s.supported[0]);
        EncodeMore(dead, f, reply);
        transcript := transcript + (FrameBytes(f) + FrameBytes(reply));
        AnswerRetries(s, whole, total, outbox, attempt, dead, f, prop.value.proto, conn.inbox);
        dead := dead + [f, reply];
      }
      RespondingEnds(s, whole, total, conn.outbox, dead, conn.inbox);
      return false;
    }

    /** The Accept-only loop over the messages of the pattern, the client writing the first one. */
    method HandshakeLegacy() returns (ok: bool)
      requires Configured() && conn.Valid() && neg.None? && !handshakeDone
      modifies this`hs, this`handshakeDone, this`incoming, this`outgoing, conn
      ensures conn.open == old(conn.open)
      ensures conn.open ==>
                var d := LegacyShake(z, isClient, cfg.value, initialNegData, appPrologue, old(conn.inbox));
                conn.outbox == old(conn.outbox) + d.sent && Shaken(Finished(d), conn.inbox, ok)
      ensures !conn.open ==> Untouched(old(conn.outbox), ok)
    {
      hide LegacyDrive, LegacyOnCourse, FrameBytes, ReadFrame, SendState, BuildPrologue;
      hs := NewHandshakeState(z, cfg.value, BuildPrologue(initialNegData, appPrologue));
      if hs.None? {
        return false;
      }
      ghost var whole, sent := LegacyDrive(z, isClient, hs.value, initialNegData, conn.inbox), [];
      LegacyBegins(z, isClient, initialNegData, hs.value, conn.inbox);
      NothingToRead();
      var state := isClient;
      for i := 0 to cfg.value.messages
        invariant conn.open == old(conn.open) && !handshakeDone && hs.Some? && hs.value.cfg == cfg.value && |hs.value.log| == i
        invariant !conn.open ==> i == 0 && conn.inbox == [] && sent == []
        invariant state == ((i % 2 == 0) == isClient)
        invariant conn.outbox == old(conn.outbox) + sent
        invariant LegacyOnCourse(z, isClient, initialNegData, whole, hs.value, conn.inbox, sent)
        invariant i > 0 ==> CiphersFollow()
      {
        LegacyContinues(z, isClient, initialNegData, whole, hs.value, conn.inbox, sent);
        if state {
          var negData := if i == 0 && isClient then initialNegData else [];
          var put := WriteTurn(negData);
          if !put {
            return false;
          }
          sent := sent + FrameBytes(HandshakeFrame(negData, hs.value.log[i]));
        } else {
          var frame, got := ReadHandshakeFrame(conn);
          if !got {
            return false;
          }
          if i == 0 && !isClient && frame.neg != initialNegData {
            return false;
          }
          var taken := ReadTurn(frame.msg);
          if !taken {
            return false;
          }
        }
        state := !state;
      }
      LegacyContinues(z, isClient, initialNegData, whole, hs.value, conn.inbox, sent);
      handshakeDone := true;
      ok := true;
    }

    method Handshake() returns (ok: bool)
      requires Valid()
      modifies this`hs, this`handshakeDone, this`incoming, this`outgoing, this`heard, conn
      ensures Valid() && conn.open == old(conn.open) && ok == handshakeDone == old(Ready())
      ensures conn.outbox == old(conn.outbox) + old(Greeting()) && conn.inbox == old(Arriving())
      ensures ok ==> Tx() == old(Tx()) && Rx() == old(Rx())
      ensures heard == if ok && !old(handshakeDone) then old(conn.inbox) else old(heard)
    {
      hide LegacyShake, ClientRun, ServerRun, SendState;
      if handshakeDone {
        return true;
      }
      ghost var inbox := conn.inbox;
      if neg.None? {
        ok := HandshakeLegacy();
      } else if isClient {
        ok := NegotiateInitiator();
      } else {
        ok := NegotiateResponder();
      }
      if ok {
        heard := inbox;
      }
    }

    /** The fingerprint of the handshake this side ran on what it heard; zero until then. */
    method Fingerprint() returns (h: Key)
      requires Valid()
      ensures h == if handshakeDone then z.channelBinding(ShakeOn(heard).hs.value) else ZERO_KEY
    {
      hide LegacyShake, ClientRun, ServerRun;
      if !handshakeDone || hs.None? {
        return ZERO_KEY;
      }
      h := z.channelBinding(hs.value);
    }

    /** After the handshake, one `Send` of the stream model; nonce exhaustion closes the connection. */
    method Write(p: bytes) returns (n: nat, ok: bool)
      requires Valid() && Lawful(z)
      modifies this`hs, this`handshakeDone, this`incoming, this`outgoing, this`heard, conn
      ensures Valid() && handshakeDone == old(Ready())
      ensures !old(Ready()) ==> n == 0 && !ok && conn.outbox == old(conn.outbox) + old(Greeting())
      ensures old(Ready()) && old(conn.open) ==>
                var s := Send(MessageCodec(z), old(Tx()), p);
                && n == s.n && ok == s.ok
                && conn.outbox == old(conn.outbox) + old(Greeting()) + s.wire
                && Tx() == s.state && Rx() == old(Rx())
                && conn.open == ok && (ok ==> conn.inbox == old(Arriving()))
      ensures old(Ready()) && !old(conn.open) ==>
                && n == 0 && (ok <==> p == []) && !conn.open && conn.outbox == old(conn.outbox)
                && Rx() == old(Rx()) && Tx() == Spent(z, old(Tx()), p)
    {
      hide LegacyShake, ClientRun, ServerRun, SendState, Send, BuildsPatterns;
      var shaken := Handshake();
      if !shaken {
        return 0, false;
      }
      n, ok := WriteChunks(p);
    }

    /** The loop of Write: one message for every 65517 bytes, the last one shorter. */
    method WriteChunks(p: bytes) returns (n: nat, ok: bool)
      requires conn.Valid() && Lawful(z)
      modifies this`outgoing, conn
      ensures conn.Valid()
      ensures old(conn.open) ==>
                var s := Send(MessageCodec(z), old(outgoing), p);
                && n == s.n && ok == s.ok && conn.outbox == old(conn.outbox) + s.wire && outgoing == s.state
                && conn.open == ok && (ok ==> conn.inbox == old(conn.inbox))
      ensures !old(conn.open) ==>
                && n == 0 && (ok <==> p == []) && !conn.open && conn.outbox == old(conn.outbox)
                && outgoing == Spent(z, old(outgoing), p)
    {
      hide Send, SendingOnCourse, Frame, MessageCodec, SealMessage, Lawful, Uint16;
      ghost var c, start, sent := MessageCodec(z), outgoing, [];
      CodecSeals(z, start, []);
      SendingStarts(c, start, p);
      var rest := p;
      n := 0;
      while |rest| > 0
        invariant n <= |p| && rest == p[n..]
        invariant conn.open == old(conn.open) && conn.inbox == old(conn.inbox) && conn.outbox == old(conn.outbox) + sent
        invariant SendingOnCourse(c, start, p, n, outgoing, sent)
        invariant !conn.open ==> n == 0 && outgoing == start && sent == []
        decreases |rest|
      {
        var m := if |rest| > MAX_BODY then MAX_BODY else |rest|;
        SendingContinues(c, start, p, n, outgoing, sent, m);
        assert rest[..m] == p[n..n + m];
        CodecSeals(z, outgoing, rest[..m]);
        var plaintext := Uint16(m) + rest[..m];
        var encrypted := Encrypt(z, outgoing, plaintext);
        if encrypted.None? {
          conn.Close();
          return n, false;
        }
        var ciphertext := encrypted.value.1;
        outgoing := encrypted.value.0;
        if |ciphertext| > MAX_LENGTH {
          return n, false;
        }
        var put := conn.Write(Frame(ciphertext));
        if !put {
          return n, false;
        }
        sent := sent + Frame(ciphertext);
        n := n + m;
        rest := rest[m..];
      }
      SendingEnds(c, start, p, outgoing, sent);
      ok := true;
    }

    /**
     * After the handshake, one `Receive` of the stream model into `p`. A failed Read delivers nothing, and the
     * next one goes on behind what it consumed.
     */
    method Read(p: array<byte>) returns (n: nat, ok: bool)
      requires Valid()
      modifies this, conn, p
      ensures Valid() && handshakeDone == old(Ready()) && n <= p.Length && p[n..] == old(p[n..])
      ensures conn.outbox == old(conn.outbox) + old(Greeting())
      ensures !old(Ready()) ==> n == 0 && !ok
      ensures old(Ready()) ==>
                var r := Receive(MessageCodec(z), old(Rx()), old(inputBuffer), old(Arriving()), p.Length);
                && ok == r.ok && p[..n] == r.data && inputBuffer == r.buffer && Tx() == old(Tx())
                && (Rx(), conn.inbox) == (if ok then (r.state, r.wire) else AfterFailure(z, old(Rx()), old(Arriving())))
                && (conn.open <==> old(conn.open) && (ok || !Terminates(z, old(Rx()), old(Arriving()))))
    {
      hide LegacyShake, ClientRun, ServerRun, SendState, BuildsPatterns, OpenMessage, AfterFailure, Terminates;
      var shaken := Handshake();
      if !shaken {
        return 0, false;
      }
      if p.Length == 0 {
        return 0, true;
      }
      if |inputBuffer| > 0 {
        n := CopyInto(p, 0, inputBuffer);
        inputBuffer := inputBuffer[n..];
        return n, true;
      }
      var body := FetchBody();
      if body.None? {
        return 0, false;
      }
      n := CopyInto(p, 0, body.value);
      inputBuffer := if n < |body.value| then inputBuffer + body.value[n..] else inputBuffer;
      ok := true;
    }

    /** The part of Read that takes one message off the wire. */
    method FetchBody() returns (body: Option<bytes>)
      requires conn.Valid()
      modifies this`incoming, conn
      ensures conn.outbox == old(conn.outbox) && conn.Valid()
      ensures match OpenMessage(z, old(incoming), old(conn.inbox))
              case Some((next, m, rest)) => body == Some(m) && incoming == next && conn.inbox == rest && conn.open == old(conn.open)
              case None =>
                && body == None && (incoming, conn.inbox) == AfterFailure(z, old(incoming), old(conn.inbox))
                && (conn.open <==> old(conn.open) && !Terminates(z, old(incoming), old(conn.inbox)))
    {
      var ciphertext, got := ReadLengthPrefixed(conn);
      if !got {
        return None;
      }
      if incoming.n > z.maxNonce {
        conn.Close();
        return None;
      }
      var decrypted := Decrypt(z, incoming, ciphertext);
      if decrypted.None? {
        return None;
      }
      incoming := decrypted.value.0;
      var plaintext := decrypted.value.1;
      if |plaintext| < 2 {
        return None;
      }
      var bodyLen := FromUint16(plaintext[..2]);
      if 2 + bodyLen > |plaintext| {
        return None;
      }
      body := Some(plaintext[2..2 + bodyLen]);
    }
  }

  /** A negotiation whose connection holds `outbox` and will go on as `tail` is the run `whole`, which fills it to `total`. */
  ghost predicate OnCourse(whole: Run, total: bytes, outbox: bytes, tail: Run) {
    total == outbox + tail.sent && whole.rest == tail.rest && whole.final == tail.final
  }

  ghost predicate Stopped(whole: Run, total: bytes, outbox: bytes, rest: bytes) {
    total == outbox && whole.rest == rest && whole.final == None
  }

  lemma FailureStops(whole: Run, total: bytes, outbox: bytes, rest: bytes)
    requires OnCourse(whole, total, outbox, Failed(rest))
    ensures Stopped(whole, total, outbox, rest)
  {
    assert outbox + [] == outbox;
  }

  lemma InitiatingSteps(s: Setup, whole: Run, total: bytes, outbox: bytes, n: nat, proto: bytes, dead: seq<HandshakeFrame>, inbox: bytes)
    requires n < MAX_ATTEMPTS && OnCourse(whole, total, outbox, Initiate(s, n, proto, dead, inbox))
    ensures match Propose(s, proto, Text.EncodeProposal(proto, s.appData), dead)
            case None => Stopped(whole, total, outbox, inbox)
            case Some((hs, f)) =>
              match ReadFrame(inbox)
              case None => Stopped(whole, total, outbox + FrameBytes(f), [])
              case Some((reply, rest)) =>
                OnCourse(whole, total, outbox + FrameBytes(f), React(s, n, proto, dead, hs, f, reply, rest))
  {
    hide Propose, Text.EncodeProposal, ReadFrame, FrameBytes, React;
    match Propose(s, proto, Text.EncodeProposal(proto, s.appData), dead) {
      case None => FailureStops(whole, total, outbox, inbox);
      case Some((hs, f)) =>
        match ReadFrame(inbox) {
          case None =>
          case Some((reply, rest)) =>
            var tail := React(s, n, proto, dead, hs, f, reply, rest);
            assert outbox + (FrameBytes(f) + tail.sent) == outbox + FrameBytes(f) + tail.sent;
        }
    }
  }

  lemma InitiatingEnds(s: Setup, whole: Run, total: bytes, outbox: bytes, proto: bytes, dead: seq<HandshakeFrame>, inbox: bytes)
    requires OnCourse(whole, total, outbox, Initiate(s, MAX_ATTEMPTS, proto, dead, inbox))
    ensures Stopped(whole, total, outbox, inbox)
  {
    FailureStops(whole, total, outbox, inbox);
  }

  /** A retry, to the protocol the client proposed first or one of its fallbacks. */
  predicate AsksToRetry(s: Setup, reply: HandshakeFrame) {
    && reply.neg != [] && Text.Parse(reply.neg).Ok? && Text.Parse(reply.neg).value.action == Text.Retry
    && var name := Text.Parse(reply.neg).value.proto; name == s.proposed || name in s.fallback
  }

  lemma ReactionRetries(s: Setup, n: nat, proto: bytes, dead: seq<HandshakeFrame>, hs: HandshakeState,
                        f: HandshakeFrame, reply: HandshakeFrame, rest: bytes)
    requires n < MAX_ATTEMPTS && AsksToRetry(s, reply)
    ensures React(s, n, proto, dead, hs, f, reply, rest)
            == Initiate(s, n + 1, Text.Parse(reply.neg).value.proto, dead + [f, reply], rest)
  {
    hide Text.Parse, Initiate;
  }

  lemma RespondingSteps(s: Setup, whole: Run, total: bytes, outbox: bytes, n: nat, dead: seq<HandshakeFrame>, inbox: bytes)
    requires n < MAX_ATTEMPTS && s.HasTarget() && OnCourse(whole, total, outbox, Respond(s, n, dead, inbox))
    ensures match ReadFrame(inbox)
            case None => Stopped(whole, total, outbox, [])
            case Some((f, rest)) =>
              match Text.Parse(f.neg)
              case Err(_) => Stopped(whole, total, outbox, rest)
              case Ok(prop) =>
                if prop.action != Text.Proposal then Stopped(whole, total, outbox, rest)
                else OnCourse(whole, total, outbox, Answer(s, n, dead, f, prop.proto, rest))
  {
    hide ReadFrame, Text.Parse, Answer;
    assert outbox + [] == outbox;
  }

  lemma RespondingEnds(s: Setup, whole: Run, total: bytes, outbox: bytes, dead: seq<HandshakeFrame>, inbox: bytes)
    requires s.HasTarget() && OnCourse(whole, total, outbox, Respond(s, MAX_ATTEMPTS, dead, inbox))
    ensures Stopped(whole, total, outbox, inbox)
  {
    FailureStops(whole, total, outbox, inbox);
  }

  predicate AnswersRetry(s: Setup, proto: bytes)
    requires s.HasTarget()
  {
    proto !in s.supported && s.policy == RetryPolicy && Fits(RetryFrame(s.supported[0]))
  }

  lemma AnswerRetries(s: Setup, whole: Run, total: bytes, outbox: bytes, n: nat, dead: seq<HandshakeFrame>, f: HandshakeFrame,
                      proto: bytes, rest: bytes)
    requires n < MAX_ATTEMPTS && s.HasTarget() && AnswersRetry(s, proto)
    requires OnCourse(whole, total, outbox, Answer(s, n, dead, f, proto, rest))
    ensures var reply := RetryFrame(s.supported[0]);
            OnCourse(whole, total, outbox + FrameBytes(reply), Respond(s, n + 1, dead + [f, reply], rest))
  {
    hide FrameBytes, RetryFrame, Respond;
    var reply := RetryFrame(s.supported[0]);
    var tail := Respond(s, n + 1, dead + [f, reply], rest);
    assert outbox + (FrameBytes(reply) + tail.sent) == outbox + FrameBytes(reply) + tail.sent;
  }

  /** The state behind a proposal that went out: one message in, at least one to go. */
  lemma ProposedState(s: Setup, proto: bytes, neg: bytes, dead: seq<HandshakeFrame>)
    requires BuildsPatterns(s) && Propose(s, proto, neg, dead).Some?
    ensures var (hs, f) := Propose(s, proto, neg, dead).value;
            |hs.log| == 1 < hs.cfg.messages && f.neg == neg
  {
    hide PrologueWith;
  }

  /** The transcript grown by one frame, and by two. */
  lemma EncodeMore(dead: seq<HandshakeFrame>, f: HandshakeFrame, g: HandshakeFrame)
    ensures EncodeAll(dead + [f]) == EncodeAll(dead) + FrameBytes(f)
    ensures EncodeAll(dead + [f, g]) == EncodeAll(dead) + (FrameBytes(f) + FrameBytes(g))
  {
    hide FrameBytes;
    EncodeAppends(dead, [f]);
    EncodeAppends(dead, [f, g]);
    assert [f, g][1..] == [g] && EncodeAll([g]) == FrameBytes(g) + EncodeAll([g][1..]);
    assert FrameBytes(f) + [] == FrameBytes(f) && FrameBytes(g) + [] == FrameBytes(g);
  }

  /** A legacy handshake that has written `sent` and now holds `hs` will end as `whole`. */
  ghost predicate LegacyOnCourse(z: Library, isClient: bool, initNeg: bytes, whole: Driven, hs: HandshakeState,
                                 inbox: bytes, sent: bytes)
  {
    if hs.log == [] then whole == LegacyDrive(z, isClient, hs, initNeg, inbox) && sent == []
    else DrivingOnCourse(z, DriveFraming(), whole, hs, isClient, [], inbox, sent)
  }

  /** The negotiation_data on the next frame of the legacy handshake. */
  function LegacyNeg(isClient: bool, initNeg: bytes, hs: HandshakeState): bytes {
    if hs.log == [] && isClient then initNeg else []
  }

  lemma LegacyContinues(z: Library, isClient: bool, initNeg: bytes, whole: Driven, hs: HandshakeState, inbox: bytes, sent: bytes)
    requires hs.cfg.messages >= 1 && LegacyOnCourse(z, isClient, initNeg, whole, hs, inbox, sent)
    ensures |hs.log| >= hs.cfg.messages ==> whole == Driven(sent, inbox, hs, Complete)
    ensures |hs.log| < hs.cfg.messages && (|hs.log| % 2 == 0) == isClient ==>
              match z.compose(hs)
              case None => whole == Driven(sent, inbox, hs, Refused)
              case Some(m) =>
                var f := HandshakeFrame(LegacyNeg(isClient, initNeg, hs), m);
                if Fits(f) then LegacyOnCourse(z, isClient, initNeg, whole, Extend(hs, m), inbox, sent + FrameBytes(f))
                else whole == Driven(sent, inbox, Extend(hs, m), Refused)
    ensures |hs.log| < hs.cfg.messages && (|hs.log| % 2 == 0) != isClient ==>
              match ReadFrame(inbox)
              case None => whole == Driven(sent, [], hs, Starved)
              case Some((f, rest)) =>
                if (hs.log == [] ==> f.neg == initNeg) && z.accepts(hs, f.msg)
                then LegacyOnCourse(z, isClient, initNeg, whole, Extend(hs, f.msg), rest, sent)
                else whole == Driven(sent, rest, hs, Refused)
  {
    hide Drive, DrivingOnCourse, FrameBytes, ReadFrame;
    if hs.log != [] {
      DrivingContinues(z, DriveFraming(), whole, hs, isClient, [], inbox, sent);
    } else if isClient {
      match z.compose(hs) {
        case None =>
        case Some(m) =>
          var f := HandshakeFrame(initNeg, m);
          assert [] + FrameBytes(f) == FrameBytes(f);
          LegacyOpens(z, true, whole, Extend(hs, m), FrameBytes(f), inbox);
      }
    } else {
      match ReadFrame(inbox) {
        case None =>
        case Some((f, rest)) =>
          assert [] + Drive(z, DriveFraming(), Extend(hs, f.msg), false, [], rest).sent
                 == Drive(z, DriveFraming(), Extend(hs, f.msg), false, [], rest).sent;
          LegacyOpens(z, false, whole, Extend(hs, f.msg), [], rest);
      }
    }
  }

  lemma LegacyBegins(z: Library, isClient: bool, initNeg: bytes, hs: HandshakeState, inbox: bytes)
    requires hs.log == []
    ensures LegacyOnCourse(z, isClient, initNeg, LegacyDrive(z, isClient, hs, initNeg, inbox), hs, inbox, [])
  {
  }

  /** After the first message the legacy handshake is a drive. */
  lemma LegacyOpens(z: Library, isClient: bool, whole: Driven, hs: HandshakeState, sent: bytes, inbox: bytes)
    ensures var tail := Drive(z, DriveFraming(), hs, isClient, [], inbox);
            whole == tail.(sent := sent + tail.sent) ==> DrivingOnCourse(z, DriveFraming(), whole, hs, isClient, [], inbox, sent)
  {
    hide Drive;
  }

  // ---- Both ends together ----

  /** Two final states that split to the same pair of keys, one on each side of a stream. */
  lemma CrossedCiphersCarryAStream(z: Library, client: HandshakeState, server: HandshakeState, ops: seq<Op>, fromClient: bool)
    requires Lawful(z) && z.split(client) == z.split(server)
    ensures var tx := SendState(z, fromClient, if fromClient then client else server);
            var rx := SendState(z, fromClient, if fromClient then server else client);
            && tx == rx == CipherState(if fromClient then z.split(client).0 else z.split(client).1, 0)
            && Conserved(MessageCodec(z), ByteStream.Run(MessageCodec(z), Link(tx, rx, [], [], [], []), ops))
  {
    var tx := SendState(z, fromClient, client);
    MessageCodecIsFaithful(z);
    StreamConserved(MessageCodec(z), Link(tx, tx, [], [], [], []), ops);
  }

  /**
   * The whole negotiated connection: whenever the two settings have a deal, accepted, retried or
   * switched, the ciphers end up crossed although they are assigned by who dialled and not by the
   * Noise role, and in either direction any Writes and Reads conserve the stream.
   */
  lemma NegotiatedConnectionIsAStream(c: Setup, s: Setup, toC: bytes, toS: bytes, ops: seq<Op>, fromClient: bool)
    requires Agreement.Paired(c, s) && Lawful(c.z) && Agreement.Decide(c, s).Some?
    requires toS == ClientRun(c, toC).sent && toC == ServerRun(s, toS).sent
    ensures var client, server := Negotiated(ClientRun(c, toC)).hs, Negotiated(ServerRun(s, toS)).hs;
            && client.Some? && server.Some?
            && var tx := SendState(c.z, fromClient, if fromClient then client.value else server.value);
               var rx := SendState(c.z, fromClient, if fromClient then server.value else client.value);
               Conserved(MessageCodec(c.z), ByteStream.Run(MessageCodec(c.z), Link(tx, rx, [], [], [], []), ops))
  {
    hide ClientRun, ServerRun, Agreement.Decide, SendState;
    Agreement.NegotiationRefinesDecision(c, s, toC, toS);
    var client, server := Negotiated(ClientRun(c, toC)).hs.value, Negotiated(ServerRun(s, toS)).hs.value;
    CrossedCiphersCarryAStream(c.z, client, server, ops, fromClient);
  }

  /** The whole legacy connection, for sides given the same negotiation_data. */
  lemma LegacyConnectionIsAStream(z: Library, a: Config, b: Config, initNeg: bytes, app: bytes, toA: bytes, toB: bytes,
                                  ops: seq<Op>, fromClient: bool)
    requires Interoperable(z, a, b) && a.messages >= 1 && Lawful(z) && |initNeg| <= MAX_LENGTH
    requires toB == LegacyShake(z, true, a, initNeg, app, toA).sent && toA == LegacyShake(z, false, b, initNeg, app, toB).sent
    ensures var client, server := LegacyShake(z, true, a, initNeg, app, toA), LegacyShake(z, false, b, initNeg, app, toB);
            && client.Done() && server.Done()
            && var tx := SendState(z, fromClient, if fromClient then client.hs else server.hs);
               var rx := SendState(z, fromClient, if fromClient then server.hs else client.hs);
               Conserved(MessageCodec(z), ByteStream.Run(MessageCodec(z), Link(tx, rx, [], [], [], []), ops))
  {
    hide LegacyShake, SendState;
    LegacyAgreement(z, a, b, initNeg, initNeg, app, toA, toB);
    var client, server := LegacyShake(z, true, a, initNeg, app, toA), LegacyShake(z, false, b, initNeg, app, toB);
    CrossedCiphersCarryAStream(z, client.hs, server.hs, ops, fromClient);
  }

  // ---- What two users learn by comparing fingerprints ----

  /** The final handshake of a negotiating connection. */
  ghost function FinalOf(conn: Conn): Option<Final>
    requires conn.Configured() && conn.neg.Some?
    reads conn
  {
    (if conn.isClient then ClientRun(conn.neg.value, conn.heard) else ServerRun(conn.neg.value, conn.heard)).final
  }

  /**
   * Whatever the network did to either of them, two connections with equal fingerprints chose the same
   * protocol, share the opening negotiation_data and took opposite Noise roles; and unless one application
   * prologue can imitate the other, they have the same history.
   */
  lemma FingerprintsRuleOutDowngrade(client: Conn, server: Conn)
    requires client.Valid() && server.Valid() && client.handshakeDone && server.handshakeDone
    requires client.isClient && !server.isClient && client.neg.Some? && server.neg.Some? && client.z == server.z
    requires NamesAreClean(client.neg.value) && NamesAreClean(server.neg.value)
    requires var h, k := client.ShakeOn(client.heard).hs.value, server.ShakeOn(server.heard).hs.value;
             Binding.NoCollision(client.z, h, k) && client.z.channelBinding(h) == client.z.channelBinding(k)
    ensures FinalOf(client).Some? && FinalOf(server).Some?
    ensures var f, g := FinalOf(client).value, FinalOf(server).value;
            && f.attempt.neg == g.attempt.neg && f.proto == g.proto && f.initiator != g.initiator
            && (!PrologueHistory.Imitable(client.appPrologue, server.appPrologue) ==> f.attempt == g.attempt)
  {
    hide ClientRun, ServerRun, PrologueHistory.Imitable;
    Binding.EqualFingerprintsRuleOutDowngrade(client.neg.value, server.neg.value, client.heard, server.heard);
  }

  /** And two connections that settled with each other over FIFO channels do have equal fingerprints. */
  lemma FingerprintsAgree(client: Conn, server: Conn)
    requires client.Valid() && server.Valid() && client.handshakeDone && server.handshakeDone
    requires client.isClient && !server.isClient && client.neg.Some? && server.neg.Some?
    requires Agreement.Paired(client.neg.value, server.neg.value)
    requires server.heard == client.ShakeOn(client.heard).sent && client.heard == server.ShakeOn(server.heard).sent
    ensures client.z.channelBinding(client.ShakeOn(client.heard).hs.value)
            == server.z.channelBinding(server.ShakeOn(server.heard).hs.value)
  {
    hide ClientRun, ServerRun, Agreement.Decide;
    Agreement.NegotiationRefinesDecision(client.neg.value, server.neg.value, client.heard, server.heard);
  }
}
