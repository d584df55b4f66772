/** The three-act BOLT-8 handshake: both parties' runs, agreement, and channel binding. */
module Bolt8Handshake {
  import opened Bytes
  import opened Bolt8Primitives
  import Wire

  const ACT_SIZE: nat := 50
  const ACT_THREE_SIZE: nat := 66

  /**
   * One party's view of a handshake: the values that crossed the wire (`initiatorStatic` encrypted
   * as `sealedStatic`) and the three shared secrets as that party computed them.
   */
  datatype Session = Session(
    responderStatic: Point,
    initiatorEphemeral: Point,
    tagOne: bytes,
    responderEphemeral: Point,
    tagTwo: bytes,
    sealedStatic: bytes,
    initiatorStatic: Point,
    es: bytes,
    ee: bytes,
    se: bytes)
  {
    // The handshake hash after each value it absorbs, in order.
    function HashOne(p: Primitives): Key { MixHash(p, InitialState(p, responderStatic).0, initiatorEphemeral) }
    function HashTwo(p: Primitives): Key { MixHash(p, HashOne(p), tagOne) }
    function HashThree(p: Primitives): Key { MixHash(p, HashTwo(p), responderEphemeral) }
    function HashFour(p: Primitives): Key { MixHash(p, HashThree(p), tagTwo) }
    function FinalHash(p: Primitives): Key { MixHash(p, HashFour(p), sealedStatic) }

    // The chaining key and the temporary key after each secret.
    function ChainOne(p: Primitives): (Key, Key) { p.hkdf(InitialState(p, responderStatic).1, es) }
    function ChainTwo(p: Primitives): (Key, Key) { p.hkdf(ChainOne(p).0, ee) }
    function ChainThree(p: Primitives): (Key, Key) { p.hkdf(ChainTwo(p).0, se) }

    // What the party that makes a ciphertext puts in its place.
    function SealTagOne(p: Primitives): Session { this.(tagOne := p.seal(ChainOne(p).1, 0, HashOne(p), [])) }
    function SealTagTwo(p: Primitives): Session { this.(tagTwo := p.seal(ChainTwo(p).1, 0, HashThree(p), [])) }
    function SealStatic(p: Primitives): Session {
      this.(sealedStatic := p.seal(ChainTwo(p).1, 1, HashFour(p), initiatorStatic))
    }

    function ActOne(): bytes { [0] + initiatorEphemeral + tagOne }
    function ActTwo(): bytes { [0] + responderEphemeral + tagTwo }
    function ActThree(p: Primitives): bytes {
      [0] + sealedStatic + p.seal(ChainThree(p).1, 0, FinalHash(p), [])
    }

    /** Every ciphertext is the one the protocol prescribes for the hash and key at that point. */
    ghost predicate Sealed(p: Primitives) {
      && tagOne == p.seal(ChainOne(p).1, 0, HashOne(p), [])
      && tagTwo == p.seal(ChainTwo(p).1, 0, HashThree(p), [])
      && sealedStatic == p.seal(ChainTwo(p).1, 1, HashFour(p), initiatorStatic)
    }
  }

  datatype Outcome = Failed | Done(ck: Key, hash: Key, remoteStatic: Point)

  // What a run writes, what it leaves unread, and how it ends.
  datatype Run = Run(sent: bytes, rest: bytes, outcome: Outcome)

  // ---- Initiator ----

  // Stands for a point that has not been read yet.
  function NoPoint(): Point { seq(POINT_SIZE, _ => 0) }

  function InitiatorSession(p: Primitives, localStatic: Scalar, remoteStatic: Point, ephemeral: Scalar,
                            re: Point, tagTwo: bytes): Session
  {
    var ownStatic := p.publicKey(localStatic);
    var v := Session(remoteStatic, p.publicKey(ephemeral), [], re, tagTwo, [], ownStatic,
                     p.ecdh(ephemeral, remoteStatic), p.ecdh(ephemeral, re), p.ecdh(localStatic, re));
    v.SealTagOne(p).SealStatic(p)
  }

  /** A reply the initiator goes on with: version 0, a curve point, and a tag that authenticates. */
  predicate ActTwoAccepted(p: Primitives, v: Session, act: bytes) {
    && |act| == ACT_SIZE && act[0] == 0
    && ParsePoint(p, act[1..34]).Some?
    && Decrypt(p, v.ChainTwo(p).1, 0, v.HashThree(p), act[34..]).Some?
  }

  function Initiate(p: Primitives, localStatic: Scalar, remoteStatic: Point, ephemeral: Scalar, inbox: bytes): (r: Run)
    ensures r.outcome.Done? ==> r.outcome.remoteStatic == remoteStatic
  {
    if |inbox| < ACT_SIZE then
      var v := InitiatorSession(p, localStatic, remoteStatic, ephemeral, NoPoint(), []);
      Run(v.ActOne(), [], Failed)
    else
      var act := inbox[..ACT_SIZE];
      var v := InitiatorSession(p, localStatic, remoteStatic, ephemeral, act[1..34], act[34..]);
      if ActTwoAccepted(p, v, act) then
        Run(v.ActOne() + v.ActThree(p), inbox[ACT_SIZE..], Done(v.ChainThree(p).0, v.FinalHash(p), remoteStatic))
      else
        Run(v.ActOne(), inbox[ACT_SIZE..], Failed)
  }

  method RunInitiator(p: Primitives, conn: Wire.Conn, localStatic: Scalar, remoteStatic: Point, ephemeral: Scalar)
    returns (outcome: Outcome)
    modifies conn
    ensures !old(conn.open) ==> outcome.Failed? && conn.outbox == old(conn.outbox) && conn.inbox == old(conn.inbox)
    ensures old(conn.open) ==>
              var run := Initiate(p, localStatic, remoteStatic, ephemeral, old(conn.inbox));
              outcome == run.outcome && conn.outbox == old(conn.outbox) + run.sent && conn.inbox == run.rest
    ensures conn.open == old(conn.open)
  {
    var (h, ck) := InitialState(p, remoteStatic);
    var ePub := p.publicKey(ephemeral);
    h := MixHash(p, h, ePub);

    // Act one.
    var es := p.ecdh(ephemeral, remoteStatic);
    var (ck1, tempK1) := p.hkdf(ck, es);
    var c := p.seal(tempK1, 0, h, []);
    h := MixHash(p, h, c);
    var sent := conn.Write([0] + ePub + c);
    if !sent {
      return Failed;
    }

    // Act two.
    var buf, got := conn.ReadFull(ACT_SIZE);
    if !got || buf[0] != 0 {
      return Failed;
    }
    var re := ParsePoint(p, buf[1..34]);
    if re.None? {
      return Failed;
    }
    h := MixHash(p, h, buf[1..34]);
    var ee := p.ecdh(ephemeral, re.value);
    var (ck2, tempK2) := p.hkdf(ck1, ee);
    if Decrypt(p, tempK2, 0, h, buf[34..]).None? {
      return Failed;
    }
    h := MixHash(p, h, buf[34..]);

    // Act three.
    var cStatic := p.seal(tempK2, 1, h, p.publicKey(localStatic));
    h := MixHash(p, h, cStatic);
    var se := p.ecdh(localStatic, re.value);
    var (ck3, tempK3) := p.hkdf(ck2, se);
    var tag := p.seal(tempK3, 0, h, []);
    sent := conn.Write([0] + cStatic + tag);
    if !sent {
      return Failed;
    }
    outcome := Done(ck3, h, remoteStatic);
  }

  // ---- Responder ----

  function ResponderSession(p: Primitives, localStatic: Scalar, ephemeral: Scalar, actOne: bytes,
                            sealedStatic: bytes, initiatorStatic: Point): Session
    requires |actOne| == ACT_SIZE
  {
    var ie := actOne[1..34];
    var v := Session(p.publicKey(localStatic), ie, actOne[34..], p.publicKey(ephemeral), [],
                     sealedStatic, initiatorStatic,
                     p.ecdh(localStatic, ie), p.ecdh(ephemeral, ie), p.ecdh(ephemeral, initiatorStatic));
    v.SealTagTwo(p)
  }

  predicate ActOneAccepted(p: Primitives, v: Session, act: bytes) {
    && |act| == ACT_SIZE && act[0] == 0
    && ParsePoint(p, act[1..34]).Some?
    && Decrypt(p, v.ChainOne(p).1, 0, v.HashOne(p), act[34..]).Some?
  }

  /** The initiator's static key, when act three's first part decrypts to a curve point. */
  function RecoverStatic(p: Primitives, v: Session, act: bytes): Option<Point>
    requires |act| == ACT_THREE_SIZE
  {
    if act[0] != 0 then None else
    match Decrypt(p, v.ChainTwo(p).1, 1, v.HashFour(p), act[1..50])
    case None => None
    case Some(plain) => if |plain| == POINT_SIZE then ParsePoint(p, plain) else None
  }

  function Respond(p: Primitives, localStatic: Scalar, ephemeral: Scalar, inbox: bytes): Run {
    if |inbox| < ACT_SIZE then Run([], [], Failed) else
    var actOne, later := inbox[..ACT_SIZE], inbox[ACT_SIZE..];
    var v := ResponderSession(p, localStatic, ephemeral, actOne, [], NoPoint());
    if !ActOneAccepted(p, v, actOne) then Run([], later, Failed) else
    if |later| < ACT_THREE_SIZE then Run(v.ActTwo(), [], Failed) else
    var actThree, rest := later[..ACT_THREE_SIZE], later[ACT_THREE_SIZE..];
    match RecoverStatic(p, v, actThree)
    case None => Run(v.ActTwo(), rest, Failed)
    case Some(rs) =>
      var w := ResponderSession(p, localStatic, ephemeral, actOne, actThree[1..50], rs);
      if Decrypt(p, w.ChainThree(p).1, 0, w.FinalHash(p), actThree[50..]).Some?
      then Run(v.ActTwo(), rest, Done(w.ChainThree(p).0, w.FinalHash(p), rs))
      else Run(v.ActTwo(), rest, Failed)
  }

  method RunResponder(p: Primitives, conn: Wire.Conn, localStatic: Scalar, ephemeral: Scalar)
    returns (outcome: Outcome)
    requires conn.Valid()
    modifies conn
    ensures !old(conn.open) ==> outcome.Failed? && conn.outbox == old(conn.outbox) && conn.inbox == []
    ensures old(conn.open) ==>
              var run := Respond(p, localStatic, ephemeral, old(conn.inbox));
              outcome == run.outcome && conn.outbox == old(conn.outbox) + run.sent && conn.inbox == run.rest
    ensures conn.open == old(conn.open)
  {
    var (h, ck) := InitialState(p, p.publicKey(localStatic));

    // Act one.
    var buf, got := conn.ReadFull(ACT_SIZE);
    if !got || buf[0] != 0 {
      return Failed;
    }
    var re := ParsePoint(p, buf[1..34]);
    if re.None? {
      return Failed;
    }
    h := MixHash(p, h, buf[1..34]);
    var es := p.ecdh(localStatic, re.value);
    var (ck1, tempK1) := p.hkdf(ck, es);
    if Decrypt(p, tempK1, 0, h, buf[34..]).None? {
      return Failed;
    }
    h := MixHash(p, h, buf[34..]);

    // Act two.
    var ePub := p.publicKey(ephemeral);
    h := MixHash(p, h, ePub);
    var ee := p.ecdh(ephemeral, re.value);
    var (ck2, tempK2) := p.hkdf(ck1, ee);
    var c := p.seal(tempK2, 0, h, []);
    h := MixHash(p, h, c);
    var sent := conn.Write([0] + ePub + c);
    if !sent {
      return Failed;
    }

    // Act three.
    var buf3, got3 := conn.ReadFull(ACT_THREE_SIZE);
    if !got3 || buf3[0] != 0 {
      return Failed;
    }
    var rsBytes := Decrypt(p, tempK2, 1, h, buf3[1..50]);
    if rsBytes.None? || |rsBytes.value| != POINT_SIZE {
      return Failed;
    }
    var remoteStatic := ParsePoint(p, rsBytes.value);
    if remoteStatic.None? {
      return Failed;
    }
    h := MixHash(p, h, buf3[1..50]);
    var se := p.ecdh(ephemeral, remoteStatic.value);
    var (ck3, tempK3) := p.hkdf(ck2, se);
    if Decrypt(p, tempK3, 0, h, buf3[50..]).None? {
      return Failed;
    }
    outcome := Done(ck3, h, remoteStatic.value);
  }

  // ---- What each completed run has checked ----

  function InitiatorView(p: Primitives, localStatic: Scalar, remoteStatic: Point, ephemeral: Scalar, inbox: bytes): Session
    requires |inbox| >= ACT_SIZE
  {
    InitiatorSession(p, localStatic, remoteStatic, ephemeral, inbox[1..34], inbox[34..ACT_SIZE])
  }

  function ResponderView(p: Primitives, localStatic: Scalar, ephemeral: Scalar, inbox: bytes, initiatorStatic: Point): Session
    requires |inbox| >= ACT_SIZE + ACT_THREE_SIZE
  {
    ResponderSession(p, localStatic, ephemeral, inbox[..ACT_SIZE], inbox[ACT_SIZE..][1..50], initiatorStatic)
  }

  /** An initiator that finishes holds a fully sealed session, and returns its hash and chaining key. */
  lemma InitiatorCompletes(p: Primitives, localStatic: Scalar, remoteStatic: Point, ephemeral: Scalar, inbox: bytes)
    requires Lawful(p)
    requires Initiate(p, localStatic, remoteStatic, ephemeral, inbox).outcome.Done?
    ensures |inbox| >= ACT_SIZE
    ensures var v := InitiatorView(p, localStatic, remoteStatic, ephemeral, inbox);
            v.Sealed(p) && inbox[..ACT_SIZE] == v.ActTwo()
            && Initiate(p, localStatic, remoteStatic, ephemeral, inbox)
               == Run(v.ActOne() + v.ActThree(p), inbox[ACT_SIZE..],
                      Done(v.ChainThree(p).0, v.FinalHash(p), remoteStatic))
  {
    var act := inbox[..ACT_SIZE];
    var v := InitiatorView(p, localStatic, remoteStatic, ephemeral, inbox);
    assert act[1..34] == inbox[1..34] && act[34..] == inbox[34..ACT_SIZE];
    DecryptedWasSealed(p, v.ChainTwo(p).1, 0, v.HashThree(p), act[34..]);
    assert act == [0] + act[1..34] + act[34..];
  }

  /** The same for a responder; its inbox must have been the initiator's two acts for that session. */
  lemma ResponderCompletes(p: Primitives, localStatic: Scalar, ephemeral: Scalar, inbox: bytes)
    requires Lawful(p)
    requires Respond(p, localStatic, ephemeral, inbox).outcome.Done?
    ensures |inbox| >= ACT_SIZE + ACT_THREE_SIZE
    ensures var rs := Respond(p, localStatic, ephemeral, inbox).outcome.remoteStatic;
            var v := ResponderView(p, localStatic, ephemeral, inbox, rs);
            v.Sealed(p)
            && inbox[..ACT_SIZE + ACT_THREE_SIZE] == v.ActOne() + v.ActThree(p)
            && Respond(p, localStatic, ephemeral, inbox)
               == Run(v.ActTwo(), inbox[ACT_SIZE + ACT_THREE_SIZE..],
                      Done(v.ChainThree(p).0, v.FinalHash(p), rs))
  {
    var actOne, later := inbox[..ACT_SIZE], inbox[ACT_SIZE..];
    var actThree := later[..ACT_THREE_SIZE];
    var rs := Respond(p, localStatic, ephemeral, inbox).outcome.remoteStatic;
    var v := ResponderView(p, localStatic, ephemeral, inbox, rs);
    assert actThree[1..50] == later[1..50];
    DecryptedWasSealed(p, v.ChainOne(p).1, 0, v.HashOne(p), actOne[34..]);
    DecryptedWasSealed(p, v.ChainTwo(p).1, 1, v.HashFour(p), actThree[1..50]);
    DecryptedWasSealed(p, v.ChainThree(p).1, 0, v.FinalHash(p), actThree[50..]);
    assert actOne == [0] + actOne[1..34] + actOne[34..];
    assert actThree == [0] + actThree[1..50] + actThree[50..];
    assert inbox[..ACT_SIZE + ACT_THREE_SIZE] == actOne + actThree;
    assert later[ACT_THREE_SIZE..] == inbox[ACT_SIZE + ACT_THREE_SIZE..];
  }

  // ---- The protocol in straight lines ----

  /**
   * Section "Handshake Exchange" of BOLT #8 for the initiator: act two must be `act`, and then the chaining key
   * is `ck`, the hash `h`, and what was sent in the two own acts is `sent`. The three secrets are the ephemeral
   * with the responder's static key, ephemeral with ephemeral, and the own static key with the ephemeral.
   */
  ghost predicate InitiatorFollows(p: Primitives, localStatic: Scalar, remoteStatic: Point, ephemeral: Scalar, act: bytes,
                                   ck: Key, h: Key, sent: bytes)
    requires |act| == ACT_SIZE
  {
    var e, re := p.publicKey(ephemeral), act[1..34];
    var ck0 := p.sha256(p.protocolName);
    var h0 := p.sha256(p.sha256(ck0 + p.prologue) + remoteStatic);
    var (ck1, k1) := p.hkdf(ck0, p.ecdh(ephemeral, remoteStatic));
    var h1 := p.sha256(h0 + e);
    var c1 := p.seal(k1, 0, h1, []);
    var h2 := p.sha256(p.sha256(h1 + c1) + re);
    var (ck2, k2) := p.hkdf(ck1, p.ecdh(ephemeral, re));
    var h3 := p.sha256(h2 + act[34..50]);
    var c3 := p.seal(k2, 1, h3, p.publicKey(localStatic));
    var (ck3, k3) := p.hkdf(ck2, p.ecdh(localStatic, re));
    && act[0] == 0 && p.onCurve(re) && p.open(k2, 0, h2, act[34..50]) == Some([])
    && ck == ck3 && h == p.sha256(h3 + c3)
    && sent == [0] + e + c1 + ([0] + c3 + p.seal(k3, 0, h, []))
  }

  /** The same for the responder, on the two acts it reads; `rs` is the initiator's static key. */
  ghost predicate ResponderFollows(p: Primitives, localStatic: Scalar, ephemeral: Scalar, actOne: bytes, actThree: bytes,
                                   rs: Point, ck: Key, h: Key, sent: bytes)
    requires |actOne| == ACT_SIZE && |actThree| == ACT_THREE_SIZE
  {
    var e, re := p.publicKey(ephemeral), actOne[1..34];
    var ck0 := p.sha256(p.protocolName);
    var h0 := p.sha256(p.sha256(ck0 + p.prologue) + p.publicKey(localStatic));
    var (ck1, k1) := p.hkdf(ck0, p.ecdh(localStatic, re));
    var h1 := p.sha256(h0 + re);
    var h2 := p.sha256(p.sha256(h1 + actOne[34..50]) + e);
    var (ck2, k2) := p.hkdf(ck1, p.ecdh(ephemeral, re));
    var c2 := p.seal(k2, 0, h2, []);
    var h3 := p.sha256(h2 + c2);
    var (ck3, k3) := p.hkdf(ck2, p.ecdh(ephemeral, rs));
    && actOne[0] == 0 && p.onCurve(re) && p.open(k1, 0, h1, actOne[34..50]) == Some([])
    && actThree[0] == 0 && p.onCurve(rs) && p.open(k2, 1, h3, actThree[1..50]) == Some(rs)
    && ck == ck3 && h == p.sha256(h3 + actThree[1..50])
    && p.open(k3, 0, h, actThree[50..66]) == Some([])
    && sent == [0] + e + c2
  }

  /** The initiator ends with these keys exactly when the protocol gives them, and then has sent just its two acts. */
  lemma InitiatorIsBolt(p: Primitives, localStatic: Scalar, remoteStatic: Point, ephemeral: Scalar, inbox: bytes,
                        ck: Key, h: Key, sent: bytes)
    ensures Initiate(p, localStatic, remoteStatic, ephemeral, inbox)
            == Run(sent, if |inbox| >= ACT_SIZE then inbox[ACT_SIZE..] else [], Done(ck, h, remoteStatic))
            <==> |inbox| >= ACT_SIZE
                 && InitiatorFollows(p, localStatic, remoteStatic, ephemeral, inbox[..ACT_SIZE], ck, h, sent)
  {
    if |inbox| >= ACT_SIZE {
      var act := inbox[..ACT_SIZE];
      assert act[34..] == act[34..50];
    }
  }

  lemma ResponderIsBolt(p: Primitives, localStatic: Scalar, ephemeral: Scalar, inbox: bytes, rs: Point, ck: Key, h: Key, sent: bytes)
    ensures Respond(p, localStatic, ephemeral, inbox)
            == Run(sent, if |inbox| >= ACT_SIZE + ACT_THREE_SIZE then inbox[ACT_SIZE + ACT_THREE_SIZE..] else [], Done(ck, h, rs))
            <==> |inbox| >= ACT_SIZE + ACT_THREE_SIZE
                 && ResponderFollows(p, localStatic, ephemeral, inbox[..ACT_SIZE], inbox[ACT_SIZE..ACT_SIZE + ACT_THREE_SIZE],
                                     rs, ck, h, sent)
  {
    if |inbox| >= ACT_SIZE + ACT_THREE_SIZE {
      var one, later := inbox[..ACT_SIZE], inbox[ACT_SIZE..];
      var three := later[..ACT_THREE_SIZE];
      assert three == inbox[ACT_SIZE..ACT_SIZE + ACT_THREE_SIZE];
      assert later[ACT_THREE_SIZE..] == inbox[ACT_SIZE + ACT_THREE_SIZE..];
      assert one[34..] == one[34..50] && three[50..] == three[50..66];
    }
  }

  // ---- Agreement over a faithful channel ----

  /** The one session two honest parties share. */
  function HonestSession(p: Primitives, initiatorStatic: Scalar, responderStatic: Scalar,
                         initiatorEphemeral: Scalar, responderEphemeral: Scalar): Session
  {
    var v := InitiatorSession(p, initiatorStatic, p.publicKey(responderStatic), initiatorEphemeral,
                              p.publicKey(responderEphemeral), []);
    v.SealTagTwo(p).SealStatic(p)
  }

  /** The responder accepts act one of the shared session, whatever follows it. */
  lemma ResponderTakesActOne(p: Primitives, si: Scalar, sr: Scalar, ei: Scalar, er: Scalar, later: bytes)
    requires Lawful(p)
    ensures var v := HonestSession(p, si, sr, ei, er);
            var run := Respond(p, sr, er, v.ActOne() + later);
            |v.ActOne()| == ACT_SIZE && run.sent == v.ActTwo() && |v.ActTwo()| == ACT_SIZE
  {
    var v := HonestSession(p, si, sr, ei, er);
    DecryptInvertsSeal(p, v.ChainOne(p).1, 0, v.HashOne(p), []);
    DecryptInvertsSeal(p, v.ChainTwo(p).1, 0, v.HashThree(p), []);
    assert EcdhLaw(p, ei, sr) && EcdhLaw(p, ei, er);
    var inbox := v.ActOne() + later;
    assert inbox[..ACT_SIZE] == v.ActOne();
    assert v.ActOne()[1..34] == v.initiatorEphemeral && v.ActOne()[34..] == v.tagOne;
  }

  /** The initiator accepts act two of the shared session and then sends its act three. */
  lemma InitiatorTakesActTwo(p: Primitives, si: Scalar, sr: Scalar, ei: Scalar, er: Scalar)
    requires Lawful(p)
    ensures var v := HonestSession(p, si, sr, ei, er);
            |v.ActTwo()| == ACT_SIZE
            && Initiate(p, si, p.publicKey(sr), ei, v.ActTwo())
               == Run(v.ActOne() + v.ActThree(p), [], Done(v.ChainThree(p).0, v.FinalHash(p), p.publicKey(sr)))
  {
    var v := HonestSession(p, si, sr, ei, er);
    DecryptInvertsSeal(p, v.ChainTwo(p).1, 0, v.HashThree(p), []);
    var act := v.ActTwo();
    assert act[..ACT_SIZE] == act && act[1..34] == v.responderEphemeral && act[34..] == v.tagTwo;
    assert act[ACT_SIZE..] == [];
  }

  /** The responder accepts act three as well and recovers the initiator's static key. */
  lemma ResponderTakesActThree(p: Primitives, si: Scalar, sr: Scalar, ei: Scalar, er: Scalar)
    requires Lawful(p)
    ensures var v := HonestSession(p, si, sr, ei, er);
            Respond(p, sr, er, v.ActOne() + v.ActThree(p))
            == Run(v.ActTwo(), [], Done(v.ChainThree(p).0, v.FinalHash(p), p.publicKey(si)))
  {
    var v := HonestSession(p, si, sr, ei, er);
    var three := v.ActThree(p);
    ResponderTakesActOne(p, si, sr, ei, er, three);
    DecryptInvertsSeal(p, v.ChainTwo(p).1, 1, v.HashFour(p), v.initiatorStatic);
    DecryptInvertsSeal(p, v.ChainThree(p).1, 0, v.FinalHash(p), []);
    assert EcdhLaw(p, ei, sr) && EcdhLaw(p, ei, er) && EcdhLaw(p, si, er);
    var inbox := v.ActOne() + three;
    assert inbox[..ACT_SIZE] == v.ActOne() && inbox[ACT_SIZE..] == three;
    assert v.ActOne()[1..34] == v.initiatorEphemeral && v.ActOne()[34..] == v.tagOne;
    assert three[..ACT_THREE_SIZE] == three && three[ACT_THREE_SIZE..] == [];
    assert three[1..50] == v.sealedStatic;
    assert three[50..] == p.seal(v.ChainThree(p).1, 0, v.FinalHash(p), []);
  }

  /**
   * Agreement: whenever each party's inbox is exactly what the other one writes, both finish, with
   * the same chaining key and hash, and each with the other's static key. Such inboxes exist and
   * there is only one pair of them.
   */
  lemma HandshakeAgreement(p: Primitives, si: Scalar, sr: Scalar, ei: Scalar, er: Scalar,
                           toInitiator: bytes, toResponder: bytes)
    requires Lawful(p)
    ensures var i := Initiate(p, si, p.publicKey(sr), ei, toInitiator);
            var r := Respond(p, sr, er, toResponder);
            var v := HonestSession(p, si, sr, ei, er);
            (toResponder == i.sent && toInitiator == r.sent)
            <==> (toInitiator == v.ActTwo() && toResponder == v.ActOne() + v.ActThree(p))
    ensures var i := Initiate(p, si, p.publicKey(sr), ei, toInitiator);
            var r := Respond(p, sr, er, toResponder);
            toResponder == i.sent && toInitiator == r.sent ==>
              && i.outcome.Done? && r.outcome.Done?
              && i.outcome.ck == r.outcome.ck && i.outcome.hash == r.outcome.hash
              && i.outcome.remoteStatic == p.publicKey(sr)
              && r.outcome.remoteStatic == p.publicKey(si)
              && i.rest == r.rest == []
  {
    var i := Initiate(p, si, p.publicKey(sr), ei, toInitiator);
    var v := HonestSession(p, si, sr, ei, er);
    InitiatorTakesActTwo(p, si, sr, ei, er);
    ResponderTakesActThree(p, si, sr, ei, er);
    if toResponder == i.sent {
      assert |v.ActOne()| <= |i.sent| && i.sent[..|v.ActOne()|] == v.ActOne();
      assert toResponder == v.ActOne() + toResponder[|v.ActOne()|..];
      ResponderTakesActOne(p, si, sr, ei, er, toResponder[|v.ActOne()|..]);
    }
  }

  // ---- Channel binding ----

  /** Everything a session's final hash is a hash of, from the responder's static key on. */
  function HashInputs(p: Primitives, v: Session): (r: seq<bytes>)
    ensures |r| == 6
  {
    [MixHash(p, p.sha256(p.protocolName), p.prologue) + v.responderStatic,
     InitialState(p, v.responderStatic).0 + v.initiatorEphemeral,
     v.HashOne(p) + v.tagOne,
     v.HashTwo(p) + v.responderEphemeral,
     v.HashThree(p) + v.tagTwo,
     v.HashFour(p) + v.sealedStatic]
  }

  /** SHA-256 does not collide on the inputs these two sessions feed to it at the same step. */
  predicate NoCollision(p: Primitives, v: Session, w: Session) {
    forall k | 0 <= k < 6 ::
      p.sha256(HashInputs(p, v)[k]) == p.sha256(HashInputs(p, w)[k]) ==> HashInputs(p, v)[k] == HashInputs(p, w)[k]
  }

  /** Equal final hashes: every value that crossed the wire, and every intermediate hash, is equal. */
  lemma EqualHashesEqualTranscripts(p: Primitives, v: Session, w: Session)
    requires v.FinalHash(p) == w.FinalHash(p) && NoCollision(p, v, w)
    requires |v.tagOne| == |w.tagOne| && |v.tagTwo| == |w.tagTwo| && |v.sealedStatic| == |w.sealedStatic|
    ensures v.responderStatic == w.responderStatic
    ensures v.initiatorEphemeral == w.initiatorEphemeral && v.responderEphemeral == w.responderEphemeral
    ensures v.tagOne == w.tagOne && v.tagTwo == w.tagTwo && v.sealedStatic == w.sealedStatic
    ensures v.HashThree(p) == w.HashThree(p) && v.HashFour(p) == w.HashFour(p)
  {
    var a, b := HashInputs(p, v), HashInputs(p, w);
    assert a[5] == b[5];
    SplitEqual(v.HashFour(p), v.sealedStatic, w.HashFour(p), w.sealedStatic);
    assert a[4] == b[4];
    SplitEqual(v.HashThree(p), v.tagTwo, w.HashThree(p), w.tagTwo);
    assert a[3] == b[3];
    SplitEqual(v.HashTwo(p), v.responderEphemeral, w.HashTwo(p), w.responderEphemeral);
    assert a[2] == b[2];
    SplitEqual(v.HashOne(p), v.tagOne, w.HashOne(p), w.tagOne);
    assert a[1] == b[1];
    SplitEqual(InitialState(p, v.responderStatic).0, v.initiatorEphemeral,
               InitialState(p, w.responderStatic).0, w.initiatorEphemeral);
    assert a[0] == b[0];
    var h := MixHash(p, p.sha256(p.protocolName), p.prologue);
    SplitEqual(h, v.responderStatic, h, w.responderStatic);
  }

  lemma SealIsInjective(p: Primitives, k: Key, n: nat, ad: bytes, m: bytes, m': bytes)
    requires Lawful(p) && p.seal(k, n, ad, m) == p.seal(k, n, ad, m')
    ensures m == m'
  {
    assert SealLaw(p, k, n, ad, m) && SealLaw(p, k, n, ad, m');
  }

  /**
   * Channel binding, against any network: two runs that both finish with the same handshake hash
   * were one session. The initiator talked to the responder's own static key, both saw the same
   * ephemerals, the chaining keys agree, and the responder recovered the initiator's static key.
   */
  lemma ChannelBinding(p: Primitives, si: Scalar, remote: Point, ei: Scalar, toInitiator: bytes,
                       sr: Scalar, er: Scalar, toResponder: bytes)
    requires Lawful(p)
    requires Initiate(p, si, remote, ei, toInitiator).outcome.Done?
    requires Respond(p, sr, er, toResponder).outcome.Done?
    requires Initiate(p, si, remote, ei, toInitiator).outcome.hash == Respond(p, sr, er, toResponder).outcome.hash
    requires |toInitiator| >= ACT_SIZE && |toResponder| >= ACT_SIZE + ACT_THREE_SIZE
    requires NoCollision(p, InitiatorView(p, si, remote, ei, toInitiator),
                         ResponderView(p, sr, er, toResponder, Respond(p, sr, er, toResponder).outcome.remoteStatic))
    ensures remote == p.publicKey(sr)
    ensures Respond(p, sr, er, toResponder).outcome.remoteStatic == p.publicKey(si)
    ensures Initiate(p, si, remote, ei, toInitiator).outcome.ck == Respond(p, sr, er, toResponder).outcome.ck
    ensures toInitiator[1..34] == p.publicKey(er) && toResponder[1..34] == p.publicKey(ei)
    ensures toInitiator[..ACT_SIZE] == Respond(p, sr, er, toResponder).sent
    ensures toResponder[..ACT_SIZE + ACT_THREE_SIZE] == Initiate(p, si, remote, ei, toInitiator).sent
  {
    InitiatorCompletes(p, si, remote, ei, toInitiator);
    ResponderCompletes(p, sr, er, toResponder);
    var rs := Respond(p, sr, er, toResponder).outcome.remoteStatic;
    var v := InitiatorView(p, si, remote, ei, toInitiator);
    var w := ResponderView(p, sr, er, toResponder, rs);
    assert SealLaw(p, v.ChainOne(p).1, 0, v.HashOne(p), []) && SealLaw(p, w.ChainOne(p).1, 0, w.HashOne(p), []);
    assert SealLaw(p, v.ChainTwo(p).1, 0, v.HashThree(p), []) && SealLaw(p, w.ChainTwo(p).1, 0, w.HashThree(p), []);
    assert SealLaw(p, v.ChainTwo(p).1, 1, v.HashFour(p), v.initiatorStatic);
    assert SealLaw(p, w.ChainTwo(p).1, 1, w.HashFour(p), w.initiatorStatic);
    EqualHashesEqualTranscripts(p, v, w);
    assert EcdhLaw(p, ei, sr) && EcdhLaw(p, ei, er) && EcdhLaw(p, si, er);
    assert v.es == w.es && v.ee == w.ee;
    SealIsInjective(p, v.ChainTwo(p).1, 1, v.HashFour(p), v.initiatorStatic, w.initiatorStatic);
    assert toResponder[1..34] == toResponder[..ACT_SIZE][1..34];
  }
}
