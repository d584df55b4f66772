/** Negotiation between two honest sides over reliable FIFO channels: what they settle on. */
module NegotiationAgreement {
  import opened Bytes
  import opened LengthPrefix
  import opened Noise
  import opened NoiseDrive
  import opened NoiseSocketFrames
  import opened Negotiation
  import Text = NegotiationText

  // ---- Two sides set up for each other ----

  /** An initiator configuration starts and composes a first message that fits a frame. */
  ghost predicate OpensWell(z: Library, cfg: Config, prologue: bytes) {
    && cfg.messages >= 2 && z.start(cfg, prologue)
    && match z.compose(HandshakeState(cfg, prologue, []))
       case None => false
       case Some(m) => 0 < |m| <= MAX_MSG_LEN
  }

  ghost predicate Opens(s: Setup) {
    forall name: bytes, prologue: bytes | s.build(name, true).Some? :: OpensWell(s.z, s.build(name, true).value, prologue)
  }

  /** Whenever both can build a name, one as initiator and the other as responder, the two fit together. */
  ghost predicate Compatible(a: Setup, b: Setup) {
    forall name: bytes | a.build(name, true).Some? && b.build(name, false).Some? ::
      Interoperable(a.z, a.build(name, true).value, b.build(name, false).value)
  }

  /** Quoting a name adds no separator. */
  ghost predicate QuotesCleanly(s: Setup) {
    forall name: bytes | Text.SEMICOLON !in name :: Text.SEMICOLON !in s.quote(name)
  }

  ghost predicate Paired(c: Setup, s: Setup) {
    && c.z == s.z && c.appPrologue == s.appPrologue
    && NamesAreClean(c) && NamesAreClean(s) && QuotesCleanly(s)
    && s.HasTarget() && (s.policy == RetryPolicy ==> s.supported[0] != [] && Text.SEMICOLON !in s.supported[0])
    && Opens(c) && Opens(s) && Compatible(c, s) && Compatible(s, c)
  }

  // ---- The decision ----

  /** The protocol, whether the client is the Noise initiator of it, and how many frames died on the way. */
  datatype Deal = Deal(proto: bytes, clientInitiates: bool, deadFrames: nat)

  predicate Proposable(s: Setup, proto: bytes, neg: bytes) {
    s.build(proto, true).Some? && |neg| <= MAX_LENGTH
  }

  function ProposalNeg(s: Setup, proto: bytes): bytes {
    Text.EncodeProposal(proto, s.appData)
  }

  /** What the two settings amount to. */
  function Decide(c: Setup, s: Setup): Option<Deal>
    requires s.HasTarget()
  {
    if !Proposable(c, c.proposed, ProposalNeg(c, c.proposed)) then None
    else if c.proposed in s.supported then
      if s.build(c.proposed, false).Some? then Some(Deal(c.proposed, true, 0)) else None
    else if s.policy == RetryPolicy then
      var target := s.supported[0];
      if Fits(RetryFrame(target)) && (target == c.proposed || target in c.fallback) && Proposable(c, target, ProposalNeg(c, target))
         && s.build(target, false).Some?
      then Some(Deal(target, true, 2)) else None
    else if s.policy == SwitchPolicy then
      var target := s.supported[0];
      if Proposable(s, target, SwitchNeg(target)) && (target == c.proposed || target in c.fallback) && c.build(target, false).Some?
      then Some(Deal(target, false, 1)) else None
    else None
  }

  /**
   * Both finished, the deal's way, in one handshake: same protocol, history and messages, opposite
   * roles. Every message is the one that the side whose turn it was composed, and the two sides hold the
   * same keys and the same fingerprint.
   */
  ghost predicate Settled(z: Library, deal: Deal, rc: Run, rs: Run) {
    && rc.Done() && rs.Done() && rc.rest == rs.rest == []
    && var f, g := rc.final.value, rs.final.value;
       && f.proto == g.proto == deal.proto
       && f.initiator == deal.clientInitiates && g.initiator == !deal.clientInitiates
       && f.attempt == g.attempt && |f.attempt.dead| == deal.deadFrames
       && f.driven.hs.prologue == g.driven.hs.prologue && f.driven.hs.log == g.driven.hs.log
       && var a, b := if f.initiator then f.driven.hs else g.driven.hs, if f.initiator then g.driven.hs else f.driven.hs;
          && HonestLog(z, a.cfg, b.cfg, a.prologue, a.log) && |a.log| == a.cfg.messages == b.cfg.messages
          && z.split(a) == z.split(b) && z.channelBinding(a) == z.channelBinding(b)
  }

  /** Neither finished, and they are not both waiting for the other. */
  ghost predicate CalledOff(rc: Run, rs: Run) {
    !rc.Done() && !rs.Done() && !(rc.end.Starved? && rs.end.Starved?)
  }

  // ---- Single steps ----

  /** A frame in hand at a read turn is as good as the same frame on the wire. */
  lemma PendingIsTheNextFrame(z: Library, hs: HandshakeState, initiator: bool, m: bytes, rest: bytes)
    requires 0 < |m| <= MAX_LENGTH && |hs.log| < hs.cfg.messages && (|hs.log| % 2 == 0) != initiator
    requires z.accepts(hs, m)
    ensures var f := DriveFraming();
            && Drive(z, f, hs, initiator, m, rest) == Drive(z, f, Extend(hs, m), initiator, [], rest)
            && Drive(z, f, hs, initiator, [], f.put(m) + rest) == Drive(z, f, Extend(hs, m), initiator, [], rest)
  {
    DriveFramingIsFaithful();
    assert PutGetLaw(DriveFraming(), m, rest);
  }

  /** What Propose yields for an honest side: the state after message 0, and its frame. */
  lemma ProposeWorks(s: Setup, proto: bytes, neg: bytes, dead: seq<HandshakeFrame>) returns (m: bytes)
    requires Opens(s) && Proposable(s, proto, neg)
    ensures var prologue := PrologueWith(neg, s.appPrologue, dead);
            var cfg := s.build(proto, true).value;
            && 0 < |m| <= MAX_MSG_LEN && cfg.messages >= 2
            && s.z.compose(HandshakeState(cfg, prologue, [])) == Some(m)
            && Propose(s, proto, neg, dead) == Some((HandshakeState(cfg, prologue, [m]), HandshakeFrame(neg, m)))
            && Fits(HandshakeFrame(neg, m))
  {
    hide PrologueWith;
    var prologue := PrologueWith(neg, s.appPrologue, dead);
    var cfg := s.build(proto, true).value;
    assert OpensWell(s.z, cfg, prologue);
    m := s.z.compose(HandshakeState(cfg, prologue, [])).value;
    assert [] + [m] == [m];
  }

  /** The responder of an honest first message, under the same prologue, goes on from the log that holds it. */
  lemma JoinWorks(a: Setup, b: Setup, proto: bytes, neg: bytes, prologue: bytes, dead: seq<HandshakeFrame>, m: bytes, rest: bytes)
    requires a.z == b.z && Compatible(a, b)
    requires a.build(proto, true).Some? && b.build(proto, false).Some? && 0 < |m| <= MAX_MSG_LEN
    requires a.build(proto, true).value.messages >= 2 && prologue == PrologueWith(neg, b.appPrologue, dead)
    requires a.z.compose(HandshakeState(a.build(proto, true).value, prologue, [])) == Some(m)
    ensures var x, y := a.build(proto, true).value, b.build(proto, false).value;
            && Interoperable(a.z, x, y) && HonestLog(a.z, x, y, prologue, [m])
            && Join(b, proto, neg, dead, m, rest)
               == Some(Drive(b.z, DriveFraming(), HandshakeState(y, prologue, [m]), false, [], rest))
  {
    hide PrologueWith, DriveFraming, Drive;
    var x, y := a.build(proto, true).value, b.build(proto, false).value;
    assert Interoperable(a.z, x, y);
    assert HonestLog(a.z, x, y, prologue, []);
    assert NextMessageWorks(a.z, x, y, prologue, []);
    HonestLogExtends(a.z, x, y, prologue, [], m);
    assert [] + [m] == [m];
    PendingIsTheNextFrame(b.z, HandshakeState(y, prologue, []), false, m, rest);
  }

  /** The responder answers an honest first message with one frame, whatever follows. */
  lemma AnswerIsAFrame(z: Library, x: Config, y: Config, prologue: bytes, m: bytes, rest: bytes) returns (m1: bytes, more: bytes)
    requires Interoperable(z, x, y) && HonestLog(z, x, y, prologue, [m]) && x.messages >= 2
    ensures 0 < |m1| <= MAX_MSG_LEN && z.accepts(HandshakeState(x, prologue, [m]), m1)
    ensures Drive(z, DriveFraming(), HandshakeState(y, prologue, [m]), false, [], rest).sent
            == FrameBytes(HandshakeFrame([], m1)) + more
  {
    hide FrameBytes;
    assert NextMessageWorks(z, x, y, prologue, [m]);
    m1 := z.compose(HandshakeState(y, prologue, [m])).value;
    more := Drive(z, DriveFraming(), Extend(HandshakeState(y, prologue, [m]), m1), false, [], rest).sent;
  }

  // ---- Accept ----

  /** The client's run when the server accepts: a drive over all that arrives. */
  lemma ClientAccepted(c: Setup, n: nat, proto: bytes, dead: seq<HandshakeFrame>, m: bytes, m1: bytes, more: bytes)
    requires n < MAX_ATTEMPTS && Opens(c) && Proposable(c, proto, ProposalNeg(c, proto)) && 0 < |m1| <= MAX_MSG_LEN
    requires var hs := HandshakeState(c.build(proto, true).value, PrologueWith(ProposalNeg(c, proto), c.appPrologue, dead), [m]);
             && Propose(c, proto, ProposalNeg(c, proto), dead) == Some((hs, HandshakeFrame(ProposalNeg(c, proto), m)))
             && hs.cfg.messages >= 2 && c.z.accepts(hs, m1)
    ensures var f, inbox := HandshakeFrame(ProposalNeg(c, proto), m), FrameBytes(HandshakeFrame([], m1)) + more;
            var here := Attempt(f.neg, dead);
            var hs := HandshakeState(c.build(proto, true).value, PrologueWith(f.neg, c.appPrologue, dead), [m]);
            var d := Drive(c.z, DriveFraming(), hs, true, [], inbox);
            Initiate(c, n, proto, dead, inbox) == Run(FrameBytes(f) + d.sent, d.rest, [here], Some(Final(proto, true, here, d)), d.end)
  {
    hide FrameBytes, PrologueWith, Propose, Text.EncodeProposal, ReadFrame;
    var f := HandshakeFrame(ProposalNeg(c, proto), m);
    ReadFrameInvertsFrameBytes(HandshakeFrame([], m1), more);
    var hs := HandshakeState(c.build(proto, true).value, PrologueWith(f.neg, c.appPrologue, dead), [m]);
    PendingIsTheNextFrame(c.z, hs, true, m1, more);
    assert [Attempt(f.neg, dead)] + [] == [Attempt(f.neg, dead)];
  }

  /** What the server makes of an honest proposal frame. */
  lemma ServerReads(s: Setup, k: nat, proto: bytes, dead: seq<HandshakeFrame>, f: HandshakeFrame, appData: bytes, rest: bytes)
    requires k < MAX_ATTEMPTS && s.HasTarget() && Fits(f) && f.neg == Text.EncodeProposal(proto, appData)
    requires proto != [] && Text.SEMICOLON !in proto
    ensures Respond(s, k, dead, FrameBytes(f) + rest) == Answer(s, k, dead, f, proto, rest)
  {
    hide FrameBytes, Answer, Text.Parse, Text.EncodeProposal, ReadFrame;
    ReadFrameInvertsFrameBytes(f, rest);
    Text.ProposalRoundTrip(proto, appData);
  }

  /** A client that may propose starts with its frame, whatever it reads. */
  lemma ClientStarts(c: Setup, n: nat, proto: bytes, dead: seq<HandshakeFrame>, inbox: bytes) returns (f: HandshakeFrame, rest: bytes)
    requires n < MAX_ATTEMPTS && Opens(c) && Proposable(c, proto, ProposalNeg(c, proto))
    ensures f.neg == ProposalNeg(c, proto) && Fits(f) && Propose(c, proto, f.neg, dead).Some?
    ensures Propose(c, proto, f.neg, dead).value.1 == f
    ensures Initiate(c, n, proto, dead, inbox).sent == FrameBytes(f) + rest
    ensures inbox == [] ==> rest == [] && Initiate(c, n, proto, dead, inbox) == Run(FrameBytes(f), [], [Attempt(f.neg, dead)], None, Starved)
  {
    hide FrameBytes, React, PrologueWith, Text.EncodeProposal;
    var m := ProposeWorks(c, proto, ProposalNeg(c, proto), dead);
    f := HandshakeFrame(ProposalNeg(c, proto), m);
    rest := [];
    assert FrameBytes(f) + [] == FrameBytes(f);
    match ReadFrame(inbox) {
      case None =>
      case Some((reply, later)) =>
        rest := React(c, n, proto, dead, Propose(c, proto, f.neg, dead).value.0, f, reply, later).sent;
    }
  }

  /** A client's proposal of a name the server supports and can build, at any point of both runs. */
  lemma AcceptSettles(c: Setup, s: Setup, n: nat, k: nat, proto: bytes, dead: seq<HandshakeFrame>, toC: bytes, toS: bytes)
    requires Paired(c, s) && n < MAX_ATTEMPTS && k < MAX_ATTEMPTS
    requires Proposable(c, proto, ProposalNeg(c, proto)) && proto in s.supported && s.build(proto, false).Some?
    requires toS == Initiate(c, n, proto, dead, toC).sent && toC == Respond(s, k, dead, toS).sent
    ensures Settled(c.z, Deal(proto, true, |dead|), Initiate(c, n, proto, dead, toC), Respond(s, k, dead, toS))
    ensures |Initiate(c, n, proto, dead, toC).attempts| == 1
  {
    hide FrameBytes, PrologueWith, Initiate, Respond, Drive, Text.EncodeProposal, Join, Propose, DriveFraming;
    var neg := ProposalNeg(c, proto);
    var prologue, x, y := PrologueWith(neg, c.appPrologue, dead), c.build(proto, true).value, s.build(proto, false).value;
    var m := ProposeWorks(c, proto, neg, dead);
    var f, rest := ClientStarts(c, n, proto, dead, toC);
    ServerReads(s, k, proto, dead, f, c.appData, rest);
    JoinWorks(c, s, proto, neg, prologue, dead, m, rest);
    var m1, more := AnswerIsAFrame(c.z, x, y, prologue, m, rest);
    ClientAccepted(c, n, proto, dead, m, m1, more);
    var d := Drive(c.z, DriveFraming(), HandshakeState(x, prologue, [m]), true, [], toC);
    SplitEqual(FrameBytes(f), rest, FrameBytes(f), d.sent);
    DriveFramingIsFaithful();
    DrivesAgree(c.z, DriveFraming(), x, y, prologue, [m], toC, rest);
  }

  lemma NothingArrives(s: Setup, k: nat, dead: seq<HandshakeFrame>)
    requires k < MAX_ATTEMPTS && s.HasTarget()
    ensures Respond(s, k, dead, []) == Run([], [], [], None, Starved)
  {
  }

  /** A client that gets one frame with negotiation_data, and then `rest`. */
  lemma ClientReacts(c: Setup, n: nat, proto: bytes, dead: seq<HandshakeFrame>, f: HandshakeFrame, reply: HandshakeFrame, rest: bytes)
    requires n < MAX_ATTEMPTS && Fits(reply) && f.neg == ProposalNeg(c, proto)
    requires Propose(c, proto, f.neg, dead).Some? && Propose(c, proto, f.neg, dead).value.1 == f
    ensures var tail := React(c, n, proto, dead, Propose(c, proto, f.neg, dead).value.0, f, reply, rest);
            Initiate(c, n, proto, dead, FrameBytes(reply) + rest)
            == Run(FrameBytes(f) + tail.sent, tail.rest, [Attempt(f.neg, dead)] + tail.attempts, tail.final, tail.end)
  {
    hide FrameBytes, React, PrologueWith, Text.EncodeProposal, ReadFrame, Propose;
    ReadFrameInvertsFrameBytes(reply, rest);
  }

  // ---- No support and no way round it ----

  /** The reason of a reject reaches the client word for word, because quoting adds no separator. */
  lemma RejectReasonSurvives(s: Setup, proto: bytes)
    requires QuotesCleanly(s) && Text.SEMICOLON !in proto
    ensures Text.Parse(RejectFrame(s, proto).neg)
            == Text.Ok(Text.NegMsg(Text.Reject, [], Ascii("protocol ") + s.quote(proto) + Ascii(" not supported"), []))
    ensures RejectFrame(s, proto).msg == []
  {
    hide Text.Parse, Text.EncodeResponse;
    var reason := Ascii("protocol ") + s.quote(proto) + Ascii(" not supported");
    Text.ResponseRoundTrip(Text.Reject, [], reason);
  }

  lemma ParsedIsNotEmpty(raw: bytes)
    requires Text.Parse(raw).Ok?
    ensures raw != []
  {
  }

  /** An initiator that hears nothing after its first message. */
  lemma StarvedDrive(z: Library, hs: HandshakeState)
    requires |hs.log| == 1 < hs.cfg.messages
    ensures Drive(z, DriveFraming(), hs, true, [], []) == Driven([], [], hs, Starved)
  {
    hide ReadFrame, FrameBytes;
    NothingToRead();
  }

  lemma Unproposable(s: Setup, proto: bytes, neg: bytes, dead: seq<HandshakeFrame>)
    requires !Proposable(s, proto, neg)
    ensures Propose(s, proto, neg, dead).None?
  {
  }

  lemma Unjoinable(s: Setup, proto: bytes, neg: bytes, dead: seq<HandshakeFrame>, pending: bytes, inbox: bytes)
    requires s.build(proto, false).None?
    ensures Join(s, proto, neg, dead, pending, inbox).None?
  {
  }

  /** Two runs over FIFO channels: what arrives at either side is what the other one sends. */
  ghost predicate Linked(c: Setup, s: Setup, n: nat, k: nat, proto: bytes, dead: seq<HandshakeFrame>, toC: bytes, toS: bytes)
    requires s.HasTarget()
  {
    toS == Initiate(c, n, proto, dead, toC).sent && toC == Respond(s, k, dead, toS).sent
  }

  /** A name that cannot be proposed, or that the server supports but cannot build, ends in nothing. */
  lemma UnbuildableIsOff(c: Setup, s: Setup, n: nat, k: nat, proto: bytes, dead: seq<HandshakeFrame>, toC: bytes, toS: bytes)
    requires Paired(c, s) && n < MAX_ATTEMPTS && k < MAX_ATTEMPTS && Linked(c, s, n, k, proto, dead, toC, toS)
    requires Proposable(c, proto, ProposalNeg(c, proto)) ==> proto in s.supported && s.build(proto, false).None?
    ensures CalledOff(Initiate(c, n, proto, dead, toC), Respond(s, k, dead, toS))
    ensures |Initiate(c, n, proto, dead, toC).attempts| <= 1
  {
    hide FrameBytes, PrologueWith, React, Drive, Text.EncodeProposal, Respond, ReadFrame;
    if Proposable(c, proto, ProposalNeg(c, proto)) {
      var f, rest := ClientStarts(c, n, proto, dead, toC);
      ServerReads(s, k, proto, dead, f, c.appData, rest);
    } else {
      NothingArrives(s, k, dead);
    }
  }

  /** A proposal of a supported name settles exactly when both sides can build it. */
  lemma SupportedOutcome(c: Setup, s: Setup, n: nat, k: nat, proto: bytes, dead: seq<HandshakeFrame>, toC: bytes, toS: bytes)
    requires Paired(c, s) && n < MAX_ATTEMPTS && k < MAX_ATTEMPTS && Linked(c, s, n, k, proto, dead, toC, toS)
    requires proto in s.supported
    ensures var rc, rs := Initiate(c, n, proto, dead, toC), Respond(s, k, dead, toS);
            && |rc.attempts| <= 1
            && if Proposable(c, proto, ProposalNeg(c, proto)) && s.build(proto, false).Some?
               then Settled(c.z, Deal(proto, true, |dead|), rc, rs) else CalledOff(rc, rs)
  {
    hide Initiate, Respond, Text.EncodeProposal, Settled, CalledOff;
    if Proposable(c, proto, ProposalNeg(c, proto)) && s.build(proto, false).Some? {
      AcceptSettles(c, s, n, k, proto, dead, toC, toS);
    } else {
      UnbuildableIsOff(c, s, n, k, proto, dead, toC, toS);
    }
  }

  /** Without support and without a counter-proposal both sides give up, the client because it read the server's reject. */
  lemma RejectIsOff(c: Setup, s: Setup, toC: bytes, toS: bytes)
    requires Paired(c, s) && Linked(c, s, 0, 0, c.proposed, [], toC, toS)
    requires Proposable(c, c.proposed, ProposalNeg(c, c.proposed)) && c.proposed !in s.supported
    requires s.policy != RetryPolicy && s.policy != SwitchPolicy
    ensures CalledOff(ClientRun(c, toC), ServerRun(s, toS)) && |ClientRun(c, toC).attempts| <= 1
    ensures toC == if s.policy != OtherPolicy && Fits(RejectFrame(s, c.proposed)) then FrameBytes(RejectFrame(s, c.proposed)) else []
    ensures ServerRun(s, toS).end.Refused? && (toC != [] ==> ClientRun(c, toC).end.Refused?)
  {
    hide FrameBytes, PrologueWith, Initiate, Respond, Text.EncodeProposal, Text.EncodeResponse, Text.Parse, ReadFrame, Propose;
    var f, rest := ClientStarts(c, 0, c.proposed, [], toC);
    ServerReads(s, 0, c.proposed, [], f, c.appData, rest);
    var reply := RejectFrame(s, c.proposed);
    if s.policy != OtherPolicy && Fits(reply) {
      RejectReasonSurvives(s, c.proposed);
      ParsedIsNotEmpty(reply.neg);
      assert FrameBytes(reply) + [] == FrameBytes(reply);
      ClientReacts(c, 0, c.proposed, [], f, reply, []);
    }
  }

  /** A retry leads to one more proposal, of the server's own choice. */
  lemma RetryOutcome(c: Setup, s: Setup, toC: bytes, toS: bytes)
    requires Paired(c, s) && Linked(c, s, 0, 0, c.proposed, [], toC, toS)
    requires Proposable(c, c.proposed, ProposalNeg(c, c.proposed)) && c.proposed !in s.supported && s.policy == RetryPolicy
    ensures var rc, rs := ClientRun(c, toC), ServerRun(s, toS);
            && |rc.attempts| <= 2
            && match Decide(c, s) case Some(deal) => Settled(c.z, deal, rc, rs) case None => CalledOff(rc, rs)
  {
    hide FrameBytes, PrologueWith, Initiate, Respond, Text.EncodeProposal, Text.EncodeResponse, Text.Parse, ReadFrame, Propose;
    var target := s.supported[0];
    var reply := RetryFrame(target);
    var f, rest := ClientStarts(c, 0, c.proposed, [], toC);
    ServerReads(s, 0, c.proposed, [], f, c.appData, rest);
    if Fits(reply) {
      var dead := [] + [f, reply];
      var more := Respond(s, 1, dead, rest).sent;
      Text.ResponseRoundTrip(Text.Retry, target, []);
      ParsedIsNotEmpty(reply.neg);
      ClientReacts(c, 0, c.proposed, [], f, reply, more);
      if c.Allowed(target) {
        SplitEqual(FrameBytes(f), rest, FrameBytes(f), Initiate(c, 1, target, dead, more).sent);
        SupportedOutcome(c, s, 1, 1, target, dead, more, rest);
      } else {
        SplitEqual(FrameBytes(f), rest, FrameBytes(f), []);
        NothingArrives(s, 1, dead);
      }
    }
  }

  /** A switch turns the roles round: the server's own message 0 opens the new handshake. */
  lemma SwitchOutcome(c: Setup, s: Setup, toC: bytes, toS: bytes)
    requires Paired(c, s) && Linked(c, s, 0, 0, c.proposed, [], toC, toS)
    requires Proposable(c, c.proposed, ProposalNeg(c, c.proposed)) && c.proposed !in s.supported && s.policy == SwitchPolicy
    ensures var rc, rs := ClientRun(c, toC), ServerRun(s, toS);
            && |rc.attempts| <= 2
            && match Decide(c, s) case Some(deal) => Settled(c.z, deal, rc, rs) case None => CalledOff(rc, rs)
  {
    hide FrameBytes, PrologueWith, Initiate, Respond, Text.EncodeProposal, Text.EncodeResponse, Text.Parse, ReadFrame,
         Propose, Drive, DriveFraming, Join;
    var target := s.supported[0];
    var neg := SwitchNeg(target);
    var f, rest := ClientStarts(c, 0, c.proposed, [], toC);
    ServerReads(s, 0, c.proposed, [], f, c.appData, rest);
    if Proposable(s, target, neg) {
      var dead := [] + [f];
      var m := ProposeWorks(s, target, neg, dead);
      var g := HandshakeFrame(neg, m);
      var prologue, x := PrologueWith(neg, s.appPrologue, dead), s.build(target, true).value;
      var d := Drive(s.z, DriveFraming(), HandshakeState(x, prologue, [m]), true, [], rest);
      Text.ResponseRoundTrip(Text.Switch, target, []);
      ParsedIsNotEmpty(neg);
      ClientReacts(c, 0, c.proposed, [], f, g, d.sent);
      if c.Allowed(target) && c.build(target, false).Some? {
        JoinWorks(s, c, target, neg, prologue, dead, m, d.sent);
        var y := c.build(target, false).value;
        var dc := Drive(c.z, DriveFraming(), HandshakeState(y, prologue, [m]), false, [], d.sent);
        SplitEqual(FrameBytes(f), rest, FrameBytes(f), dc.sent);
        DriveFramingIsFaithful();
        DrivesAgree(s.z, DriveFraming(), x, y, prologue, [m], rest, d.sent);
      } else {
        if c.Allowed(target) {
          Unjoinable(c, target, neg, dead, m, d.sent);
        }
        SplitEqual(FrameBytes(f), rest, FrameBytes(f), []);
        StarvedDrive(s.z, HandshakeState(x, prologue, [m]));
      }
    } else {
      Unproposable(s, target, neg, [] + [f]);
    }
  }

  /**
   * Honest negotiation: over FIFO channels both sides complete, or neither does, and which of the two,
   * and with what protocol and roles, is the decision function's verdict. At most two proposals are
   * made, and the two sides never end up waiting for each other.
   */
  lemma NegotiationRefinesDecision(c: Setup, s: Setup, toC: bytes, toS: bytes)
    requires Paired(c, s) && toS == ClientRun(c, toC).sent && toC == ServerRun(s, toS).sent
    ensures var rc, rs := ClientRun(c, toC), ServerRun(s, toS);
            && |rc.attempts| <= 2
            && match Decide(c, s) case Some(deal) => Settled(c.z, deal, rc, rs) case None => CalledOff(rc, rs)
  {
    hide Initiate, Respond, Text.EncodeProposal, RetryFrame, SwitchNeg, Settled, CalledOff;
    if !Proposable(c, c.proposed, ProposalNeg(c, c.proposed)) {
      UnbuildableIsOff(c, s, 0, 0, c.proposed, [], toC, toS);
    } else if s.Supports(c.proposed) {
      SupportedOutcome(c, s, 0, 0, c.proposed, [], toC, toS);
    } else if s.policy == RetryPolicy {
      RetryOutcome(c, s, toC, toS);
    } else if s.policy == SwitchPolicy {
      SwitchOutcome(c, s, toC, toS);
    } else {
      RejectIsOff(c, s, toC, toS);
    }
  }

  // ---- Honest runs exist ----

  /** What both sides get to read when a proposal is taken up. */
  lemma SupportedHappens(c: Setup, s: Setup, n: nat, k: nat, proto: bytes, dead: seq<HandshakeFrame>) returns (toC: bytes, toS: bytes)
    requires Paired(c, s) && n < MAX_ATTEMPTS && k < MAX_ATTEMPTS && proto in s.supported
    ensures Linked(c, s, n, k, proto, dead, toC, toS)
  {
    hide FrameBytes, PrologueWith, Initiate, Respond, Drive, Text.EncodeProposal, Join, Propose, DriveFraming;
    if !Proposable(c, proto, ProposalNeg(c, proto)) {
      UnproposedIsSilent(c, n, proto, dead, []);
      NothingArrives(s, k, dead);
      return [], [];
    }
    var neg := ProposalNeg(c, proto);
    var m := ProposeWorks(c, proto, neg, dead);
    var f, rest := ClientStarts(c, n, proto, dead, []);
    if s.build(proto, false).None? {
      ServerReads(s, k, proto, dead, f, c.appData, rest);
      Unjoinable(s, proto, neg, dead, f.msg, rest);
      return [], FrameBytes(f) + rest;
    }
    var prologue, x, y := PrologueWith(neg, c.appPrologue, dead), c.build(proto, true).value, s.build(proto, false).value;
    var (toA, toB) := HonestStreams(c.z, DriveFraming(), x, y, prologue, [m]);
    JoinWorks(c, s, proto, neg, prologue, dead, m, toB);
    DriveFramingIsFaithful();
    HonestStreamsFit(c.z, DriveFraming(), x, y, prologue, [m]);
    var m1, more := AnswerIsAFrame(c.z, x, y, prologue, m, toB);
    ClientAccepted(c, n, proto, dead, m, m1, more);
    ServerReads(s, k, proto, dead, f, c.appData, toB);
    return toA, FrameBytes(f) + toB;
  }

  lemma UnproposedIsSilent(c: Setup, n: nat, proto: bytes, dead: seq<HandshakeFrame>, inbox: bytes)
    requires n < MAX_ATTEMPTS && !Proposable(c, proto, ProposalNeg(c, proto))
    ensures Initiate(c, n, proto, dead, inbox) == Failed(inbox)
  {
    Unproposable(c, proto, ProposalNeg(c, proto), dead);
  }

  /** The theorem above is never vacuous: for every pair of settings there is an honest run. */
  lemma HonestNegotiationExists(c: Setup, s: Setup)
    requires Paired(c, s)
    ensures exists toC: bytes, toS: bytes :: toS == ClientRun(c, toC).sent && toC == ServerRun(s, toS).sent
  {
    hide Initiate, Respond, Text.EncodeProposal;
    var toC, toS;
    if !Proposable(c, c.proposed, ProposalNeg(c, c.proposed)) {
      UnproposedIsSilent(c, 0, c.proposed, [], []);
      NothingArrives(s, 0, []);
      toC, toS := [], [];
    } else if s.Supports(c.proposed) {
      toC, toS := SupportedHappens(c, s, 0, 0, c.proposed, []);
    } else if s.policy == RetryPolicy {
      toC, toS := RetryHappens(c, s);
    } else if s.policy == SwitchPolicy {
      toC, toS := SwitchHappens(c, s);
    } else {
      toC, toS := RejectHappens(c, s);
    }
    assert Linked(c, s, 0, 0, c.proposed, [], toC, toS);
    assert toS == ClientRun(c, toC).sent && toC == ServerRun(s, toS).sent;
  }

  lemma RejectHappens(c: Setup, s: Setup) returns (toC: bytes, toS: bytes)
    requires Paired(c, s) && Proposable(c, c.proposed, ProposalNeg(c, c.proposed)) && c.proposed !in s.supported
    requires s.policy != RetryPolicy && s.policy != SwitchPolicy
    ensures Linked(c, s, 0, 0, c.proposed, [], toC, toS)
  {
    hide FrameBytes, PrologueWith, Initiate, Respond, Text.EncodeProposal, Text.EncodeResponse, Text.Parse, ReadFrame, Propose;
    var f, rest := ClientStarts(c, 0, c.proposed, [], []);
    ServerReads(s, 0, c.proposed, [], f, c.appData, rest);
    toC, toS := [], FrameBytes(f) + rest;
    var reply := RejectFrame(s, c.proposed);
    if s.policy != OtherPolicy && Fits(reply) {
      toC := FrameBytes(reply) + [];
      RejectReasonSurvives(s, c.proposed);
      ParsedIsNotEmpty(reply.neg);
      ClientReacts(c, 0, c.proposed, [], f, reply, []);
    }
  }

  lemma RetryHappens(c: Setup, s: Setup) returns (toC: bytes, toS: bytes)
    requires Paired(c, s) && Proposable(c, c.proposed, ProposalNeg(c, c.proposed)) && c.proposed !in s.supported
    requires s.policy == RetryPolicy
    ensures Linked(c, s, 0, 0, c.proposed, [], toC, toS)
  {
    hide FrameBytes, PrologueWith, Initiate, Respond, Text.EncodeProposal, Text.EncodeResponse, Text.Parse, ReadFrame, Propose;
    var target := s.supported[0];
    var reply := RetryFrame(target);
    var f, rest := ClientStarts(c, 0, c.proposed, [], []);
    var more: bytes := [];
    var dead := [] + [f, reply];
    if Fits(reply) && c.Allowed(target) {
      more, rest := SupportedHappens(c, s, 1, 1, target, dead);
    }
    ServerReads(s, 0, c.proposed, [], f, c.appData, rest);
    toC, toS := [], FrameBytes(f) + rest;
    if Fits(reply) {
      toC := FrameBytes(reply) + more;
      NothingArrives(s, 1, dead);
      Text.ResponseRoundTrip(Text.Retry, target, []);
      ParsedIsNotEmpty(reply.neg);
      ClientReacts(c, 0, c.proposed, [], f, reply, more);
    }
  }

  lemma SwitchHappens(c: Setup, s: Setup) returns (toC: bytes, toS: bytes)
    requires Paired(c, s) && Proposable(c, c.proposed, ProposalNeg(c, c.proposed)) && c.proposed !in s.supported
    requires s.policy == SwitchPolicy
    ensures Linked(c, s, 0, 0, c.proposed, [], toC, toS)
  {
    hide FrameBytes, PrologueWith, Initiate, Respond, Text.EncodeProposal, Text.EncodeResponse, Text.Parse, ReadFrame,
         Propose, Drive, DriveFraming, Join;
    var target := s.supported[0];
    var neg := SwitchNeg(target);
    var f, rest := ClientStarts(c, 0, c.proposed, [], []);
    var dead := [] + [f];
    if !Proposable(s, target, neg) {
      ServerReads(s, 0, c.proposed, [], f, c.appData, rest);
      Unproposable(s, target, neg, dead);
      return [], FrameBytes(f) + rest;
    }
    var m := ProposeWorks(s, target, neg, dead);
    var g := HandshakeFrame(neg, m);
    var prologue, x := PrologueWith(neg, s.appPrologue, dead), s.build(target, true).value;
    var hs := HandshakeState(x, prologue, [m]);
    var more: bytes := [];
    Text.ResponseRoundTrip(Text.Switch, target, []);
    ParsedIsNotEmpty(neg);
    StarvedDrive(s.z, hs);
    if c.Allowed(target) && c.build(target, false).Some? {
      var y := c.build(target, false).value;
      JoinWorks(s, c, target, neg, prologue, dead, m, []);
      DriveFramingIsFaithful();
      HonestStreamsFit(s.z, DriveFraming(), x, y, prologue, [m]);
      var streams := HonestStreams(s.z, DriveFraming(), x, y, prologue, [m]);
      rest, more := streams.0, streams.1;
      JoinWorks(s, c, target, neg, prologue, dead, m, more);
    } else if c.Allowed(target) {
      Unjoinable(c, target, neg, dead, m, []);
    }
    ServerReads(s, 0, c.proposed, [], f, c.appData, rest);
    ClientReacts(c, 0, c.proposed, [], f, g, more);
    return FrameBytes(g) + more, FrameBytes(f) + rest;
  }

  // ---- Such settings exist ----

  // Two protocols of two messages each, called A and B.
  function ExampleBuild(name: bytes, initiator: bool): Option<Config> {
    if name == [65] || name == [66] then Some(Config(name, 2, initiator, 0)) else None
  }

  function ExampleLibrary(): Library {
    Library((cfg, prologue) => true, hs => Some([1]), (hs, m) => true, hs => (ZERO_KEY, ZERO_KEY), hs => ZERO_KEY,
            (k, n, m) => m, (k, n, m) => Some(m), 0)
  }

  function ExampleSetup(supported: seq<bytes>, policy: Policy): Setup {
    Setup(ExampleLibrary(), (name: bytes) => name, ExampleBuild, [], [], [65], [[66]], supported, policy)
  }

  lemma ExamplesArePaired(supported: seq<bytes>, policy: Policy)
    requires supported == [[65]] || supported == [[66]]
    ensures Paired(ExampleSetup([], Unset), ExampleSetup(supported, policy))
  {
  }

  /** A client that proposes A and would fall back to B meets servers it settles with in each of the three ways. */
  lemma EveryEndingHappens()
    ensures var c := ExampleSetup([], Unset);
            && Decide(c, ExampleSetup([[65]], Unset)) == Some(Deal([65], true, 0))
            && Decide(c, ExampleSetup([[66]], RetryPolicy)) == Some(Deal([66], true, 2))
            && Decide(c, ExampleSetup([[66]], SwitchPolicy)) == Some(Deal([66], false, 1))
            && Decide(c, ExampleSetup([[66]], RejectPolicy)) == None
    ensures forall supported: seq<bytes>, policy: Policy | supported == [[65]] || supported == [[66]] ::
              Paired(ExampleSetup([], Unset), ExampleSetup(supported, policy))
  {
    forall supported: seq<bytes>, policy: Policy | supported == [[65]] || supported == [[66]]
      ensures Paired(ExampleSetup([], Unset), ExampleSetup(supported, policy))
    {
      ExamplesArePaired(supported, policy);
    }
    var c := ExampleSetup([], Unset);
    assert |Text.EncodeProposal([65], [])| < 100 && |Text.EncodeProposal([66], [])| < 100;
    assert |Text.EncodeResponse(Text.Retry, [66], [])| < 100 && |Text.EncodeResponse(Text.Switch, [66], [])| < 100;
  }
}
