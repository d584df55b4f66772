/**
 * NoiseSocket negotiation: what each side does with everything that will arrive, as values. The
 * connection object of module NoiseSocketConn computes exactly these runs.
 */
module Negotiation {
  import opened Bytes
  import opened Noise
  import opened NoiseDrive
  import opened NoiseSocketFrames
  import Text = NegotiationText

  const MAX_ATTEMPTS: nat := 4

  // An empty policy is a reject; any other string is refused when it is needed.
  datatype Policy = Unset | RejectPolicy | RetryPolicy | SwitchPolicy | OtherPolicy

  /**
   * One side's settings. `build` is BuildConfig with that side's keys; `quote` is Go's quoting of a
   * name in the reject reason.
   */
  datatype Setup = Setup(
    z: Library,
    quote: bytes -> bytes,
    build: (bytes, bool) -> Option<Config>,
    appPrologue: bytes,
    appData: bytes,
    proposed: bytes,
    fallback: seq<bytes>,
    supported: seq<bytes>,
    policy: Policy)
  {
    predicate Allowed(name: bytes) {
      name == proposed || name in fallback
    }

    predicate Supports(name: bytes) {
      name in supported
    }

    /** Retry and switch take their target from the head of the list. */
    predicate HasTarget() {
      policy == RetryPolicy || policy == SwitchPolicy ==> supported != []
    }
  }

  /** What an attempt's prologue is made of: the negotiation_data that opened it, and the dead frames. */
  datatype Attempt = Attempt(neg: bytes, dead: seq<HandshakeFrame>) {
    function Prologue(app: bytes): bytes {
      PrologueWith(neg, app, dead)
    }
  }

  /** The handshake a side ends in: the protocol, its Noise role, the attempt, and how the drive went. */
  datatype Final = Final(proto: bytes, initiator: bool, attempt: Attempt, driven: Driven)

  /** `end` says how the run ended, in its final handshake or before any. */
  datatype Run = Run(sent: bytes, rest: bytes, attempts: seq<Attempt>, final: Option<Final>, end: Ending) {
    predicate Done() {
      final.Some? && final.value.driven.Done()
    }
  }

  function Failed(rest: bytes): Run {
    Run([], rest, [], None, Refused)
  }

  /** Message 0 as Noise initiator of `proto`, when it can be made and its frame fits; never the whole pattern. */
  function Propose(s: Setup, proto: bytes, neg: bytes, dead: seq<HandshakeFrame>): (r: Option<(HandshakeState, HandshakeFrame)>)
    ensures r.Some? ==> Fits(r.value.1) && r.value.1.neg == neg && s.build(proto, true).Some?
    ensures r.Some? ==> r.value.0.prologue == PrologueWith(neg, s.appPrologue, dead) && r.value.0.log == [r.value.1.msg]
    ensures r.Some? ==> r.value.0.cfg == s.build(proto, true).value && r.value.0.cfg.messages != 1
  {
    match s.build(proto, true)
    case None => None
    case Some(cfg) =>
      match NewHandshakeState(s.z, cfg, PrologueWith(neg, s.appPrologue, dead))
      case None => None
      case Some(start) =>
        match WriteMessage(s.z, start)
        case None => None
        case Some((msg, hs, last)) =>
          if last.Some? || !Fits(HandshakeFrame(neg, msg)) then None else Some((hs, HandshakeFrame(neg, msg)))
  }

  /** The handshake as Noise responder of `proto`, its message 0 already in hand. */
  function Join(s: Setup, proto: bytes, neg: bytes, dead: seq<HandshakeFrame>, pending: bytes, inbox: bytes): Option<Driven> {
    match s.build(proto, false)
    case None => None
    case Some(cfg) =>
      match NewHandshakeState(s.z, cfg, PrologueWith(neg, s.appPrologue, dead))
      case None => None
      case Some(hs) => Some(Drive(s.z, DriveFraming(), hs, false, pending, inbox))
  }

  // ---- Client ----

  function Initiate(s: Setup, n: nat, proto: bytes, dead: seq<HandshakeFrame>, inbox: bytes): Run
    decreases MAX_ATTEMPTS - n, 1
  {
    if n >= MAX_ATTEMPTS then Failed(inbox) else
    match Propose(s, proto, Text.EncodeProposal(proto, s.appData), dead)
    case None => Failed(inbox)
    case Some((hs, f)) =>
      match ReadFrame(inbox)
      case None => Run(FrameBytes(f), [], [Attempt(f.neg, dead)], None, Starved)
      case Some((reply, rest)) =>
        var tail := React(s, n, proto, dead, hs, f, reply, rest);
        Run(FrameBytes(f) + tail.sent, tail.rest, [Attempt(f.neg, dead)] + tail.attempts, tail.final, tail.end)
  }

  /** The client's reaction to the first frame that answers its proposal `f`. */
  function React(s: Setup, n: nat, proto: bytes, dead: seq<HandshakeFrame>, hs: HandshakeState, f: HandshakeFrame,
                 reply: HandshakeFrame, rest: bytes): Run
    requires n < MAX_ATTEMPTS
    decreases MAX_ATTEMPTS - n, 0
  {
    if reply.neg == [] then
      var d := Drive(s.z, DriveFraming(), hs, true, reply.msg, rest);
      Run(d.sent, d.rest, [], Some(Final(proto, true, Attempt(f.neg, dead), d)), d.end)
    else
      match Text.Parse(reply.neg)
      case Err(_) => Failed(rest)
      case Ok(resp) =>
        if !s.Allowed(resp.proto) then Failed(rest)
        else if resp.action == Text.Retry then Initiate(s, n + 1, resp.proto, dead + [f, reply], rest)
        else if resp.action == Text.Switch then
          match Join(s, resp.proto, reply.neg, dead + [f], reply.msg, rest)
          case None => Failed(rest)
          case Some(d) =>
            var here := Attempt(reply.neg, dead + [f]);
            Run(d.sent, d.rest, [here], Some(Final(resp.proto, false, here, d)), d.end)
        else Failed(rest)
  }

  // ---- Server ----

  function RejectFrame(s: Setup, proto: bytes): HandshakeFrame {
    var reason := Ascii("protocol ") + s.quote(proto) + Ascii(" not supported");
    HandshakeFrame(Text.EncodeResponse(Text.Reject, [], reason), [])
  }

  function RetryFrame(target: bytes): HandshakeFrame {
    HandshakeFrame(Text.EncodeResponse(Text.Retry, target, []), [])
  }

  function SwitchNeg(target: bytes): bytes {
    Text.EncodeResponse(Text.Switch, target, [])
  }

  function Respond(s: Setup, n: nat, dead: seq<HandshakeFrame>, inbox: bytes): Run
    requires s.HasTarget()
    decreases MAX_ATTEMPTS - n, 1
  {
    if n >= MAX_ATTEMPTS then Failed(inbox) else
    match ReadFrame(inbox)
    case None => Run([], [], [], None, Starved)
    case Some((f, rest)) =>
      match Text.Parse(f.neg)
      case Err(_) => Failed(rest)
      case Ok(prop) => if prop.action != Text.Proposal then Failed(rest) else Answer(s, n, dead, f, prop.proto, rest)
  }

  /** The server's answer to a proposal of `proto` in frame `f`. */
  function Answer(s: Setup, n: nat, dead: seq<HandshakeFrame>, f: HandshakeFrame, proto: bytes, rest: bytes): Run
    requires s.HasTarget() && n < MAX_ATTEMPTS
    decreases MAX_ATTEMPTS - n, 0
  {
    if s.Supports(proto) then
      match Join(s, proto, f.neg, dead, f.msg, rest)
      case None => Failed(rest)
      case Some(d) => Run(d.sent, d.rest, [Attempt(f.neg, dead)], Some(Final(proto, false, Attempt(f.neg, dead), d)), d.end)
    else
      match s.policy
      case OtherPolicy => Failed(rest)
      case RetryPolicy =>
        var reply := RetryFrame(s.supported[0]);
        if !Fits(reply) then Failed(rest) else
        var tail := Respond(s, n + 1, dead + [f, reply], rest);
        Run(FrameBytes(reply) + tail.sent, tail.rest, tail.attempts, tail.final, tail.end)
      case SwitchPolicy =>
        (match Propose(s, s.supported[0], SwitchNeg(s.supported[0]), dead + [f])
         case None => Failed(rest)
         case Some((hs, g)) =>
           var d := Drive(s.z, DriveFraming(), hs, true, [], rest);
           var here := Attempt(g.neg, dead + [f]);
           Run(FrameBytes(g) + d.sent, d.rest, [here], Some(Final(s.supported[0], true, here, d)), d.end))
      case _ =>
        var reply := RejectFrame(s, proto);
        Run(if Fits(reply) then FrameBytes(reply) else [], rest, [], None, Refused)
  }

  function ClientRun(s: Setup, inbox: bytes): Run {
    Initiate(s, 0, s.proposed, [], inbox)
  }

  function ServerRun(s: Setup, inbox: bytes): Run
    requires s.HasTarget()
  {
    Respond(s, 0, [], inbox)
  }

  // ---- Names ----

  /** BuildConfig refuses names that do not match the pattern of Noise protocol names. */
  ghost predicate NamesAreClean(s: Setup) {
    forall name: bytes, initiator: bool ::
      s.build(name, initiator).Some? ==> name != [] && Text.SEMICOLON !in name
  }
}
