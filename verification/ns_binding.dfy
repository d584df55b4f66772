/** Negotiation against any network: bounded attempts, fresh prologues, downgrade binding. */
module NegotiationBinding {
  import opened Bytes
  import opened LengthPrefix
  import opened Noise
  import opened NoiseDrive
  import opened NoiseSocketFrames
  import opened Negotiation
  import opened PrologueHistory
  import Text = NegotiationText

  // ---- Attempts ----

  /** Openings that fit a frame, over transcripts that extend `dead` and grow from attempt to attempt. */
  ghost predicate Growing(attempts: seq<Attempt>, dead: seq<HandshakeFrame>) {
    && (forall k | 0 <= k < |attempts| ::
          |attempts[k].neg| <= MAX_LENGTH && AllFit(attempts[k].dead) && dead <= attempts[k].dead)
    && (forall j, k | 0 <= j < k < |attempts| ::
          attempts[j].dead <= attempts[k].dead && |attempts[j].dead| < |attempts[k].dead|)
  }

  lemma GrowingAfter(first: Attempt, more: seq<Attempt>, longer: seq<HandshakeFrame>)
    requires Growing(more, longer) && first.dead <= longer && |first.dead| < |longer|
    requires |first.neg| <= MAX_LENGTH && AllFit(first.dead)
    ensures Growing([first] + more, first.dead)
  {
    var all := [first] + more;
    forall k | 0 <= k < |all| ensures |all[k].neg| <= MAX_LENGTH && AllFit(all[k].dead) && first.dead <= all[k].dead {
      if k > 0 {
        assert all[k] == more[k - 1];
      }
    }
    forall j, k | 0 <= j < k < |all|
      ensures all[j].dead <= all[k].dead && |all[j].dead| < |all[k].dead|
    {
      assert all[k] == more[k - 1];
      if j > 0 {
        assert all[j] == more[j - 1];
      }
    }
  }

  /** At most `budget` attempts, one more if the run ends switched, the final one last. */
  ghost predicate Accounts(r: Run, dead: seq<HandshakeFrame>, budget: int) {
    && Growing(r.attempts, dead)
    && |r.attempts| <= budget + (if r.final.Some? && !r.final.value.initiator then 1 else 0)
    && (r.final.Some? && r.attempts != [] ==> r.final.value.attempt == r.attempts[|r.attempts| - 1])
  }

  /** Against any peer the client starts at most 4 - n more attempts, a switched one not counted. */
  lemma {:induction false} ClientAttemptsGrow(s: Setup, n: nat, proto: bytes, dead: seq<HandshakeFrame>, inbox: bytes)
    requires AllFit(dead) && n <= MAX_ATTEMPTS
    ensures Accounts(Initiate(s, n, proto, dead, inbox), dead, MAX_ATTEMPTS - n)
    ensures var r := Initiate(s, n, proto, dead, inbox); r.final.Some? ==> r.attempts != []
    decreases MAX_ATTEMPTS - n, 1
  {
    hide React, FrameBytes, Text.EncodeProposal, Propose, ReadFrame;
    if n < MAX_ATTEMPTS {
      match Propose(s, proto, Text.EncodeProposal(proto, s.appData), dead) {
        case None =>
        case Some((hs, f)) =>
          match ReadFrame(inbox) {
            case None =>
            case Some((reply, rest)) =>
              ReadFrameFits(inbox);
              ReactionGrows(s, n, proto, dead, hs, f, reply, rest);
              var tail := React(s, n, proto, dead, hs, f, reply, rest);
              GrowingAfter(Attempt(f.neg, dead), tail.attempts, dead + [f]);
          }
      }
    }
  }

  lemma {:induction false} ReactionGrows(s: Setup, n: nat, proto: bytes, dead: seq<HandshakeFrame>, hs: HandshakeState,
                                         f: HandshakeFrame, reply: HandshakeFrame, rest: bytes)
    requires AllFit(dead) && n < MAX_ATTEMPTS && Fits(f) && Fits(reply)
    ensures Accounts(React(s, n, proto, dead, hs, f, reply, rest), dead + [f], MAX_ATTEMPTS - n - 1)
    ensures var r := React(s, n, proto, dead, hs, f, reply, rest);
            r.final.Some? && r.attempts == [] ==> r.final.value.attempt == Attempt(f.neg, dead)
    decreases MAX_ATTEMPTS - n, 0
  {
    hide Initiate, FrameBytes, Text.Parse, Join, DriveFraming, Drive;
    if reply.neg != [] && Text.Parse(reply.neg).Ok? {
      var resp := Text.Parse(reply.neg).value;
      if s.Allowed(resp.proto) && resp.action == Text.Retry {
        ClientAttemptsGrow(s, n + 1, resp.proto, dead + [f, reply], rest);
        assert dead + [f, reply] == dead + [f] + [reply];
      }
    }
  }

  lemma GrowingOne(a: Attempt, dead: seq<HandshakeFrame>)
    requires |a.neg| <= MAX_LENGTH && AllFit(a.dead) && dead <= a.dead
    ensures Growing([a], dead)
  {
  }

  lemma GrowingFromShorter(attempts: seq<Attempt>, dead: seq<HandshakeFrame>, longer: seq<HandshakeFrame>)
    requires Growing(attempts, longer) && dead <= longer
    ensures Growing(attempts, dead)
  {
  }

  /** A server's account: at most one attempt, the final one, after less than `budget` more dead frames. */
  ghost predicate ServerAccounts(r: Run, dead: seq<HandshakeFrame>, budget: int) {
    && Growing(r.attempts, dead) && |r.attempts| <= 1
    && (r.final.Some? ==> r.attempts == [r.final.value.attempt] && |r.final.value.attempt.dead| < |dead| + budget)
  }

  /** The server only ever joins one attempt, the last, and records at most two dead frames for every earlier one. */
  lemma {:induction false} ServerAttemptsGrow(s: Setup, n: nat, dead: seq<HandshakeFrame>, inbox: bytes)
    requires AllFit(dead) && n <= MAX_ATTEMPTS && s.HasTarget()
    ensures ServerAccounts(Respond(s, n, dead, inbox), dead, 2 * (MAX_ATTEMPTS - n))
    decreases MAX_ATTEMPTS - n, 1
  {
    hide Answer, ReadFrame, Text.Parse, Fits;
    if n < MAX_ATTEMPTS && ReadFrame(inbox).Some? {
      ReadFrameFits(inbox);
      var (f, rest) := ReadFrame(inbox).value;
      if Text.Parse(f.neg).Ok? {
        AnswerGrows(s, n, dead, f, Text.Parse(f.neg).value.proto, rest);
      }
    }
  }

  lemma {:induction false} AnswerGrows(s: Setup, n: nat, dead: seq<HandshakeFrame>, f: HandshakeFrame, proto: bytes, rest: bytes)
    requires AllFit(dead) && Fits(f) && n < MAX_ATTEMPTS && s.HasTarget()
    ensures ServerAccounts(Answer(s, n, dead, f, proto, rest), dead, 2 * (MAX_ATTEMPTS - n))
    decreases MAX_ATTEMPTS - n, 0
  {
    hide Respond, FrameBytes, RetryFrame, RejectFrame, SwitchNeg, Propose, Join, DriveFraming, Drive;
    GrowingOne(Attempt(f.neg, dead), dead);
    if !s.Supports(proto) && s.policy == SwitchPolicy {
      match Propose(s, s.supported[0], SwitchNeg(s.supported[0]), dead + [f]) {
        case None =>
        case Some((_, g)) => GrowingOne(Attempt(g.neg, dead + [f]), dead);
      }
    } else if !s.Supports(proto) && s.policy == RetryPolicy && Fits(RetryFrame(s.supported[0])) {
      var longer := dead + [f, RetryFrame(s.supported[0])];
      ServerAttemptsGrow(s, n + 1, longer, rest);
      GrowingFromShorter(Respond(s, n + 1, longer, rest).attempts, dead, longer);
    }
  }

  /**
   * Fresh prologues: against any peer, a client opens at most 4 attempts and joins at most one
   * switched one, and no two of them share a prologue.
   */
  lemma ClientProloguesAreFresh(s: Setup, inbox: bytes)
    ensures var r := ClientRun(s, inbox);
            && |r.attempts| <= 5 && (r.final.None? || r.final.value.initiator ==> |r.attempts| <= 4)
            && forall j, k | 0 <= j < k < |r.attempts| ::
                 r.attempts[j].Prologue(s.appPrologue) != r.attempts[k].Prologue(s.appPrologue)
  {
    hide Initiate, PrologueWith;
    var r := ClientRun(s, inbox);
    ClientAttemptsGrow(s, 0, s.proposed, [], inbox);
    forall j, k | 0 <= j < k < |r.attempts|
      ensures r.attempts[j].Prologue(s.appPrologue) != r.attempts[k].Prologue(s.appPrologue)
    {
      var a, b := r.attempts[j], r.attempts[k];
      if a.Prologue(s.appPrologue) == b.Prologue(s.appPrologue) {
        PrologueIsInjective(a.neg, s.appPrologue, a.dead, b.neg, s.appPrologue, b.dead);
      }
    }
  }

  // ---- What an attempt says about the history ----

  /** A name the client proposed or declared as a fallback. */
  ghost predicate Declared(s: Setup, name: bytes) {
    name == s.proposed || name in s.fallback
  }

  ghost predicate Says(neg: bytes, action: Text.Action, proto: bytes) {
    Text.Parse(neg).Ok? && Text.Parse(neg).value.action == action && Text.Parse(neg).value.proto == proto
  }

  /**
   * What the dead frames of a client that goes on to propose `proto` are: pairs of an own proposal, the first
   * one of the configured name, and a retry frame that asked for the next one, always a declared name.
   */
  ghost predicate ClientHistory(s: Setup, dead: seq<HandshakeFrame>, proto: bytes)
    decreases |dead|, 0
  {
    if |dead| < 2 then dead == [] && proto == s.proposed
    else
      var before, f, reply := dead[..|dead| - 2], dead[|dead| - 2], dead[|dead| - 1];
      && Says(reply.neg, Text.Retry, proto) && Declared(s, proto)
      && exists earlier: bytes :: ProposedAfter(s, before, f, earlier)
  }

  ghost predicate ProposedAfter(s: Setup, before: seq<HandshakeFrame>, f: HandshakeFrame, proto: bytes)
    decreases |before|, 1
  {
    f.neg == Text.EncodeProposal(proto, s.appData) && ClientHistory(s, before, proto)
  }

  /**
   * How a client comes to open or join an attempt: as initiator with a proposal after such a history, or as
   * responder of a declared name, switched to in answer to its last proposal.
   */
  ghost predicate ClientOpening(s: Setup, a: Attempt, proto: bytes, initiator: bool) {
    if initiator then
      && |a.dead| % 2 == 0 && s.build(proto, true).Some?
      && a.neg == Text.EncodeProposal(proto, s.appData) && ClientHistory(s, a.dead, proto)
    else
      && |a.dead| % 2 == 1 && s.build(proto, false).Some?
      && Says(a.neg, Text.Switch, proto) && Declared(s, proto)
      && var before, f := a.dead[..|a.dead| - 1], a.dead[|a.dead| - 1];
         exists earlier: bytes :: ProposedAfter(s, before, f, earlier)
  }

  /** What the dead frames of a server are: pairs of a proposal it does not support and its retry to the head of its list. */
  ghost predicate ServerHistory(s: Setup, dead: seq<HandshakeFrame>)
    decreases |dead|
  {
    if |dead| < 2 then dead == []
    else
      && s.policy == RetryPolicy && s.supported != []
      && dead[|dead| - 1] == HandshakeFrame(Text.EncodeResponse(Text.Retry, s.supported[0], []), [])
      && Unsupported(s, dead[|dead| - 2]) && ServerHistory(s, dead[..|dead| - 2])
  }

  ghost predicate Unsupported(s: Setup, f: HandshakeFrame) {
    exists name: bytes :: Says(f.neg, Text.Proposal, name) && name !in s.supported
  }

  /** How a server comes to its attempt: it was proposed a supported name, or switches to the head of its list at once. */
  ghost predicate ServerOpening(s: Setup, a: Attempt, proto: bytes, initiator: bool) {
    if initiator then
      && s.policy == SwitchPolicy && s.supported != [] && proto == s.supported[0] && s.build(proto, true).Some?
      && a.neg == Text.EncodeResponse(Text.Switch, proto, [])
      && |a.dead| == 1 && Unsupported(s, a.dead[0])
    else
      && |a.dead| % 2 == 0 && proto in s.supported && s.build(proto, false).Some?
      && Says(a.neg, Text.Proposal, proto) && ServerHistory(s, a.dead)
  }

  /** The final handshake runs under the built configuration and the prologue of its attempt. */
  ghost predicate Runs(s: Setup, f: Final) {
    && |f.attempt.neg| <= MAX_LENGTH && AllFit(f.attempt.dead)
    && s.build(f.proto, f.initiator) == Some(f.driven.hs.cfg)
    && f.driven.hs.prologue == f.attempt.Prologue(s.appPrologue)
  }

  ghost predicate ClientEnding(s: Setup, f: Final) {
    Runs(s, f) && ClientOpening(s, f.attempt, f.proto, f.initiator)
  }

  ghost predicate ServerEnding(s: Setup, f: Final) {
    Runs(s, f) && ServerOpening(s, f.attempt, f.proto, f.initiator)
  }

  /** Every attempt the client opened or joined came about in one of the two ways. */
  ghost predicate AllOpened(s: Setup, attempts: seq<Attempt>) {
    forall k | 0 <= k < |attempts| :: IsOpened(s, attempts[k])
  }

  ghost predicate IsOpened(s: Setup, a: Attempt) {
    exists proto: bytes, initiator: bool :: ClientOpening(s, a, proto, initiator)
  }

  lemma OneMoreOpened(s: Setup, first: Attempt, more: seq<Attempt>, proto: bytes, initiator: bool)
    requires ClientOpening(s, first, proto, initiator) && AllOpened(s, more)
    ensures AllOpened(s, [first] + more)
  {
    hide ClientOpening;
    assert IsOpened(s, first);
    forall k | 0 <= k < |[first] + more| ensures IsOpened(s, ([first] + more)[k]) {
      if k > 0 {
        assert ([first] + more)[k] == more[k - 1];
      }
    }
  }

  lemma RetryExtends(s: Setup, dead: seq<HandshakeFrame>, proto: bytes, f: HandshakeFrame, reply: HandshakeFrame, next: bytes)
    requires ClientHistory(s, dead, proto) && f.neg == Text.EncodeProposal(proto, s.appData)
    requires Says(reply.neg, Text.Retry, next) && Declared(s, next)
    ensures ClientHistory(s, dead + [f, reply], next)
  {
    hide Says, Declared, Text.EncodeProposal;
    var longer := dead + [f, reply];
    assert longer[..|longer| - 2] == dead && longer[|longer| - 2] == f && longer[|longer| - 1] == reply;
    assert ProposedAfter(s, longer[..|longer| - 2], longer[|longer| - 2], proto);
  }

  lemma SwitchOpens(s: Setup, dead: seq<HandshakeFrame>, proto: bytes, f: HandshakeFrame, neg: bytes, name: bytes)
    requires |dead| % 2 == 0 && ClientHistory(s, dead, proto) && f.neg == Text.EncodeProposal(proto, s.appData)
    requires Says(neg, Text.Switch, name) && Declared(s, name) && s.build(name, false).Some?
    ensures ClientOpening(s, Attempt(neg, dead + [f]), name, false)
  {
    hide Says, Declared, Text.EncodeProposal, ClientHistory;
    var longer := dead + [f];
    assert longer[..|longer| - 1] == dead && longer[|longer| - 1] == f;
    assert ProposedAfter(s, longer[..|longer| - 1], longer[|longer| - 1], proto);
  }

  /** Against any peer: what a client ends in, and that every attempt of it follows the rules. */
  lemma {:induction false} ClientEndsWell(s: Setup, n: nat, proto: bytes, dead: seq<HandshakeFrame>, inbox: bytes)
    requires AllFit(dead) && |dead| % 2 == 0 && ClientHistory(s, dead, proto)
    ensures var r := Initiate(s, n, proto, dead, inbox);
            AllOpened(s, r.attempts) && (r.final.Some? ==> ClientEnding(s, r.final.value))
    decreases MAX_ATTEMPTS - n, 1
  {
    hide React, FrameBytes, Text.EncodeProposal, PrologueWith, ReadFrame, ClientHistory, ClientEnding, AllOpened;
    NoneOpened(s);
    if n < MAX_ATTEMPTS {
      match Propose(s, proto, Text.EncodeProposal(proto, s.appData), dead) {
        case None =>
        case Some((hs, f)) =>
          assert ClientOpening(s, Attempt(f.neg, dead), proto, true);
          OneMoreOpened(s, Attempt(f.neg, dead), [], proto, true);
          assert [Attempt(f.neg, dead)] + [] == [Attempt(f.neg, dead)];
          match ReadFrame(inbox) {
            case None =>
            case Some((reply, rest)) =>
              ReadFrameFits(inbox);
              ReactionEndsWell(s, n, proto, dead, hs, f, reply, rest);
              OneMoreOpened(s, Attempt(f.neg, dead), React(s, n, proto, dead, hs, f, reply, rest).attempts, proto, true);
          }
      }
    }
  }

  lemma NoneOpened(s: Setup)
    ensures AllOpened(s, [])
  {
  }

  lemma {:induction false} ReactionEndsWell(s: Setup, n: nat, proto: bytes, dead: seq<HandshakeFrame>, hs: HandshakeState,
                                            f: HandshakeFrame, reply: HandshakeFrame, rest: bytes)
    requires AllFit(dead) && |dead| % 2 == 0 && n < MAX_ATTEMPTS && Fits(f) && Fits(reply)
    requires ClientOpening(s, Attempt(f.neg, dead), proto, true)
    requires s.build(proto, true) == Some(hs.cfg) && hs.prologue == PrologueWith(f.neg, s.appPrologue, dead)
    ensures var r := React(s, n, proto, dead, hs, f, reply, rest);
            AllOpened(s, r.attempts) && (r.final.Some? ==> ClientEnding(s, r.final.value))
    decreases MAX_ATTEMPTS - n, 0
  {
    hide Initiate, Text.Parse, Text.EncodeProposal, DriveFraming, PrologueWith, Drive, ClientHistory, AllOpened, ProposedAfter;
    NoneOpened(s);
    if reply.neg != [] && Text.Parse(reply.neg).Ok? {
      var resp := Text.Parse(reply.neg).value;
      if s.Allowed(resp.proto) && resp.action == Text.Retry {
        RetryExtends(s, dead, proto, f, reply, resp.proto);
        ClientEndsWell(s, n + 1, resp.proto, dead + [f, reply], rest);
      } else if s.Allowed(resp.proto) && resp.action == Text.Switch && s.build(resp.proto, false).Some? {
        var here := Attempt(reply.neg, dead + [f]);
        SwitchOpens(s, dead, proto, f, reply.neg, resp.proto);
        OneMoreOpened(s, here, [], resp.proto, false);
        assert [here] + [] == [here];
      }
    }
  }

  /** And the other way round: exactly declared names are followed. */
  lemma ClientFollowsIffDeclared(s: Setup, n: nat, proto: bytes, dead: seq<HandshakeFrame>, hs: HandshakeState,
                                 f: HandshakeFrame, reply: HandshakeFrame, name: bytes, rest: bytes)
    requires n < 4 && reply.neg != []
    ensures Says(reply.neg, Text.Retry, name) ==>
              React(s, n, proto, dead, hs, f, reply, rest)
              == if name == s.proposed || name in s.fallback then Initiate(s, n + 1, name, dead + [f, reply], rest) else Failed(rest)
    ensures Says(reply.neg, Text.Switch, name) ==>
              (React(s, n, proto, dead, hs, f, reply, rest).final.Some?
               <==> (name == s.proposed || name in s.fallback) && Join(s, name, reply.neg, dead + [f], reply.msg, rest).Some?)
    ensures Says(reply.neg, Text.Reject, name) || Says(reply.neg, Text.Proposal, name) || Text.Parse(reply.neg).Err? ==>
              React(s, n, proto, dead, hs, f, reply, rest) == Failed(rest)
  {
    hide Initiate, Text.Parse, Join, Drive, DriveFraming;
  }

  lemma {:induction false} ServerEndsWell(s: Setup, n: nat, dead: seq<HandshakeFrame>, inbox: bytes)
    requires AllFit(dead) && |dead| % 2 == 0 && s.HasTarget() && ServerHistory(s, dead)
    ensures Respond(s, n, dead, inbox).final.Some? ==> ServerEnding(s, Respond(s, n, dead, inbox).final.value)
    decreases MAX_ATTEMPTS - n, 1
  {
    hide Answer, Text.Parse, ReadFrame, ServerHistory, ServerEnding;
    if n < MAX_ATTEMPTS && ReadFrame(inbox).Some? {
      ReadFrameFits(inbox);
      var (f, rest) := ReadFrame(inbox).value;
      if Text.Parse(f.neg).Ok? && Text.Parse(f.neg).value.action == Text.Proposal {
        AnswerEndsWell(s, n, dead, f, Text.Parse(f.neg).value.proto, rest);
      }
    }
  }

  lemma {:induction false} AnswerEndsWell(s: Setup, n: nat, dead: seq<HandshakeFrame>, f: HandshakeFrame, proto: bytes, rest: bytes)
    requires AllFit(dead) && |dead| % 2 == 0 && Fits(f) && n < MAX_ATTEMPTS && s.HasTarget() && ServerHistory(s, dead)
    requires Says(f.neg, Text.Proposal, proto)
    ensures var r := Answer(s, n, dead, f, proto, rest); r.final.Some? ==> ServerEnding(s, r.final.value)
    decreases MAX_ATTEMPTS - n, 0
  {
    hide Respond, FrameBytes, Text.Parse, RejectFrame, DriveFraming, PrologueWith, Drive, Text.EncodeResponse, Says,
         ServerHistory, RetryFrame;
    if !s.Supports(proto) && s.policy == RetryPolicy && Fits(RetryFrame(s.supported[0])) {
      ServerHistoryExtends(s, dead, f, proto);
      ServerEndsWell(s, n + 1, dead + [f, RetryFrame(s.supported[0])], rest);
    } else if !s.Supports(proto) && s.policy == SwitchPolicy {
      NoRetriesWithoutPolicy(s, dead);
      assert dead + [f] == [f] && Unsupported(s, f);
    }
  }

  lemma ServerHistoryExtends(s: Setup, dead: seq<HandshakeFrame>, f: HandshakeFrame, name: bytes)
    requires ServerHistory(s, dead) && s.policy == RetryPolicy && s.supported != []
    requires Says(f.neg, Text.Proposal, name) && name !in s.supported
    ensures ServerHistory(s, dead + [f, RetryFrame(s.supported[0])])
  {
    hide Says, Text.EncodeResponse;
    var longer := dead + [f, RetryFrame(s.supported[0])];
    assert longer[..|longer| - 2] == dead && longer[|longer| - 2] == f && Unsupported(s, f);
  }

  lemma NoRetriesWithoutPolicy(s: Setup, dead: seq<HandshakeFrame>)
    requires ServerHistory(s, dead) && s.policy != RetryPolicy
    ensures dead == []
  {
  }

  lemma HistoriesBegin(c: Setup, s: Setup)
    ensures ClientHistory(c, [], c.proposed) && ServerHistory(s, [])
  {
  }

  /** The prologue spelled out: the magic, the opening negotiation_data with its length, the application's, the dead frames. */
  function ChainedPrologue(neg: bytes, app: bytes, dead: seq<HandshakeFrame>): bytes {
    Ascii("NoiseSocketInit1") + Uint16(|neg|) + neg + app + EncodeAll(dead)
  }

  /** Whatever arrives, the whole client run keeps the rules. */
  lemma ClientKeepsTheRules(s: Setup, inbox: bytes)
    ensures var r := ClientRun(s, inbox);
            && AllOpened(s, r.attempts)
            && (r.final.Some? ==>
                  var f := r.final.value;
                  && ClientEnding(s, f) && (f.proto == s.proposed || f.proto in s.fallback)
                  && f.driven.hs.prologue == ChainedPrologue(f.attempt.neg, s.appPrologue, f.attempt.dead))
  {
    hide Initiate;
    HistoriesBegin(s, s);
    ClientEndsWell(s, 0, s.proposed, [], inbox);
  }

  /** And so does the whole server run. */
  lemma ServerKeepsTheRules(s: Setup, inbox: bytes)
    requires s.HasTarget()
    ensures var r := ServerRun(s, inbox);
            r.final.Some? ==>
              var f := r.final.value;
              && ServerEnding(s, f) && f.proto in s.supported
              && f.driven.hs.prologue == ChainedPrologue(f.attempt.neg, s.appPrologue, f.attempt.dead)
  {
    hide Respond;
    HistoriesBegin(s, s);
    ServerEndsWell(s, 0, [], inbox);
  }

  /** The run is a reply that does not settle and then the next attempt; or nothing, if the reply fits no frame. */
  ghost predicate Retries(s: Setup, n: nat, dead: seq<HandshakeFrame>, f: HandshakeFrame, reply: HandshakeFrame, rest: bytes, r: Run)
    requires s.HasTarget()
  {
    if |reply.neg| <= MAX_LENGTH then
      var later := Respond(s, n + 1, dead + [f, reply], rest);
      r.sent == FrameBytes(reply) + later.sent && r.final == later.final
    else r == Failed(rest)
  }

  /** The server, by its policy: a supported name is joined and nothing else is; what it says otherwise, and whether it goes on. */
  lemma ServerFollowsPolicy(s: Setup, n: nat, dead: seq<HandshakeFrame>, f: HandshakeFrame, name: bytes, rest: bytes)
    requires s.HasTarget() && n < 4 && Says(f.neg, Text.Proposal, name)
    ensures forall inbox: bytes | ReadFrame(inbox) == Some((f, rest)) :: Respond(s, n, dead, inbox) == Answer(s, n, dead, f, name, rest)
    ensures name in s.supported ==> (Answer(s, n, dead, f, name, rest).final.Some? <==> Join(s, name, f.neg, dead, f.msg, rest).Some?)
    ensures name !in s.supported && s.policy == RetryPolicy ==>
              Retries(s, n, dead, f, HandshakeFrame(Text.EncodeResponse(Text.Retry, s.supported[0], []), []), rest,
                      Answer(s, n, dead, f, name, rest))
    ensures name !in s.supported && s.policy == SwitchPolicy ==>
              var start := Propose(s, s.supported[0], Text.EncodeResponse(Text.Switch, s.supported[0], []), dead + [f]);
              && (Answer(s, n, dead, f, name, rest).final.Some? <==> start.Some?)
              && (start.Some? ==> FrameBytes(start.value.1) <= Answer(s, n, dead, f, name, rest).sent)
    ensures name !in s.supported && (s.policy == Unset || s.policy == RejectPolicy) ==>
              var reason := Ascii("protocol ") + s.quote(name) + Ascii(" not supported");
              var reply := HandshakeFrame(Text.EncodeResponse(Text.Reject, [], reason), []);
              && Answer(s, n, dead, f, name, rest).final.None?
              && Answer(s, n, dead, f, name, rest).sent == if |reply.neg| <= MAX_LENGTH then FrameBytes(reply) else []
    ensures name !in s.supported && s.policy == OtherPolicy ==> Answer(s, n, dead, f, name, rest) == Failed(rest)
  {
    hide FrameBytes, ReadFrame, Text.Parse, Text.EncodeResponse, Propose, Join, Drive, DriveFraming, Ascii;
  }

  // ---- Downgrade binding ----

  /**
   * Downgrade binding, whatever the network replaced, dropped or injected, and whatever application
   * prologues the two sides use: if a client and a server reach final handshakes with equal prologues, they
   * agree on the opening frame's negotiation_data, chose the same protocol, and took complementary Noise
   * roles after dead frames of equal parity. Unless one application prologue can imitate the other, these
   * are also equal and so are the dead frames.
   */
  lemma DowngradeBinding(c: Setup, s: Setup, toClient: bytes, toServer: bytes)
    requires NamesAreClean(c) && NamesAreClean(s) && s.HasTarget()
    requires ClientRun(c, toClient).final.Some? && ServerRun(s, toServer).final.Some?
    requires ClientRun(c, toClient).final.value.driven.hs.prologue == ServerRun(s, toServer).final.value.driven.hs.prologue
    ensures var f, g := ClientRun(c, toClient).final.value, ServerRun(s, toServer).final.value;
            && f.attempt.neg == g.attempt.neg && f.proto == g.proto && f.initiator != g.initiator
            && (f.initiator <==> |f.attempt.dead| % 2 == 0) && |f.attempt.dead| % 2 == |g.attempt.dead| % 2
            && SameBytes(c.appPrologue, f.attempt.dead, s.appPrologue, g.attempt.dead)
            && (!Imitable(c.appPrologue, s.appPrologue) ==> f.attempt == g.attempt && c.appPrologue == s.appPrologue)
  {
    hide Initiate, Respond, PrologueWith, Text.Parse, Text.EncodeProposal, Text.EncodeResponse, Imitable, EncodeAll,
         ClientHistory, ServerHistory;
    HistoriesBegin(c, s);
    ClientEndsWell(c, 0, c.proposed, [], toClient);
    ServerEndsWell(s, 0, [], toServer);
    var f, g := ClientRun(c, toClient).final.value, ServerRun(s, toServer).final.value;
    PrologueBindsOpening(f.attempt.neg, c.appPrologue, f.attempt.dead, g.attempt.neg, s.appPrologue, g.attempt.dead);
    if f.initiator {
      Text.ProposalRoundTrip(f.proto, c.appData);
    }
    if g.initiator {
      Text.ResponseRoundTrip(Text.Switch, g.proto, []);
    }
    if !Imitable(c.appPrologue, s.appPrologue) {
      SameBytesSameHistory(c.appPrologue, f.attempt.dead, s.appPrologue, g.attempt.dead);
    }
  }

  /** The channel binding, a hash over the prologue among other things, does not collide on these two states. */
  ghost predicate NoCollision(z: Library, h: HandshakeState, k: HandshakeState) {
    z.channelBinding(h) == z.channelBinding(k) ==> h.prologue == k.prologue
  }

  /** The same from the fingerprints two users compare: equal fingerprints rule out any downgrade. */
  lemma EqualFingerprintsRuleOutDowngrade(c: Setup, s: Setup, toClient: bytes, toServer: bytes)
    requires NamesAreClean(c) && NamesAreClean(s) && s.HasTarget() && c.z == s.z
    requires ClientRun(c, toClient).Done() && ServerRun(s, toServer).Done()
    requires var h, k := ClientRun(c, toClient).final.value.driven.hs, ServerRun(s, toServer).final.value.driven.hs;
             NoCollision(c.z, h, k) && c.z.channelBinding(h) == c.z.channelBinding(k)
    ensures var f, g := ClientRun(c, toClient).final.value, ServerRun(s, toServer).final.value;
            && f.attempt.neg == g.attempt.neg && f.proto == g.proto && f.initiator != g.initiator
            && (!Imitable(c.appPrologue, s.appPrologue) ==> f.attempt == g.attempt)
  {
    hide ClientRun, ServerRun, Imitable;
    DowngradeBinding(c, s, toClient, toServer);
  }
}
