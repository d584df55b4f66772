/** How two sides with different application prologues can finish one handshake behind different histories. */
module NegotiationImitation {
  import opened Bytes
  import opened LengthPrefix
  import opened Noise
  import opened NoiseDrive
  import opened NoiseSocketFrames
  import opened Negotiation
  import opened NegotiationAgreement
  import opened PrologueHistory
  import Text = NegotiationText

  lemma TwoFrames(f: HandshakeFrame, g: HandshakeFrame)
    ensures EncodeAll([f, g]) == FrameBytes(f) + FrameBytes(g)
  {
    hide FrameBytes;
    assert [f, g][1..] == [g] && EncodeAll([g]) == FrameBytes(g) + EncodeAll([g][1..]);
    assert FrameBytes(g) + [] == FrameBytes(g);
  }

  /** The prologue of a client that spells out two frames is that of a server that recorded them. */
  lemma SpelledOut(neg: bytes, app: bytes, f: HandshakeFrame, g: HandshakeFrame)
    ensures PrologueWith(neg, app + FrameBytes(f) + FrameBytes(g), []) == PrologueWith(neg, app, [f, g])
  {
    hide FrameBytes, Magic;
    TwoFrames(f, g);
    var head, t := Magic() + Uint16(|neg|) + neg, FrameBytes(f) + FrameBytes(g);
    assert head + (app + FrameBytes(f) + FrameBytes(g)) + [] == head + app + t;
  }

  /** Two frames are four fields, so such a client and server are among those the condition excludes. */
  lemma SpelledOutIsImitable(app: bytes, f: HandshakeFrame, g: HandshakeFrame)
    requires Fits(f) && Fits(g)
    ensures Imitable(app + FrameBytes(f) + FrameBytes(g), app)
  {
    hide FrameBytes, SplitFields, EncodeFields, Flatten;
    var long, d := app + FrameBytes(f) + FrameBytes(g), FrameBytes(f) + FrameBytes(g);
    assert long == app + d && long[|app|..] == d && app == long[..|app|];
    FrameBytesSize(f);
    assert !(long <= app) && app <= long;
    TwoFrames(f, g);
    TranscriptIsFields([f, g]);
    SplitFieldsInverts(Flatten([f, g]));
  }

  /** Both sides completed one handshake, with one prologue, one pair of keys and one fingerprint, each behind its own history. */
  ghost predicate Together(z: Library, rc: Run, dead: seq<HandshakeFrame>, rs: Run, dead': seq<HandshakeFrame>) {
    && rc.Done() && rs.Done() && rc.final.value.attempt.dead == dead && rs.final.value.attempt.dead == dead'
    && var h, k := rc.final.value.driven.hs, rs.final.value.driven.hs;
       && h.prologue == k.prologue && h.log == k.log && z.split(h) == z.split(k) && z.channelBinding(h) == z.channelBinding(k)
  }

  /**
   * Two runs that finish together behind different histories. The server, asked first for a name it does
   * not support, records that proposal `f` and its own retry frame `g`. The client has seen neither, but its
   * application prologue goes on with exactly these frames; from then on each reads what the other writes.
   */
  lemma HistoriesCanDiffer(c: Setup, s: Setup, f: HandshakeFrame, name: bytes, data: bytes) returns (toC: bytes, toS: bytes)
    requires c.z == s.z && NamesAreClean(c) && Opens(c) && Compatible(c, s)
    requires s.policy == RetryPolicy && s.HasTarget() && c.proposed == s.supported[0]
    requires Fits(RetryFrame(c.proposed)) && s.build(c.proposed, false).Some? && Proposable(c, c.proposed, ProposalNeg(c, c.proposed))
    requires Fits(f) && f.neg == Text.EncodeProposal(name, data) && name != [] && Text.SEMICOLON !in name && !s.Supports(name)
    requires c.appPrologue == s.appPrologue + FrameBytes(f) + FrameBytes(RetryFrame(c.proposed))
    ensures toS == FrameBytes(f) + ClientRun(c, toC).sent
    ensures ServerRun(s, toS).sent == FrameBytes(RetryFrame(c.proposed)) + toC
    ensures Together(c.z, ClientRun(c, toC), [], ServerRun(s, toS), [f, RetryFrame(c.proposed)])
  {
    hide FrameBytes, PrologueWith, Initiate, Respond, Text.EncodeProposal, Text.EncodeResponse, Drive, DriveFraming, Join, Propose;
    var target, g := c.proposed, RetryFrame(c.proposed);
    var neg := ProposalNeg(c, target);
    var prologue := PrologueWith(neg, c.appPrologue, []);
    SpelledOut(neg, s.appPrologue, f, g);
    var m := ProposeWorks(c, target, neg, []);
    var h := HandshakeFrame(neg, m);
    var x, y := c.build(target, true).value, s.build(target, false).value;
    JoinWorks(c, s, target, neg, prologue, [f, g], m, []);
    DriveFramingIsFaithful();
    HonestStreamsFit(c.z, DriveFraming(), x, y, prologue, [m]);
    var streams := HonestStreams(c.z, DriveFraming(), x, y, prologue, [m]);
    var toB := streams.1;
    toC, toS := streams.0, FrameBytes(f) + (FrameBytes(h) + toB);
    JoinWorks(c, s, target, neg, prologue, [f, g], m, toB);
    var m1, more := AnswerIsAFrame(c.z, x, y, prologue, m, toB);
    ClientAccepted(c, 0, target, [], m, m1, more);
    ServerReads(s, 0, name, [], f, data, FrameBytes(h) + toB);
    ServerReads(s, 1, target, [f, g], h, c.appData, toB);
    assert [] + [f, g] == [f, g];
    DrivesAgree(c.z, DriveFraming(), x, y, prologue, [m], toC, toB);
  }

  /** Such settings exist: with the protocols A and B of the examples, a client that proposes B and a server that offers B. */
  lemma DifferentHistoriesHappen()
    ensures exists c: Setup, s: Setup, toC: bytes, toS: bytes, dead: seq<HandshakeFrame> ::
              && NamesAreClean(c) && NamesAreClean(s) && s.HasTarget() && dead != []
              && Together(c.z, ClientRun(c, toC), [], ServerRun(s, toS), dead)
  {
    hide ClientRun, ServerRun, Together, FrameBytes;
    var f, g := HandshakeFrame(Text.EncodeProposal([65], []), []), RetryFrame([66]);
    var s := ExampleSetup([[66]], RetryPolicy);
    var c := s.(proposed := [66], appPrologue := s.appPrologue + FrameBytes(f) + FrameBytes(g));
    ExamplesArePaired([[66]], RetryPolicy);
    assert s.build([66], false) == Some(Config([66], 2, false, 0));
    assert |Text.EncodeProposal([65], [])| < 100 && |Text.EncodeProposal([66], [])| < 100;
    assert |Text.EncodeResponse(Text.Retry, [66], [])| < 100;
    ExampleFits(c, s);
    var toC, toS := HistoriesCanDiffer(c, s, f, [65], []);
    assert Together(c.z, ClientRun(c, toC), [], ServerRun(s, toS), [f, g]) && [f, g] != [];
  }

  /** Example settings fit together whatever their application prologues and proposals. */
  lemma ExampleFits(c: Setup, s: Setup)
    requires c.z == s.z == ExampleLibrary() && c.build == s.build == ExampleBuild
    ensures NamesAreClean(c) && NamesAreClean(s) && Opens(c) && Compatible(c, s)
  {
  }
}
