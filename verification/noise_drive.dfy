/** Running the messages of a Noise handshake in turn over a framed byte stream. */
module NoiseDrive {
  import opened Bytes
  import opened Noise

  /** How a transport puts one handshake message on the wire and takes one off it. */
  datatype Framing = Framing(put: bytes -> bytes, get: bytes -> Option<(bytes, bytes)>)

  ghost predicate PutGetLaw(f: Framing, m: bytes, rest: bytes) {
    f.get(f.put(m) + rest) == Some((m, rest)) && f.put(m) != []
  }

  /** Messages that fit their 16-bit length are framed without loss. */
  ghost predicate Faithful(f: Framing) {
    forall m: bytes, rest: bytes | |m| <= MAX_MSG_LEN :: PutGetLaw(f, m, rest)
  }

  // A side that ran out of bytes while waiting for a frame is starved; any other failure is its own.
  datatype Ending = Complete | Starved | Refused

  // What a drive writes, what it leaves unread, its last state, and how it ended.
  datatype Driven = Driven(sent: bytes, rest: bytes, hs: HandshakeState, end: Ending) {
    predicate Done() {
      end.Complete?
    }
  }

  /**
   * All remaining messages. The side that is `initiator` writes the even ones; `pending`, unless
   * empty, is taken as the message of the first read turn instead of a frame.
   */
  function Drive(z: Library, f: Framing, hs: HandshakeState, initiator: bool, pending: bytes, inbox: bytes): (d: Driven)
    ensures d.hs.cfg == hs.cfg && d.hs.prologue == hs.prologue && hs.log <= d.hs.log
    ensures d.Done() && |hs.log| <= hs.cfg.messages ==> |d.hs.log| == hs.cfg.messages
    decreases hs.cfg.messages - |hs.log|
  {
    if |hs.log| >= hs.cfg.messages then Driven([], inbox, hs, Complete)
    else if (|hs.log| % 2 == 0) == initiator then
      match z.compose(hs)
      case None => Driven([], inbox, hs, Refused)
      case Some(m) =>
        if |m| > MAX_MSG_LEN then Driven([], inbox, Extend(hs, m), Refused) else
        var tail := Drive(z, f, Extend(hs, m), initiator, pending, inbox);
        tail.(sent := f.put(m) + tail.sent)
    else if pending != [] then
      if z.accepts(hs, pending) then Drive(z, f, Extend(hs, pending), initiator, [], inbox)
      else Driven([], inbox, hs, Refused)
    else
      match f.get(inbox)
      case None => Driven([], [], hs, Starved)
      case Some((m, rest)) =>
        if z.accepts(hs, m) then Drive(z, f, Extend(hs, m), initiator, [], rest)
        else Driven([], rest, hs, Refused)
  }

  /** The frames of the messages in `log`, from index `from` on, that the given side writes. */
  function OwnFrames(f: Framing, log: seq<bytes>, from: nat, initiator: bool): bytes
    decreases |log| - from
  {
    if from >= |log| then []
    else (if (from % 2 == 0) == initiator then f.put(log[from]) else []) + OwnFrames(f, log, from + 1, initiator)
  }

  // ---- For the loops that run a drive ----

  /** A loop that has written `sent` and now holds `hs` will end as `whole`. */
  ghost predicate DrivingOnCourse(z: Library, f: Framing, whole: Driven, hs: HandshakeState, initiator: bool,
                                  pending: bytes, inbox: bytes, sent: bytes)
  {
    var tail := Drive(z, f, hs, initiator, pending, inbox);
    whole == tail.(sent := sent + tail.sent)
  }

  lemma DrivingStarts(z: Library, f: Framing, hs: HandshakeState, initiator: bool, pending: bytes, inbox: bytes)
    ensures DrivingOnCourse(z, f, Drive(z, f, hs, initiator, pending, inbox), hs, initiator, pending, inbox, [])
  {
    var d := Drive(z, f, hs, initiator, pending, inbox);
    assert [] + d.sent == d.sent;
  }

  lemma DrivingContinues(z: Library, f: Framing, whole: Driven, hs: HandshakeState, initiator: bool,
                         pending: bytes, inbox: bytes, sent: bytes)
    requires DrivingOnCourse(z, f, whole, hs, initiator, pending, inbox, sent)
    ensures |hs.log| >= hs.cfg.messages ==> whole == Driven(sent, inbox, hs, Complete)
    ensures |hs.log| < hs.cfg.messages && (|hs.log| % 2 == 0) == initiator ==>
              match z.compose(hs)
              case None => whole == Driven(sent, inbox, hs, Refused)
              case Some(m) =>
                if |m| > MAX_MSG_LEN then whole == Driven(sent, inbox, Extend(hs, m), Refused)
                else DrivingOnCourse(z, f, whole, Extend(hs, m), initiator, pending, inbox, sent + f.put(m))
    ensures |hs.log| < hs.cfg.messages && (|hs.log| % 2 == 0) != initiator && pending != [] ==>
              if z.accepts(hs, pending)
              then DrivingOnCourse(z, f, whole, Extend(hs, pending), initiator, [], inbox, sent)
              else whole == Driven(sent, inbox, hs, Refused)
    ensures |hs.log| < hs.cfg.messages && (|hs.log| % 2 == 0) != initiator && pending == [] ==>
              match f.get(inbox)
              case None => whole == Driven(sent, [], hs, Starved)
              case Some((m, rest)) =>
                if z.accepts(hs, m) then DrivingOnCourse(z, f, whole, Extend(hs, m), initiator, [], rest, sent)
                else whole == Driven(sent, rest, hs, Refused)
  {
    assert sent + [] == sent;
    if |hs.log| < hs.cfg.messages && (|hs.log| % 2 == 0) == initiator {
      match z.compose(hs) {
        case None =>
        case Some(m) =>
          var tail := Drive(z, f, Extend(hs, m), initiator, pending, inbox);
          assert sent + (f.put(m) + tail.sent) == (sent + f.put(m)) + tail.sent;
      }
    }
  }

  /** Every message from index `from` on is what its side composed for its turn, or what it accepted from the other. */
  ghost predicate Sound(z: Library, hs: HandshakeState, from: nat, initiator: bool) {
    forall k | from <= k < |hs.log| :: SoundAt(z, hs, k, initiator)
  }

  ghost predicate SoundAt(z: Library, hs: HandshakeState, k: nat, initiator: bool)
    requires k < |hs.log|
  {
    var before := HandshakeState(hs.cfg, hs.prologue, hs.log[..k]);
    if (k % 2 == 0) == initiator then z.compose(before) == Some(hs.log[k]) && |hs.log[k]| <= MAX_MSG_LEN
    else z.accepts(before, hs.log[k])
  }

  lemma SoundStep(z: Library, hs: HandshakeState, k: nat, initiator: bool)
    requires k < |hs.log| && SoundAt(z, hs, k, initiator) && Sound(z, hs, k + 1, initiator)
    ensures Sound(z, hs, k, initiator)
  {
    hide SoundAt;
  }

  lemma OwnFramesStep(f: Framing, log: seq<bytes>, from: nat, initiator: bool, sent: bytes)
    requires from < |log|
    ensures var frame := if (from % 2 == 0) == initiator then f.put(log[from]) else [];
            sent + OwnFrames(f, log, from, initiator) == sent + frame + OwnFrames(f, log, from + 1, initiator)
  {
    var frame := if (from % 2 == 0) == initiator then f.put(log[from]) else [];
    var later := OwnFrames(f, log, from + 1, initiator);
    assert sent + (frame + later) == sent + frame + later;
  }

  lemma NothingUnsound(z: Library, hs: HandshakeState, initiator: bool)
    ensures Sound(z, hs, |hs.log|, initiator)
  {
  }

  lemma NoOwnFrames(f: Framing, log: seq<bytes>, initiator: bool)
    ensures OwnFrames(f, log, |log|, initiator) == []
  {
  }

  lemma CourseExtendsTheLog(z: Library, f: Framing, whole: Driven, hs: HandshakeState, initiator: bool,
                            pending: bytes, inbox: bytes, sent: bytes)
    requires DrivingOnCourse(z, f, whole, hs, initiator, pending, inbox, sent)
    ensures hs.log <= whole.hs.log && whole.hs.cfg == hs.cfg && whole.hs.prologue == hs.prologue
  {
    hide Drive;
  }

  lemma {:induction false} CourseWritesItsTurns(z: Library, f: Framing, whole: Driven, hs: HandshakeState, initiator: bool,
                                                pending: bytes, inbox: bytes, sent: bytes)
    requires |hs.log| <= hs.cfg.messages && DrivingOnCourse(z, f, whole, hs, initiator, pending, inbox, sent)
    ensures whole.Done() ==> whole.sent == sent + OwnFrames(f, whole.hs.log, |hs.log|, initiator)
    ensures whole.Done() ==> Sound(z, whole.hs, |hs.log|, initiator)
    decreases hs.cfg.messages - |hs.log|
  {
    hide DrivingOnCourse, Drive, OwnFrames, Sound;
    var n := |hs.log|;
    DrivingContinues(z, f, whole, hs, initiator, pending, inbox, sent);
    if whole.Done() && n < hs.cfg.messages {
      var own := (n % 2 == 0) == initiator;
      var frame := if own || pending != [] then None else f.get(inbox);
      var m := if own then z.compose(hs).value else if pending != [] then pending else frame.value.0;
      var next, later := Extend(hs, m), sent + (if own then f.put(m) else []);
      assert sent + [] == sent;
      var left := if own then pending else [];
      var rest := if own || pending != [] then inbox else frame.value.1;
      assert DrivingOnCourse(z, f, whole, next, initiator, left, rest, later);
      CourseExtendsTheLog(z, f, whole, next, initiator, left, rest, later);
      CourseWritesItsTurns(z, f, whole, next, initiator, left, rest, later);
      assert next.log[n] == m && whole.hs.log[n] == m;
      OwnFramesStep(f, whole.hs.log, n, initiator, sent);
      assert whole.hs.log[..n] == hs.log;
      SoundStep(z, whole.hs, n, initiator);
    } else {
      NoOwnFrames(f, hs.log, initiator);
      NothingUnsound(z, hs, initiator);
      assert sent + [] == sent;
    }
  }

  /**
   * A completed drive has put all messages of the pattern through and has written exactly the frames of
   * its own turns, in order, whatever it was sent; what it wrote it had composed, and what it took in it had accepted.
   */
  lemma DriveWritesItsTurns(z: Library, f: Framing, hs: HandshakeState, initiator: bool, pending: bytes, inbox: bytes)
    requires |hs.log| <= hs.cfg.messages
    ensures var d := Drive(z, f, hs, initiator, pending, inbox);
            d.Done() ==>
              && |d.hs.log| == hs.cfg.messages && d.sent == OwnFrames(f, d.hs.log, |hs.log|, initiator)
              && Sound(z, d.hs, |hs.log|, initiator)
  {
    hide DrivingOnCourse, OwnFrames, Sound;
    var d := Drive(z, f, hs, initiator, pending, inbox);
    DrivingStarts(z, f, hs, initiator, pending, inbox);
    CourseWritesItsTurns(z, f, d, hs, initiator, pending, inbox, []);
    var own := OwnFrames(f, d.hs.log, |hs.log|, initiator);
    assert [] + own == own;
  }

  // ---- Two honest sides ----

  /**
   * Two compatible sides that are equally far, each reading exactly what the other writes, both finish
   * in the same log: every message was written by one side and read by the other.
   */
  lemma {:induction false} DrivesAgree(z: Library, f: Framing, a: Config, b: Config, prologue: bytes, log: seq<bytes>,
                                       toA: bytes, toB: bytes)
    requires Faithful(f) && Interoperable(z, a, b)
    requires HonestLog(z, a, b, prologue, log) && |log| <= a.messages
    requires toB == Drive(z, f, HandshakeState(a, prologue, log), true, [], toA).sent
    requires toA == Drive(z, f, HandshakeState(b, prologue, log), false, [], toB).sent
    ensures var da := Drive(z, f, HandshakeState(a, prologue, log), true, [], toA);
            var db := Drive(z, f, HandshakeState(b, prologue, log), false, [], toB);
            && da.Done() && db.Done() && da.rest == db.rest == []
            && da.hs.log == db.hs.log && HonestLog(z, a, b, prologue, da.hs.log) && |da.hs.log| == a.messages
            && z.split(da.hs) == z.split(db.hs) && z.channelBinding(da.hs) == z.channelBinding(db.hs)
    decreases a.messages - |log|
  {
    if |log| < a.messages {
      assert NextMessageWorks(z, a, b, prologue, log);
      var m := z.compose(HandshakeState(Writer(a, b, |log|), prologue, log)).value;
      HonestLogExtends(z, a, b, prologue, log, m);
      var ha, hb := HandshakeState(a, prologue, log + [m]), HandshakeState(b, prologue, log + [m]);
      if |log| % 2 == 0 {
        var rest := Drive(z, f, ha, true, [], toA).sent;
        assert toB == f.put(m) + rest;
        assert PutGetLaw(f, m, rest);
        DrivesAgree(z, f, a, b, prologue, log + [m], toA, rest);
      } else {
        var rest := Drive(z, f, hb, false, [], toB).sent;
        assert toA == f.put(m) + rest;
        assert PutGetLaw(f, m, rest);
        DrivesAgree(z, f, a, b, prologue, log + [m], rest, toB);
      }
    }
  }

  /** The bytes each of two compatible sides gets to read from here on: first the initiator's, then the responder's. */
  function HonestStreams(z: Library, f: Framing, a: Config, b: Config, prologue: bytes, log: seq<bytes>): (bytes, bytes)
    decreases a.messages - |log|
  {
    if |log| >= a.messages then ([], []) else
    match z.compose(HandshakeState(Writer(a, b, |log|), prologue, log))
    case None => ([], [])
    case Some(m) =>
      var (toA, toB) := HonestStreams(z, f, a, b, prologue, log + [m]);
      if |log| % 2 == 0 then (toA, f.put(m) + toB) else (f.put(m) + toA, toB)
  }

  /** Such a pair of streams exists. */
  lemma {:induction false} HonestStreamsFit(z: Library, f: Framing, a: Config, b: Config, prologue: bytes, log: seq<bytes>)
    requires Faithful(f) && Interoperable(z, a, b)
    requires HonestLog(z, a, b, prologue, log) && |log| <= a.messages
    ensures var (toA, toB) := HonestStreams(z, f, a, b, prologue, log);
            && toB == Drive(z, f, HandshakeState(a, prologue, log), true, [], toA).sent
            && toA == Drive(z, f, HandshakeState(b, prologue, log), false, [], toB).sent
    decreases a.messages - |log|
  {
    if |log| < a.messages {
      assert NextMessageWorks(z, a, b, prologue, log);
      var m := z.compose(HandshakeState(Writer(a, b, |log|), prologue, log)).value;
      HonestLogExtends(z, a, b, prologue, log, m);
      var (toA, toB) := HonestStreams(z, f, a, b, prologue, log + [m]);
      HonestStreamsFit(z, f, a, b, prologue, log + [m]);
      assert PutGetLaw(f, m, if |log| % 2 == 0 then toB else toA);
    }
  }
}
