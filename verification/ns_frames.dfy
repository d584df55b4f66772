/** NoiseSocket handshake frames, and the prologue that chains them. */
module NoiseSocketFrames {
  import opened Bytes
  import opened LengthPrefix
  import opened NoiseDrive
  import Wire

  /** negotiation_data and noise_message; an absent field is the empty one. */
  datatype HandshakeFrame = HandshakeFrame(neg: bytes, msg: bytes)

  /** The exact wire bytes of a frame, which are also what the transcript records. */
  function FrameBytes(f: HandshakeFrame): bytes {
    Frame(f.neg) + Frame(f.msg)
  }

  predicate Fits(f: HandshakeFrame) {
    |f.neg| <= MAX_LENGTH && |f.msg| <= MAX_LENGTH
  }

  function ReadFrame(wire: bytes): Option<(HandshakeFrame, bytes)> {
    match Unframe(wire)
    case None => None
    case Some((neg, later)) =>
      match Unframe(later)
      case None => None
      case Some((msg, rest)) => Some((HandshakeFrame(neg, msg), rest))
  }

  lemma ReadFrameInvertsFrameBytes(f: HandshakeFrame, rest: bytes)
    requires Fits(f)
    ensures ReadFrame(FrameBytes(f) + rest) == Some((f, rest))
  {
    hide Frame, Unframe;
    UnframeInvertsFrame(f.neg, Frame(f.msg) + rest);
    UnframeInvertsFrame(f.msg, rest);
    assert FrameBytes(f) + rest == Frame(f.neg) + (Frame(f.msg) + rest);
  }

  /** A frame that was read fits the lengths it would be written with. */
  lemma ReadFrameFits(wire: bytes)
    requires ReadFrame(wire).Some?
    ensures Fits(ReadFrame(wire).value.0)
  {
  }

  /** Exactly the frames within the 16-bit lengths are read: negotiation_data first, then the Noise message. */
  lemma ReadFrameIff(wire: bytes, f: HandshakeFrame, rest: bytes)
    ensures ReadFrame(wire) == Some((f, rest))
            <==> |f.neg| <= MAX_LENGTH && |f.msg| <= MAX_LENGTH
                 && wire == Uint16(|f.neg|) + f.neg + (Uint16(|f.msg|) + f.msg + rest)
  {
    hide Unframe;
    var later := Uint16(|f.msg|) + f.msg + rest;
    UnframeIff(wire, f.neg, later);
    UnframeIff(later, f.msg, rest);
    if ReadFrame(wire) == Some((f, rest)) {
      var (neg, tail) := Unframe(wire).value;
      UnframeIff(wire, neg, tail);
      UnframeIff(tail, f.msg, rest);
    }
  }

  lemma NothingToRead()
    ensures ReadFrame([]) == None
  {
  }

  function EncodeAll(frames: seq<HandshakeFrame>): bytes {
    if frames == [] then [] else FrameBytes(frames[0]) + EncodeAll(frames[1..])
  }

  ghost predicate AllFit(frames: seq<HandshakeFrame>) {
    forall k | 0 <= k < |frames| :: Fits(frames[k])
  }

  lemma FrameBytesSize(f: HandshakeFrame)
    ensures |FrameBytes(f)| == 4 + |f.neg| + |f.msg|
  {
  }

  lemma EmptyTranscript(frames: seq<HandshakeFrame>)
    ensures EncodeAll(frames) == [] <==> frames == []
  {
    if frames != [] {
      FrameBytesSize(frames[0]);
    }
  }

  /** A transcript determines the frames it records. */
  lemma {:induction false} TranscriptIsInjective(a: seq<HandshakeFrame>, b: seq<HandshakeFrame>)
    requires AllFit(a) && AllFit(b) && EncodeAll(a) == EncodeAll(b)
    ensures a == b
    decreases |a|
  {
    EmptyTranscript(a);
    EmptyTranscript(b);
    if a != [] && b != [] {
      ReadFrameInvertsFrameBytes(a[0], EncodeAll(a[1..]));
      ReadFrameInvertsFrameBytes(b[0], EncodeAll(b[1..]));
      TranscriptIsInjective(a[1..], b[1..]);
      assert a == [a[0]] + a[1..] && b == [b[0]] + b[1..];
    }
  }

  lemma {:induction false} EncodeAppends(a: seq<HandshakeFrame>, b: seq<HandshakeFrame>)
    ensures EncodeAll(a + b) == EncodeAll(a) + EncodeAll(b)
  {
    hide FrameBytes;
    if a == [] {
      assert a + b == b;
    } else {
      assert (a + b)[1..] == a[1..] + b;
      EncodeAppends(a[1..], b);
    }
  }

  // ---- Prologues ----

  function Magic(): (r: bytes)
    ensures |r| == 16
  {
    Ascii("NoiseSocketInit1")
  }

  function BuildPrologue(initNeg: bytes, appPrologue: bytes): bytes {
    Magic() + Uint16(|initNeg|) + initNeg + appPrologue
  }

  /** The chained prologue of an attempt that follows the dead frames `dead`. */
  function PrologueWith(initNeg: bytes, appPrologue: bytes, dead: seq<HandshakeFrame>): bytes {
    BuildPrologue(initNeg, appPrologue) + EncodeAll(dead)
  }

  /**
   * Equal prologues come from the same opening negotiation_data, and from the same bytes after it: the
   * application prologue followed by the dead frames.
   */
  lemma PrologueBindsOpening(neg: bytes, app: bytes, dead: seq<HandshakeFrame>, neg': bytes, app': bytes, dead': seq<HandshakeFrame>)
    requires |neg| <= MAX_LENGTH && |neg'| <= MAX_LENGTH
    requires PrologueWith(neg, app, dead) == PrologueWith(neg', app', dead')
    ensures neg == neg' && app + EncodeAll(dead) == app' + EncodeAll(dead')
  {
    hide EncodeAll, Magic;
    var t, t' := neg + app + EncodeAll(dead), neg' + app' + EncodeAll(dead');
    assert PrologueWith(neg, app, dead) == Magic() + (Uint16(|neg|) + t);
    assert PrologueWith(neg', app', dead') == Magic() + (Uint16(|neg'|) + t');
    SplitEqual(Magic(), Uint16(|neg|) + t, Magic(), Uint16(|neg'|) + t');
    SplitEqual(Uint16(|neg|), t, Uint16(|neg'|), t');
    Uint16RoundTrip(|neg|);
    Uint16RoundTrip(|neg'|);
    assert t == neg + (app + EncodeAll(dead)) && t' == neg' + (app' + EncodeAll(dead'));
    SplitEqual(neg, app + EncodeAll(dead), neg', app' + EncodeAll(dead'));
  }

  // ---- Frames on a connection ----

  /** The frames after the opening ones carry no negotiation_data, and what they carry is ignored. */
  function DriveFraming(): Framing {
    Framing((m: bytes) => FrameBytes(HandshakeFrame([], m)),
            (wire: bytes) => match ReadFrame(wire) case None => None case Some((f, rest)) => Some((f.msg, rest)))
  }

  lemma DriveFramingIsFaithful()
    ensures NoiseDrive.Faithful(DriveFraming())
  {
    forall m: bytes, rest: bytes | |m| <= MAX_LENGTH ensures PutGetLaw(DriveFraming(), m, rest) {
      ReadFrameInvertsFrameBytes(HandshakeFrame([], m), rest);
      FrameBytesSize(HandshakeFrame([], m));
    }
  }

  /** A length of zero reads as no bytes at all. */
  method ReadLengthPrefixed(r: Wire.Conn) returns (m: bytes, ok: bool)
    modifies r`inbox
    ensures match Unframe(old(r.inbox))
            case Some((body, rest)) => ok && m == body && r.inbox == rest
            case None => !ok && r.inbox == []
  {
    var hdr, got := r.ReadFull(2);
    if !got {
      return [], false;
    }
    var n := FromUint16(hdr);
    if n == 0 {
      assert r.inbox[..0] == [] && r.inbox[0..] == r.inbox;
      return [], true;
    }
    m, ok := r.ReadFull(n);
  }

  method ReadHandshakeFrame(r: Wire.Conn) returns (f: HandshakeFrame, ok: bool)
    modifies r`inbox
    ensures match ReadFrame(old(r.inbox))
            case Some((frame, rest)) => ok && f == frame && r.inbox == rest && Fits(f)
            case None => !ok && r.inbox == []
  {
    f := HandshakeFrame([], []);
    ghost var wire := r.inbox;
    var neg, gotNeg := ReadLengthPrefixed(r);
    if !gotNeg {
      return f, false;
    }
    var msg, gotMsg := ReadLengthPrefixed(r);
    if gotMsg {
      ReadFrameFits(wire);
    }
    f, ok := HandshakeFrame(neg, msg), gotMsg;
  }

  method WriteFrameAndRecord(w: Wire.Conn, f: HandshakeFrame) returns (ok: bool)
    modifies w`outbox
    ensures ok <==> Fits(f) && w.open
    ensures w.outbox == old(w.outbox) + (if ok then FrameBytes(f) else [])
  {
    if |f.neg| > MAX_LENGTH || |f.msg| > MAX_LENGTH {
      return false;
    }
    ok := w.Write(FrameBytes(f));
  }
}
