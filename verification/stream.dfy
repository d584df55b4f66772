/**
 * The byte stream every transport offers: what one side writes, the other side reads, whatever the
 * sizes of the calls. A transport is one Codec (how a body becomes a frame and a frame a body); the
 * Write and Read loops above it, and the theorem about them, are stated here once.
 */
module ByteStream {
  import opened Bytes

  /**
   * `seal` turns one body into wire bytes and moves the sender's state; `open` takes one frame off
   * the front of the wire and returns the reader's next state, the body, and the rest of the wire.
   */
  datatype Codec<!S> = Codec(
    maxBody: nat,
    seal: (S, bytes) -> Option<(S, bytes)>,
    open: (S, bytes) -> Option<(S, bytes, bytes)>)

  ghost predicate Inverts<S>(c: Codec<S>, s: S, body: bytes) {
    match c.seal(s, body)
    case None => true
    case Some((next, frame)) => frame != [] && c.open(s, frame) == Some((next, body, []))
  }

  ghost predicate Stable<S>(c: Codec<S>, s: S, wire: bytes, more: bytes) {
    match c.open(s, wire)
    case None => true
    case Some((next, body, rest)) =>
      |rest| < |wire| && c.open(s, wire + more) == Some((next, body, rest + more))
  }

  /** What a transport has to prove: frames open to their bodies, and later bytes change nothing. */
  ghost predicate Faithful<S(!new)>(c: Codec<S>) {
    && c.maxBody > 0
    && (forall s: S, body: bytes | 0 < |body| <= c.maxBody :: Inverts(c, s, body))
    && (forall s: S, wire: bytes, more: bytes :: Stable(c, s, wire, more))
  }

  // ---- Write: chunk, seal, emit ----

  datatype Sent<S> = Sent(state: S, wire: bytes, n: nat, ok: bool)

  function Send<S>(c: Codec<S>, s: S, p: bytes): (r: Sent<S>)
    requires c.maxBody > 0
    ensures r.n <= |p| && (r.ok <==> r.n == |p|)
    decreases |p|
  {
    if p == [] then Sent(s, [], 0, true) else
    var n := Min(|p|, c.maxBody);
    match c.seal(s, p[..n])
    case None => Sent(s, [], 0, false)
    case Some((next, frame)) =>
      var tail := Send(c, next, p[n..]);
      Sent(tail.state, frame + tail.wire, n + tail.n, tail.ok)
  }

  /** A Write loop that has sealed `data[..n]` into `sent` and now holds state `s` is on course. */
  ghost predicate SendingOnCourse<S>(c: Codec<S>, start: S, data: bytes, n: nat, s: S, sent: bytes)
    requires c.maxBody > 0 && n <= |data|
  {
    var tail := Send(c, s, data[n..]);
    Send(c, start, data) == Sent(tail.state, sent + tail.wire, n + tail.n, tail.ok)
  }

  lemma SendingStarts<S>(c: Codec<S>, start: S, data: bytes)
    requires c.maxBody > 0
    ensures SendingOnCourse(c, start, data, 0, start, [])
  {
    assert data[0..] == data;
    assert [] + Send(c, start, data).wire == Send(c, start, data).wire;
  }

  lemma SendingContinues<S>(c: Codec<S>, start: S, data: bytes, n: nat, s: S, sent: bytes, m: nat)
    requires c.maxBody > 0 && n < |data| && m == Min(|data| - n, c.maxBody)
    requires SendingOnCourse(c, start, data, n, s, sent)
    ensures match c.seal(s, data[n..n + m])
            case None => Send(c, start, data) == Sent(s, sent, n, false)
            case Some((next, frame)) => SendingOnCourse(c, start, data, n + m, next, sent + frame)
  {
    assert data[n..][..m] == data[n..n + m] && data[n..][m..] == data[n + m..];
    match c.seal(s, data[n..n + m]) {
      case None =>
        assert sent + [] == sent;
      case Some((next, frame)) =>
        var tail := Send(c, next, data[n + m..]);
        assert sent + (frame + tail.wire) == (sent + frame) + tail.wire;
    }
  }

  lemma SendingEnds<S>(c: Codec<S>, start: S, data: bytes, s: S, sent: bytes)
    requires c.maxBody > 0 && SendingOnCourse(c, start, data, |data|, s, sent)
    ensures Send(c, start, data) == Sent(s, sent, |data|, true)
  {
    assert data[|data|..] == [] && sent + [] == sent;
  }

  // ---- Read: drain the buffer, or open one frame and keep what does not fit ----

  datatype Received<S> = Received(state: S, buffer: bytes, wire: bytes, data: bytes, ok: bool)

  function Receive<S>(c: Codec<S>, s: S, buffer: bytes, wire: bytes, size: nat): Received<S> {
    if size == 0 then
      Received(s, buffer, wire, [], true)
    else if buffer != [] then
      var n := Min(size, |buffer|);
      Received(s, buffer[n..], wire, buffer[..n], true)
    else
      match c.open(s, wire)
      case None => Received(s, buffer, wire, [], false)
      case Some((next, body, rest)) =>
        var n := Min(size, |body|);
        Received(next, body[n..], rest, body[..n], true)
  }

  /**
   * A Read hands over all that it can: from a buffer that is not empty, as much as fits and no frame; else one frame's
   * body, as much as fits. So a successful Read that returns less than was asked for leaves nothing in the buffer.
   */
  lemma ReadFillsTheSlice<S>(c: Codec<S>, s: S, buffer: bytes, wire: bytes, size: nat)
    ensures var r := Receive(c, s, buffer, wire, size);
            && |r.data| <= size && (r.ok && |r.data| < size ==> r.buffer == [])
            && (r.ok <==> size == 0 || buffer != [] || c.open(s, wire).Some?)
            && (size == 0 || buffer != [] ==> r.wire == wire && r.state == s && r.data + r.buffer == buffer)
            && (size > 0 && buffer == [] && r.ok ==>
                  && (r.state, r.data + r.buffer, r.wire) == c.open(s, wire).value)
  {
    if size > 0 && buffer == [] && c.open(s, wire).Some? {
      var body := c.open(s, wire).value.1;
      assert body[..Min(size, |body|)] + body[Min(size, |body|)..] == body;
    }
    assert [] + buffer == buffer;
  }

  // ---- The plaintext still on the wire ----

  /** All frames on the wire, opened in order: the reader's state after them and their bodies joined. */
  function InFlight<S>(c: Codec<S>, s: S, wire: bytes): Option<(S, bytes)>
    decreases |wire|
  {
    if wire == [] then Some((s, [])) else
    match c.open(s, wire)
    case None => None
    case Some((next, body, rest)) =>
      if |rest| >= |wire| then None else
      match InFlight(c, next, rest)
      case None => None
      case Some((last, plain)) => Some((last, body + plain))
  }

  lemma {:induction false} InFlightAppend<S(!new)>(c: Codec<S>, s: S, wire: bytes, more: bytes)
    requires Faithful(c)
    requires InFlight(c, s, wire).Some?
    ensures var (mid, plain) := InFlight(c, s, wire).value;
            InFlight(c, s, wire + more)
            == match InFlight(c, mid, more)
               case None => None
               case Some((last, tail)) => Some((last, plain + tail))
    decreases |wire|
  {
    if wire == [] {
      assert wire + more == more;
      match InFlight(c, s, more) {
        case None =>
        case Some((last, tail)) => assert [] + tail == tail;
      }
    } else {
      var (next, body, rest) := c.open(s, wire).value;
      assert Stable(c, s, wire, more);
      InFlightAppend(c, next, rest, more);
      var (mid, plain) := InFlight(c, next, rest).value;
      match InFlight(c, mid, more) {
        case None =>
        case Some((last, tail)) => assert body + (plain + tail) == (body + plain) + tail;
      }
    }
  }

  /** A Write puts exactly the bytes it counts on the wire, and tells the reader nothing else. */
  lemma {:induction false} SentIsInFlight<S(!new)>(c: Codec<S>, s: S, p: bytes)
    requires Faithful(c)
    ensures var r := Send(c, s, p);
            InFlight(c, s, r.wire) == Some((r.state, p[..r.n]))
    decreases |p|
  {
    if p != [] {
      var n := Min(|p|, c.maxBody);
      assert Inverts(c, s, p[..n]);
      match c.seal(s, p[..n]) {
        case None =>
        case Some((next, frame)) =>
          var tail := Send(c, next, p[n..]);
          SentIsInFlight(c, next, p[n..]);
          assert InFlight(c, next, []) == Some((next, []));
          assert p[..n] + [] == p[..n];
          InFlightAppend(c, s, frame, tail.wire);
          assert p[..n] + p[n..][..tail.n] == p[..n + tail.n];
      }
    }
  }

  /** The bodies of all frames on the wire, one by one. */
  function Opened<S>(c: Codec<S>, s: S, wire: bytes): seq<bytes>
    decreases |wire|
  {
    match c.open(s, wire)
    case None => []
    case Some((next, body, rest)) => if |rest| >= |wire| then [] else [body] + Opened(c, next, rest)
  }

  /** Bodies as large as they may be, except the last. */
  ghost predicate CutEvenly(bodies: seq<bytes>, maxBody: nat) {
    forall k | 0 <= k < |bodies| ::
      0 < |bodies[k]| <= maxBody && (k + 1 < |bodies| ==> |bodies[k]| == maxBody)
  }

  lemma NothingOpened<S(!new)>(c: Codec<S>, s: S)
    requires Faithful(c)
    ensures Opened(c, s, []) == []
  {
    EmptyWireHasNoFrame(c, s);
  }

  lemma FrameOpens<S(!new)>(c: Codec<S>, s: S, next: S, frame: bytes, body: bytes, more: bytes)
    requires Faithful(c) && 0 < |body| <= c.maxBody && c.seal(s, body) == Some((next, frame))
    ensures Opened(c, s, frame + more) == [body] + Opened(c, next, more)
  {
    assert Inverts(c, s, body) && Stable(c, s, frame, more);
    assert [] + more == more;
  }

  /** A Write cuts what it sends into frames of the largest body; only the last one of a Write that succeeds is shorter. */
  lemma {:induction false} SendCutsEvenly<S(!new)>(c: Codec<S>, s: S, p: bytes)
    requires c.maxBody > 0 && Faithful(c)
    ensures var r := Send(c, s, p);
            && CutEvenly(Opened(c, s, r.wire), c.maxBody)
            && (!r.ok ==> forall body | body in Opened(c, s, r.wire) :: |body| == c.maxBody)
            && (r.n == 0 ==> Opened(c, s, r.wire) == [])
    decreases |p|
  {
    hide Opened, Faithful;
    NothingOpened(c, s);
    if p != [] {
      var n := Min(|p|, c.maxBody);
      match c.seal(s, p[..n]) {
        case None =>
        case Some((next, frame)) =>
          var tail := Send(c, next, p[n..]);
          FrameOpens(c, s, next, frame, p[..n], tail.wire);
          SendCutsEvenly(c, next, p[n..]);
          CutEvenlyAfter(p[..n], Opened(c, next, tail.wire), c.maxBody);
      }
    }
  }

  lemma CutEvenlyAfter(first: bytes, later: seq<bytes>, maxBody: nat)
    requires 0 < |first| <= maxBody && (later != [] ==> |first| == maxBody) && CutEvenly(later, maxBody)
    ensures CutEvenly([first] + later, maxBody)
  {
    var bodies := [first] + later;
    forall k | 0 <= k < |bodies| ensures 0 < |bodies[k]| <= maxBody && (k + 1 < |bodies| ==> |bodies[k]| == maxBody) {
      if k > 0 {
        assert bodies[k] == later[k - 1];
      }
    }
  }

  // ---- Runs of Write and Read calls ----

  datatype Op = Write(data: bytes) | Read(size: nat)

  /** Both ends of one direction, with everything written and everything returned so far. */
  datatype Link<S> = Link(tx: S, rx: S, wire: bytes, buffer: bytes, written: bytes, delivered: bytes)

  /** A Read that finds no frame on the wire waits: the link does not move. */
  function Step<S>(c: Codec<S>, l: Link<S>, op: Op): Link<S>
    requires c.maxBody > 0
  {
    match op
    case Write(p) =>
      var r := Send(c, l.tx, p);
      l.(tx := r.state, wire := l.wire + r.wire, written := l.written + p[..r.n])
    case Read(size) =>
      var r := Receive(c, l.rx, l.buffer, l.wire, size);
      l.(rx := r.state, buffer := r.buffer, wire := r.wire, delivered := l.delivered + r.data)
  }

  function Run<S>(c: Codec<S>, l: Link<S>, ops: seq<Op>): Link<S>
    requires c.maxBody > 0
    decreases |ops|
  {
    if ops == [] then l else Run(c, Step(c, l, ops[0]), ops[1..])
  }

  /** The wire holds frames the reader can open, and nothing was lost, repeated or reordered. */
  ghost predicate Conserved<S>(c: Codec<S>, l: Link<S>) {
    match InFlight(c, l.rx, l.wire)
    case None => false
    case Some((last, plain)) =>
      last == l.tx && l.delivered + l.buffer + plain == l.written
  }

  lemma EmptyWireHasNoFrame<S(!new)>(c: Codec<S>, s: S)
    requires Faithful(c)
    ensures c.open(s, []).None?
  {
    assert Stable(c, s, [], []);
  }

  lemma StepConserves<S(!new)>(c: Codec<S>, l: Link<S>, op: Op)
    requires Faithful(c) && Conserved(c, l)
    ensures Conserved(c, Step(c, l, op))
  {
    var (last, plain) := InFlight(c, l.rx, l.wire).value;
    match op {
      case Write(p) =>
        var r := Send(c, l.tx, p);
        SentIsInFlight(c, l.tx, p);
        InFlightAppend(c, l.rx, l.wire, r.wire);
        assert l.delivered + l.buffer + (plain + p[..r.n]) == l.written + p[..r.n];
      case Read(size) =>
        if size > 0 && l.buffer == [] && l.wire != [] {
          var (next, body, rest) := c.open(l.rx, l.wire).value;
          var n := Min(size, |body|);
          var (_, tail) := InFlight(c, next, rest).value;
          assert body == body[..n] + body[n..];
          assert l.delivered + [] + (body + tail) == (l.delivered + body[..n]) + body[n..] + tail;
        } else if size > 0 && l.buffer == [] {
          EmptyWireHasNoFrame(c, l.rx);
          assert l.delivered + [] == l.delivered;
        } else if size > 0 {
          var n := Min(size, |l.buffer|);
          assert l.delivered + l.buffer == (l.delivered + l.buffer[..n]) + l.buffer[n..];
        } else {
          assert l.delivered + [] == l.delivered;
        }
    }
  }

  /**
   * The stream theorem: after any calls of any sizes, returned bytes, then the read buffer, then the
   * plaintext in flight, are together exactly what the writes accepted.
   */
  lemma {:induction false} StreamConserved<S(!new)>(c: Codec<S>, l: Link<S>, ops: seq<Op>)
    requires Faithful(c) && Conserved(c, l)
    ensures Conserved(c, Run(c, l, ops))
    decreases |ops|
  {
    if ops != [] {
      StepConserves(c, l, ops[0]);
      StreamConserved(c, Step(c, l, ops[0]), ops[1..]);
    }
  }

  /** The next thing to read is a frame with an empty body, which no Write makes but a peer may. */
  predicate EmptyFrameNext<S>(c: Codec<S>, l: Link<S>) {
    l.buffer == [] && c.open(l.rx, l.wire).Some? && c.open(l.rx, l.wire).value.1 == []
  }

  /**
   * Nothing waits for ever: while bytes are missing, a Read of positive size returns at least one,
   * except that an empty frame is taken off the wire and delivers nothing.
   */
  lemma ReadMakesProgress<S(!new)>(c: Codec<S>, l: Link<S>, size: nat)
    requires Faithful(c) && Conserved(c, l) && size > 0
    ensures var next := Step(c, l, Read(size));
            && next.written == l.written && |next.wire| <= |l.wire|
            && (|next.delivered| > |l.delivered| <==> l.delivered != l.written && !EmptyFrameNext(c, l))
            && (EmptyFrameNext(c, l) ==> |next.wire| < |l.wire| && next.delivered == l.delivered)
            && (l.delivered == l.written && l.wire != [] ==> EmptyFrameNext(c, l))
  {
    var (_, plain) := InFlight(c, l.rx, l.wire).value;
    assert l.buffer == [] && plain == [] ==> l.delivered + l.buffer + plain == l.delivered;
    assert |l.written| == |l.delivered| + |l.buffer| + |plain|;
    assert Stable(c, l.rx, l.wire, []);
    assert l.delivered + [] == l.delivered;
  }

  lemma DeliveredIsPrefix<S(!new)>(c: Codec<S>, l: Link<S>)
    requires Conserved(c, l)
    ensures l.delivered <= l.written
  {
    var (_, plain) := InFlight(c, l.rx, l.wire).value;
    assert l.written == l.delivered + (l.buffer + plain);
  }

  /** So enough Reads of any positive size hand over everything that was written; empty frames cost calls too. */
  lemma {:induction false} ReadsDeliverEverything<S(!new)>(c: Codec<S>, l: Link<S>, size: nat, calls: nat)
    requires Faithful(c) && Conserved(c, l) && size > 0
    requires calls >= |l.written| - |l.delivered| + |l.wire|
    ensures var end := Run(c, l, seq(calls, _ => Read(size)));
            end.delivered == l.written && end.written == l.written
    decreases calls
  {
    DeliveredIsPrefix(c, l);
    var ops := seq(calls, _ => Read(size));
    if calls > 0 {
      var next := Step(c, l, ops[0]);
      StepConserves(c, l, ops[0]);
      ReadMakesProgress(c, l, size);
      DeliveredIsPrefix(c, next);
      assert ops[1..] == seq(calls - 1, _ => Read(size));
      ReadsDeliverEverything(c, next, size, calls - 1);
    }
  }
}
