/** WhatsApp framing: a one-time 4-byte header, then 3-byte lengths and payloads. */
module WhatsAppFraming {
  import opened Bytes
  import Wire

  const MAX_FRAME_LEN: nat := 0xFF_FFFF

  function Header(): (r: bytes)
    ensures |r| == 4
  {
    ['W' as int, 'A' as int, 6, 3]
  }

  /** `byte(n>>16), byte(n>>8), byte(n)`. */
  function Uint24(n: nat): (r: bytes)
    ensures |r| == 3
  {
    [n / 65536 % 256, n / 256 % 256, n % 256]
  }

  function FromUint24(b: bytes): (n: nat)
    requires |b| == 3
    ensures n <= MAX_FRAME_LEN
  {
    var b2: int, b1: int, b0: int := b[0], b[1], b[2];
    b2 * 65536 + b1 * 256 + b0
  }

  lemma Uint24RoundTrip(n: nat)
    ensures FromUint24(Uint24(n)) == n <==> n <= MAX_FRAME_LEN
    ensures var b2: int, b1: int, b0: int := Uint24(n)[0], Uint24(n)[1], Uint24(n)[2];
            b2 * 65536 + b1 * 256 + b0 == n <==> n <= 0xFF_FFFF
  {
  }

  /** One frame; `pending` says the header has not been written yet. */
  function Frame(pending: bool, payload: bytes): bytes {
    (if pending then Header() else []) + Uint24(|payload|) + payload
  }

  /** One length and payload off the front of the wire, and what follows them. */
  function UnframePlain(wire: bytes): (r: Option<(bytes, bytes)>)
    ensures r.Some? ==> |r.value.1| < |wire| && |r.value.0| <= MAX_FRAME_LEN
  {
    if |wire| < 3 then None else
    var n := FromUint24(wire[..3]);
    if |wire| - 3 < n then None else Some((wire[3..3 + n], wire[3 + n..]))
  }

  /** The same after the header, when one is expected; only its letters W and A are checked. */
  function Unframe(expected: bool, wire: bytes): (r: Option<(bytes, bytes)>)
    ensures r.Some? ==> |r.value.1| < |wire| && |r.value.0| <= MAX_FRAME_LEN
  {
    if !expected then UnframePlain(wire)
    else if |wire| < 4 || wire[0] != 'W' as int || wire[1] != 'A' as int then None
    else UnframePlain(wire[4..])
  }

  /** What a ReadFrame that gets no frame leaves: whether the header is still expected, and what is still to read. */
  function AfterFailure(expected: bool, wire: bytes): (bool, bytes) {
    if !expected then (false, [])
    else if |wire| < 4 then (true, [])
    else if wire[0] != 'W' as int || wire[1] != 'A' as int then (true, wire[4..])
    else (false, [])
  }

  class FramedConn {
    const rw: Wire.Conn
    var writeHeader: bool
    var readHeader: bool

    /** A client writes the header once and never expects one; a server is the other way round. */
    constructor (rw: Wire.Conn, isClient: bool)
      ensures this.rw == rw && writeHeader == isClient && readHeader == !isClient
    {
      this.rw, writeHeader, readHeader := rw, isClient, !isClient;
    }

    /** An oversized payload touches nothing; a failed write has used the header up all the same. */
    method WriteFrame(payload: bytes) returns (ok: bool)
      modifies this`writeHeader, rw`outbox
      ensures ok <==> rw.open && |payload| <= MAX_FRAME_LEN
      ensures ok ==> rw.outbox == old(rw.outbox) + Frame(old(writeHeader), payload)
      ensures !ok ==> rw.outbox == old(rw.outbox)
      ensures writeHeader == (old(writeHeader) && |payload| > MAX_FRAME_LEN)
    {
      if |payload| > MAX_FRAME_LEN {
        return false;
      }
      var buf: bytes := [];
      if writeHeader {
        buf := buf + Header();
        writeHeader := false;
      }
      buf := buf + Uint24(|payload|) + payload;
      ok := rw.Write(buf);
    }

    method ReadFrame() returns (payload: bytes, ok: bool)
      modifies this`readHeader, rw`inbox
      ensures match Unframe(old(readHeader), old(rw.inbox))
              case Some((body, rest)) => ok && payload == body && rw.inbox == rest && !readHeader
              case None => !ok && (readHeader, rw.inbox) == AfterFailure(old(readHeader), old(rw.inbox))
    {
      if readHeader {
        var hdr, got := rw.ReadFull(4);
        if !got || hdr[0] != 'W' as int || hdr[1] != 'A' as int {
          return [], false;
        }
        readHeader := false;
      }
      ghost var wire := rw.inbox;
      assert Unframe(old(readHeader), old(rw.inbox)) == UnframePlain(wire);
      var lp, gotLength := rw.ReadFull(3);
      if !gotLength {
        return [], false;
      }
      payload, ok := rw.ReadFull(FromUint24(lp));
    }
  }

  // ---- Round trip ----

  lemma UnframeInvertsFrame(pending: bool, payload: bytes, rest: bytes)
    requires |payload| <= MAX_FRAME_LEN
    ensures Unframe(pending, Frame(pending, payload) + rest) == Some((payload, rest))
  {
    var plain := Uint24(|payload|) + payload + rest;
    Uint24RoundTrip(|payload|);
    assert plain[..3] == Uint24(|payload|) && plain[3..3 + |payload|] == payload && plain[3 + |payload|..] == rest;
    if pending {
      assert (Frame(true, payload) + rest)[4..] == plain;
    } else {
      assert Frame(false, payload) + rest == plain;
    }
  }

  lemma Uint24Inverse(b: bytes)
    requires |b| == 3
    ensures Uint24(FromUint24(b)) == b
  {
    Digits(b[0], b[1], b[2]);
  }

  lemma Digits(x: byte, y: byte, z: byte)
    ensures var n: int := (x as int) * 65536 + (y as int) * 256 + (z as int);
            n % 256 == z && n / 256 == (x as int) * 256 + (y as int) && n / 65536 == x
            && (n / 256) % 256 == y
  {
    var hi: int, mid: int, lo: int := x, y, z;
    assert (hi * 65536 + mid * 256 + lo) / 256 == hi * 256 + mid;
  }

  /** Exactly the framed payloads of at most 2^24-1 bytes are read, each with what follows it. */
  lemma UnframeIff(wire: bytes, payload: bytes, rest: bytes)
    ensures Unframe(false, wire) == Some((payload, rest)) <==> |payload| <= 0xFF_FFFF && wire == Uint24(|payload|) + payload + rest
  {
    hide Uint24, FromUint24;
    if |payload| <= MAX_FRAME_LEN && wire == Uint24(|payload|) + payload + rest {
      UnframeInvertsFrame(false, payload, rest);
      assert Frame(false, payload) + rest == wire;
    }
    if Unframe(false, wire) == Some((payload, rest)) {
      Uint24Inverse(wire[..3]);
      assert wire == wire[..3] + wire[3..3 + |payload|] + wire[3 + |payload|..];
    }
  }

  /** Where the header is expected, four bytes that begin with W and A must stand there; the other two are not looked at. */
  lemma HeaderIsChecked(wire: bytes)
    ensures Unframe(true, wire)
            == if |wire| >= 4 && wire[..2] == ['W' as int, 'A' as int] then Unframe(false, wire[4..]) else None
  {
  }

  lemma UnframeIsStable(expected: bool, wire: bytes, more: bytes)
    requires Unframe(expected, wire).Some?
    ensures var (payload, rest) := Unframe(expected, wire).value;
            Unframe(expected, wire + more) == Some((payload, rest + more))
  {
    var plain := if expected then wire[4..] else wire;
    var n := FromUint24(plain[..3]);
    assert expected ==> (wire + more)[4..] == plain + more;
    assert (plain + more)[..3] == plain[..3];
    assert (plain + more)[3..3 + n] == plain[3..3 + n] && (plain + more)[3 + n..] == plain[3 + n..] + more;
  }

  function FrameAll(pending: bool, payloads: seq<bytes>): bytes {
    if payloads == [] then [] else Frame(pending, payloads[0]) + FrameAll(false, payloads[1..])
  }

  function UnframeAll(expected: bool, wire: bytes): Option<seq<bytes>>
    decreases |wire|
  {
    if wire == [] then Some([]) else
    match Unframe(expected, wire)
    case None => None
    case Some((payload, rest)) =>
      match UnframeAll(false, rest)
      case None => None
      case Some(more) => Some([payload] + more)
  }

  /** Any payloads of at most 2^24-1 bytes a client writes are what a header-expecting reader reads. */
  lemma {:induction false} FramesRoundTrip(pending: bool, payloads: seq<bytes>)
    requires forall k | 0 <= k < |payloads| :: |payloads[k]| <= MAX_FRAME_LEN
    ensures UnframeAll(pending, FrameAll(pending, payloads)) == Some(payloads)
    decreases |payloads|
  {
    hide Frame, Unframe;
    if payloads != [] {
      var rest := FrameAll(false, payloads[1..]);
      UnframeInvertsFrame(pending, payloads[0], rest);
      FramesRoundTrip(false, payloads[1..]);
      assert [payloads[0]] + payloads[1..] == payloads;
    }
  }

  /** The header is on the wire exactly once: in front of what the frames are without it. */
  lemma HeaderWrittenOnce(payloads: seq<bytes>)
    requires payloads != []
    ensures FrameAll(true, payloads) == ['W' as int, 'A' as int, 6, 3] + FrameAll(false, payloads)
  {
    var first, rest := payloads[0], FrameAll(false, payloads[1..]);
    assert Frame(true, first) == Header() + Frame(false, first);
    assert (Header() + Frame(false, first)) + rest == Header() + (Frame(false, first) + rest);
  }
}
