/** The raw transport: 2-byte lengths around Noise messages, and a Read that may span messages. */
module RawConn {
  import opened Bytes
  import opened Noise
  import opened NoiseDrive
  import opened ByteStream
  import opened LengthPrefix
  import Wire

  function HandshakeFraming(): Framing {
    Framing((m: bytes) => Frame(m), (wire: bytes) => Unframe(wire))
  }

  lemma HandshakeFramingIsFaithful()
    ensures NoiseDrive.Faithful(HandshakeFraming())
  {
    forall m: bytes, rest: bytes | |m| <= MAX_MSG_LEN ensures PutGetLaw(HandshakeFraming(), m, rest) {
      UnframeInvertsFrame(m, rest);
    }
  }

  // ---- Transport messages ----

  const MAX_FRAGMENT: nat := MAX_MSG_LEN - TAG_SIZE

  /** A ciphertext over 16 bits is refused before its length is encoded, but its nonce is spent. */
  function SealMessage(z: Library, c: CipherState, m: bytes): Option<(CipherState, bytes)> {
    match Encrypt(z, c, m)
    case None => None
    case Some((next, ciphertext)) => if |ciphertext| > 0xFFFF then None else Some((next, Frame(ciphertext)))
  }

  function OpenMessage(z: Library, c: CipherState, wire: bytes): Option<(CipherState, bytes, bytes)> {
    match Unframe(wire)
    case None => None
    case Some((ciphertext, rest)) =>
      match Decrypt(z, c, ciphertext)
      case None => None
      case Some((next, m)) => Some((next, m, rest))
  }

  function MessageCodec(z: Library): Codec<CipherState> {
    Codec(MAX_FRAGMENT,
          (c: CipherState, m: bytes) => SealMessage(z, c, m),
          (c: CipherState, wire: bytes) => OpenMessage(z, c, wire))
  }

  /** A framed ciphertext is taken exactly when it opens under the next nonce, while there is one, and then spends it. */
  lemma FrameOpensIff(z: Library, c: CipherState, ciphertext: bytes, rest: bytes)
    requires |ciphertext| <= MAX_LENGTH
    ensures OpenMessage(z, c, Uint16(|ciphertext|) + ciphertext + rest)
            == if c.n > z.maxNonce then None else
               match z.open(c.key, c.n, ciphertext)
               case None => None
               case Some(m) => Some((CipherState(c.key, c.n + 1), m, rest))
  {
    hide Unframe;
    UnframeIff(Uint16(|ciphertext|) + ciphertext + rest, ciphertext, rest);
  }

  /** Every frame in flight takes one nonce: a Write of n frames moves the sender by n. */
  lemma {:induction false} NoncesCount(z: Library, c: CipherState, wire: bytes)
    ensures match InFlight(MessageCodec(z), c, wire)
            case None => true
            case Some((last, _)) => last == CipherState(c.key, c.n + |Opened(MessageCodec(z), c, wire)|)
    decreases |wire|
  {
    hide SealMessage;
    if wire != [] {
      match OpenMessage(z, c, wire) {
        case None =>
        case Some((next, m, rest)) =>
          if |rest| < |wire| {
            NoncesCount(z, next, rest);
          }
      }
    } else {
      assert Unframe([]).None?;
    }
  }

  lemma MessageCodecIsFaithful(z: Library)
    requires Lawful(z)
    ensures ByteStream.Faithful(MessageCodec(z)) && MessageCodec(z).maxBody == 65519
  {
    var c := MessageCodec(z);
    forall s: CipherState, m: bytes | 0 < |m| <= c.maxBody ensures Inverts(c, s, m) {
      assert SealLaw(z, s.key, s.n, m);
      if SealMessage(z, s, m).Some? {
        var ciphertext := z.seal(s.key, s.n, m);
        UnframeInvertsFrame(ciphertext, []);
        assert Frame(ciphertext) + [] == Frame(ciphertext);
      }
    }
    forall s: CipherState, wire: bytes, more: bytes ensures Stable(c, s, wire, more) {
      if OpenMessage(z, s, wire).Some? {
        UnframeIsStable(wire, more);
      }
    }
  }

  // ---- Read ----

  /** What a fetch without a message leaves to read: nothing after a cut or a close, else what follows the refused frame. */
  function AfterFailure(z: Library, c: CipherState, wire: bytes): bytes {
    match Unframe(wire)
    case None => []
    case Some((_, rest)) => if c.n > z.maxNonce then [] else rest
  }

  /**
   * What the raw Read does: it empties the buffer first, and when that does not fill the caller's
   * slice it fetches exactly one message. If the fetch fails the call returns nothing.
   */
  function RawReceive(z: Library, c: CipherState, buffer: bytes, wire: bytes, size: nat): Received<CipherState> {
    if size == 0 then Received(c, buffer, wire, [], true)
    else if |buffer| >= size then Received(c, buffer[size..], wire, buffer[..size], true)
    else
      match OpenMessage(z, c, wire)
      case None => Received(c, [], AfterFailure(z, c, wire), [], false)
      case Some((next, m, rest)) =>
        var n := Min(size - |buffer|, |m|);
        Received(next, m[n..], rest, buffer + m[..n], true)
  }

  /** What one call did with plaintext: hand it to the caller, or, failing, drop what it had taken out of the buffer. */
  datatype Segment = Returned(data: bytes) | Lost(data: bytes)

  /** One end's reading so far; `wire` is everything that will still arrive. */
  datatype Reader = Reader(state: CipherState, buffer: bytes, wire: bytes, history: seq<Segment>)

  function ReadStep(z: Library, r: Reader, size: nat): Reader {
    var got := RawReceive(z, r.state, r.buffer, r.wire, size);
    Reader(got.state, got.buffer, got.wire, r.history + [if got.ok then Returned(got.data) else Lost(r.buffer)])
  }

  /** Any number of calls; a call that fails does not end the run. */
  function ReadRun(z: Library, r: Reader, sizes: seq<nat>): Reader
    decreases |sizes|
  {
    if sizes == [] then r else ReadRun(z, ReadStep(z, r, sizes[0]), sizes[1..])
  }

  function Joined(history: seq<Segment>): bytes {
    if history == [] then [] else history[0].data + Joined(history[1..])
  }

  /** The bytes the caller got. */
  function ReturnedBytes(history: seq<Segment>): bytes {
    if history == [] then [] else (if history[0].Returned? then history[0].data else []) + ReturnedBytes(history[1..])
  }

  predicate NothingLost(history: seq<Segment>) {
    forall k | 0 <= k < |history| :: history[k].Lost? ==> history[k].data == []
  }

  /** All the plaintext that can ever be decrypted from `wire`: a frame that does not open is skipped. */
  function Plaintext(z: Library, c: CipherState, wire: bytes): bytes
    decreases |wire|
  {
    match Unframe(wire)
    case None => []
    case Some((ciphertext, rest)) =>
      if c.n > z.maxNonce then [] else
      match Decrypt(z, c, ciphertext)
      case None => Plaintext(z, c, rest)
      case Some((next, m)) => m + Plaintext(z, next, rest)
  }

  /** All plaintext a reader has ever decrypted or will. */
  function Account(z: Library, r: Reader): bytes {
    Joined(r.history) + r.buffer + Plaintext(z, r.state, r.wire)
  }

  lemma {:induction false} JoinedSnoc(history: seq<Segment>, last: Segment)
    ensures Joined(history + [last]) == Joined(history) + last.data
    ensures ReturnedBytes(history + [last]) == ReturnedBytes(history) + (if last.Returned? then last.data else [])
  {
    if history == [] {
      assert [] + [last] == [last] && [last][1..] == [];
    } else {
      assert (history + [last])[1..] == history[1..] + [last];
      JoinedSnoc(history[1..], last);
    }
  }

  lemma {:induction false} NothingLostMeans(history: seq<Segment>)
    requires NothingLost(history)
    ensures ReturnedBytes(history) == Joined(history)
  {
    if history != [] {
      NothingLostMeans(history[1..]);
    }
  }

  lemma PlaintextStep(z: Library, c: CipherState, wire: bytes)
    ensures Plaintext(z, c, wire)
            == match OpenMessage(z, c, wire)
               case None => Plaintext(z, c, AfterFailure(z, c, wire))
               case Some((next, m, rest)) => m + Plaintext(z, next, rest)
  {
    assert Unframe([]).None?;
  }

  lemma ReadStepAccounts(z: Library, r: Reader, size: nat)
    ensures Account(z, ReadStep(z, r, size)) == Account(z, r)
  {
    hide OpenMessage, AfterFailure, Plaintext, Joined, ReturnedBytes;
    PlaintextStep(z, r.state, r.wire);
    var next := ReadStep(z, r, size);
    JoinedSnoc(r.history, next.history[|r.history|]);
    var past, tail := Joined(r.history), Plaintext(z, r.state, r.wire);
    if size == 0 {
      assert past + [] == past;
    } else if |r.buffer| >= size {
      assert past + r.buffer[..size] + r.buffer[size..] + tail == past + r.buffer + tail;
    } else {
      match OpenMessage(z, r.state, r.wire) {
        case None =>
          assert past + r.buffer + [] == past + r.buffer;
        case Some((state, m, rest)) =>
          var n := Min(size - |r.buffer|, |m|);
          Regroup(past, r.buffer, m, n, Plaintext(z, state, rest));
      }
    }
  }

  /**
   * The raw Read theorem, over any number of calls and of failed calls, whatever arrives: the segments of
   * the history in order, each returned or lost, then the input buffer, then what is still to come, are
   * always exactly the plaintext of the wire the reader started with.
   */
  lemma {:induction false} ReadsAccountForEverything(z: Library, r: Reader, sizes: seq<nat>)
    ensures Account(z, ReadRun(z, r, sizes)) == Account(z, r)
    decreases |sizes|
  {
    hide ReadStep, Account;
    if sizes != [] {
      ReadStepAccounts(z, r, sizes[0]);
      ReadsAccountForEverything(z, ReadStep(z, r, sizes[0]), sizes[1..]);
    }
  }

  /**
   * A call fails exactly when the buffer does not fill the slice and no message can be fetched. It loses
   * exactly the buffered bytes, so nothing if and only if the buffer was empty, keeps the receiving state, and
   * goes on behind what the fetch consumed.
   */
  lemma FailedReadLosesTheBuffer(z: Library, r: Reader, size: nat)
    ensures var next := ReadStep(z, r, size);
            && |next.history| == |r.history| + 1 && next.history[..|r.history|] == r.history
            && var last := next.history[|r.history|];
               && (last.Lost? <==> |r.buffer| < size && OpenMessage(z, r.state, r.wire).None?)
               && (last.Lost? ==>
                     && last.data == r.buffer && next.buffer == [] && next.state == r.state
                     && next.wire == AfterFailure(z, r.state, r.wire)
                     && (last.data == [] <==> r.buffer == []))
  {
    hide OpenMessage, AfterFailure;
  }

  /** A sealed message at the front of what arrives. */
  lemma MessageArrives(z: Library, c: CipherState, m: bytes, rest: bytes)
    requires Lawful(z) && c.n <= z.maxNonce && |m| <= MAX_FRAGMENT
    ensures OpenMessage(z, c, Frame(z.seal(c.key, c.n, m)) + rest) == Some((Advance(c), m, rest))
  {
    hide Frame, Unframe;
    assert SealLaw(z, c.key, c.n, m);
    UnframeInvertsFrame(z.seal(c.key, c.n, m), rest);
  }

  /**
   * A Read hands over all that it can: unless the buffer fills the slice it fetches one message, and returns the
   * two joined as far as they fit. So a successful Read that returns less than was asked for leaves nothing behind.
   */
  lemma ReadFillsTheSlice(z: Library, c: CipherState, buffer: bytes, wire: bytes, size: nat)
    ensures var r := RawReceive(z, c, buffer, wire, size);
            && |r.data| <= size && (r.ok && |r.data| < size ==> r.buffer == [])
            && (size == 0 || |buffer| >= size ==> r.ok && r.data + r.buffer == buffer && (r.state, r.wire) == (c, wire))
            && (0 < size && |buffer| < size && r.ok ==>
                  && OpenMessage(z, c, wire).Some?
                  && var (next, m, rest) := OpenMessage(z, c, wire).value;
                     r.data + r.buffer == buffer + m && (r.state, r.wire) == (next, rest))
  {
    hide OpenMessage, AfterFailure;
    match OpenMessage(z, c, wire) {
      case None =>
      case Some((_, m, _)) =>
        var n := Min(size - |buffer|, |m|);
        assert |buffer| < size ==> buffer + m[..n] + m[n..] == buffer + m;
    }
  }

  /** One Read spans two messages: the rest of the first and as much of the second as fits come back together. */
  lemma ReadSpansMessages(z: Library, key: Key, first: bytes, second: bytes, k: nat, size: nat)
    requires Lawful(z) && z.maxNonce >= 1 && 0 < k < |first| <= MAX_FRAGMENT && |second| <= MAX_FRAGMENT
    ensures var wire := Frame(z.seal(key, 0, first)) + Frame(z.seal(key, 1, second));
            var both := first[k..] + second;
            ReadRun(z, Reader(CipherState(key, 0), [], wire, []), [k, size]).history
            == [Returned(first[..k]), Returned(both[..Min(size, |both|)])]
  {
    hide Frame, Unframe, OpenMessage;
    var c, last := CipherState(key, 0), Frame(z.seal(key, 1, second));
    var wire := Frame(z.seal(key, 0, first)) + last;
    MessageArrives(z, c, first, last);
    assert last + [] == last;
    MessageArrives(z, Advance(c), second, []);
    var r0 := Reader(c, [], wire, []);
    var r1 := Reader(Advance(c), first[k..], last, [Returned(first[..k])]);
    assert [] + first[..k] == first[..k] && [] + [Returned(first[..k])] == [Returned(first[..k])];
    assert ReadStep(z, r0, k) == r1;
    TwoReads(z, r0, k, size);
    var both, data := first[k..] + second, RawReceive(z, r1.state, r1.buffer, r1.wire, size).data;
    ReadFillsTheSlice(z, r1.state, r1.buffer, r1.wire, size);
    assert data == both[..Min(size, |both|)] by {
      var left := RawReceive(z, r1.state, r1.buffer, r1.wire, size).buffer;
      assert data + left == both || data + left == first[k..];
      assert data == (data + left)[..|data|];
      assert both[..|first[k..]|] == first[k..];
    }
  }

  /**
   * Bytes are really lost: on a fresh connection a peer sends one message, the caller takes the first k bytes
   * of it, and asks for more than the rest when nothing else arrives.
   */
  lemma LossHappens(z: Library, key: Key, m: bytes, k: nat, size: nat)
    requires Lawful(z) && 0 < k < |m| <= MAX_FRAGMENT && size > |m| - k
    ensures var c := CipherState(key, 0);
            ReadRun(z, Reader(c, [], Frame(z.seal(key, 0, m)), []), [k, size])
            == Reader(Advance(c), [], [], [Returned(m[..k]), Lost(m[k..])])
  {
    hide Frame, Unframe, OpenMessage;
    var c := CipherState(key, 0);
    var wire := Frame(z.seal(key, 0, m));
    assert wire + [] == wire;
    MessageArrives(z, c, m, []);
    NothingArrives(z, Advance(c));
    var first := Reader(Advance(c), m[k..], [], [Returned(m[..k])]);
    assert [] + m[..k] == m[..k] && [] + [Returned(m[..k])] == [Returned(m[..k])];
    assert ReadStep(z, Reader(c, [], wire, []), k) == first;
    TwoReads(z, Reader(c, [], wire, []), k, size);
  }

  lemma NothingArrives(z: Library, c: CipherState)
    ensures OpenMessage(z, c, []).None? && AfterFailure(z, c, []) == []
  {
  }

  lemma TwoReads(z: Library, r: Reader, x: nat, y: nat)
    ensures ReadRun(z, r, [x, y]) == ReadStep(z, ReadStep(z, r, x), y)
  {
    hide ReadStep;
    assert [x, y][1..] == [y] && [y][1..] == [];
    assert ReadRun(z, ReadStep(z, r, x), [y]) == ReadRun(z, ReadStep(z, ReadStep(z, r, x), y), []);
  }

  /**
   * And reading goes on after a loss: a frame that does not decrypt between two messages costs the caller the
   * rest of the first one, while the second is returned in full.
   */
  lemma ReadingGoesOn(z: Library, key: Key, m: bytes, k: nat, refused: bytes, later: bytes)
    requires Lawful(z) && z.maxNonce >= 1 && 0 < k < |m| <= MAX_FRAGMENT && 0 < |later| <= MAX_FRAGMENT
    requires |refused| <= MAX_LENGTH && z.open(key, 1, refused).None?
    ensures var c := CipherState(key, 0);
            var wire := Frame(z.seal(key, 0, m)) + (Frame(refused) + Frame(z.seal(key, 1, later)));
            ReadRun(z, Reader(c, [], wire, []), [k, |m|, |later|])
            == Reader(Advance(Advance(c)), [], [], [Returned(m[..k]), Lost(m[k..]), Returned(later)])
  {
    hide Frame, Unframe;
    var c := CipherState(key, 0);
    var last := Frame(z.seal(key, 1, later));
    var behind := Frame(refused) + last;
    var wire := Frame(z.seal(key, 0, m)) + behind;
    MessageArrives(z, c, m, behind);
    UnframeInvertsFrame(refused, last);
    assert last + [] == last;
    MessageArrives(z, Advance(c), later, []);
    var r0 := Reader(c, [], wire, []);
    var r1 := Reader(Advance(c), m[k..], behind, [Returned(m[..k])]);
    var r2 := Reader(Advance(c), [], last, [Returned(m[..k]), Lost(m[k..])]);
    assert [] + m[..k] == m[..k] && [] + [Returned(m[..k])] == [Returned(m[..k])];
    assert ReadStep(z, r0, k) == r1;
    assert [Returned(m[..k])] + [Lost(m[k..])] == [Returned(m[..k]), Lost(m[k..])];
    assert ReadStep(z, r1, |m|) == r2;
    assert later[..|later|] == later && later[|later|..] == [] && [] + later == later;
    assert [k, |m|, |later|][1..] == [|m|, |later|];
    TwoReads(z, r1, |m|, |later|);
  }

  // ---- Against a sender ----

  /** Both ends of one direction, with everything written and everything that came of it. */
  datatype RawLink = RawLink(tx: CipherState, written: bytes, reader: Reader)

  ghost predicate RawConserved(z: Library, l: RawLink) {
    match InFlight(MessageCodec(z), l.reader.state, l.reader.wire)
    case None => false
    case Some((last, plain)) => last == l.tx && Joined(l.reader.history) + l.reader.buffer + plain == l.written
  }

  function RawStep(z: Library, l: RawLink, op: Op): RawLink {
    match op
    case Write(p) =>
      var s := Send(MessageCodec(z), l.tx, p);
      RawLink(s.state, l.written + p[..s.n], l.reader.(wire := l.reader.wire + s.wire))
    case Read(size) => l.(reader := ReadStep(z, l.reader, size))
  }

  /** A Read for which nothing has arrived fails, and the run goes on. */
  function RawRun(z: Library, l: RawLink, ops: seq<Op>): RawLink
    decreases |ops|
  {
    if ops == [] then l else RawRun(z, RawStep(z, l, ops[0]), ops[1..])
  }

  lemma NextInFlight(z: Library, c: CipherState, wire: bytes)
    requires InFlight(MessageCodec(z), c, wire).Some? && wire != []
    ensures OpenMessage(z, c, wire).Some?
    ensures var (state, m, rest) := OpenMessage(z, c, wire).value;
            && InFlight(MessageCodec(z), state, rest).Some?
            && var (last, tail) := InFlight(MessageCodec(z), state, rest).value;
               InFlight(MessageCodec(z), c, wire) == Some((last, m + tail))
  {
    hide OpenMessage, SealMessage;
  }

  lemma NoneInFlight(z: Library, c: CipherState)
    ensures InFlight(MessageCodec(z), c, []) == Some((c, []))
  {
  }

  lemma RawReadConserves(z: Library, l: RawLink, size: nat)
    requires Lawful(z) && RawConserved(z, l)
    ensures RawConserved(z, RawStep(z, l, Read(size)))
  {
    hide OpenMessage, SealMessage, AfterFailure, Joined, ReturnedBytes, InFlight, MessageCodec;
    var r := l.reader;
    var next := ReadStep(z, r, size);
    JoinedSnoc(r.history, next.history[|r.history|]);
    var (_, plain) := InFlight(MessageCodec(z), r.state, r.wire).value;
    var past := Joined(r.history);
    if size == 0 {
      assert past + [] == past;
    } else if |r.buffer| >= size {
      assert past + r.buffer[..size] + r.buffer[size..] == past + r.buffer;
    } else if r.wire == [] {
      NothingArrives(z, r.state);
      NoneInFlight(z, r.state);
      assert past + r.buffer + [] + plain == past + r.buffer + plain;
    } else {
      NextInFlight(z, r.state, r.wire);
      var (state, m, rest) := OpenMessage(z, r.state, r.wire).value;
      var n := Min(size - |r.buffer|, |m|);
      var (_, tail) := InFlight(MessageCodec(z), state, rest).value;
      Regroup(past, r.buffer, m, n, tail);
    }
  }

  lemma Regroup(past: bytes, buffer: bytes, m: bytes, n: nat, tail: bytes)
    requires n <= |m|
    ensures past + (buffer + m[..n]) + m[n..] + tail == past + buffer + (m + tail)
  {
    assert m == m[..n] + m[n..];
  }

  lemma RawWriteConserves(z: Library, l: RawLink, p: bytes)
    requires Lawful(z) && RawConserved(z, l)
    ensures RawConserved(z, RawStep(z, l, Write(p)))
  {
    hide OpenMessage, SealMessage, Joined, Send;
    var c, r := MessageCodec(z), l.reader;
    MessageCodecIsFaithful(z);
    var s := Send(c, l.tx, p);
    SentIsInFlight(c, l.tx, p);
    InFlightAppend(c, r.state, r.wire, s.wire);
    var (_, plain) := InFlight(c, r.state, r.wire).value;
    assert Joined(r.history) + r.buffer + (plain + p[..s.n]) == l.written + p[..s.n];
  }

  /** Any run of Writes and Reads conserves the stream, across any number of failed Reads. */
  lemma {:induction false} RawRunConserves(z: Library, l: RawLink, ops: seq<Op>)
    requires Lawful(z) && RawConserved(z, l)
    ensures RawConserved(z, RawRun(z, l, ops))
    decreases |ops|
  {
    hide RawConserved, RawStep;
    if ops != [] {
      match ops[0] {
        case Write(p) => RawWriteConserves(z, l, p);
        case Read(size) => RawReadConserves(z, l, size);
      }
      RawRunConserves(z, RawStep(z, l, ops[0]), ops[1..]);
    }
  }

  // ---- The connection ----

  class Conn {
    const z: Library
    const conn: Wire.Conn
    const isClient: bool
    const config: Config
    const prologue: bytes

    var hs: Option<HandshakeState>
    var handshakeComplete: bool
    var incoming: CipherState
    var outgoing: CipherState
    var inputBuffer: bytes

    // What was to arrive when the handshake that completed was begun.
    ghost var heard: bytes

    constructor (z: Library, conn: Wire.Conn, isClient: bool, config: Config, prologue: bytes)
      ensures this.z == z && this.conn == conn && this.isClient == isClient
      ensures this.config == config && this.prologue == prologue
      ensures !handshakeComplete && inputBuffer == []
    {
      this.z, this.conn, this.isClient, this.config, this.prologue := z, conn, isClient, config, prologue;
      hs, handshakeComplete, inputBuffer, heard := None, false, [], [];
      incoming, outgoing := CipherState(ZERO_KEY, 0), CipherState(ZERO_KEY, 0);
    }

    /** A pattern has at least one message; a completed handshake was one on what this side heard. */
    ghost predicate Valid()
      reads this, conn
    {
      && conn.Valid() && config.messages >= 1
      && (!handshakeComplete ==> inputBuffer == [])
      && (handshakeComplete ==> ShakeOn(heard).Done() && hs == Some(ShakeOn(heard).hs))
    }

    ghost function ShakeOn(inbox: bytes): Driven {
      Shake(z, isClient, config, prologue, inbox)
    }

    // The connection as its next Write or Read finds it, once the handshake is over. On a connection that is
    // closed before its handshake nothing is written and nothing arrives.

    ghost predicate Ready()
      reads this, conn
    {
      handshakeComplete || (conn.open && ShakeOn(conn.inbox).Done())
    }

    ghost function Greeting(): bytes
      reads this, conn
    {
      if handshakeComplete || !conn.open then [] else ShakeOn(conn.inbox).sent
    }

    ghost function Arriving(): bytes
      reads this, conn
    {
      if handshakeComplete || !conn.open then conn.inbox else ShakeOn(conn.inbox).rest
    }

    ghost function Tx(): CipherState
      reads this, conn
    {
      if handshakeComplete then outgoing else SendState(z, isClient, ShakeOn(conn.inbox).hs)
    }

    ghost function Rx(): CipherState
      reads this, conn
    {
      if handshakeComplete then incoming else SendState(z, !isClient, ShakeOn(conn.inbox).hs)
    }

    /** One message composed and written; too long a message is refused before its length is encoded. */
    method WriteTurn() returns (ok: bool, pair: Option<(Key, Key)>)
      requires hs.Some?
      modifies this`hs, conn`outbox
      ensures match z.compose(old(hs).value)
              case None => !ok && hs == old(hs) && conn.outbox == old(conn.outbox)
              case Some(m) =>
                && ok == (|m| <= 0xFFFF && conn.open) && hs == Some(Extend(old(hs).value, m))
                && conn.outbox == old(conn.outbox) + (if ok then Frame(m) else [])
      ensures ok ==> pair == CipherStates(z, hs.value)
    {
      var written := WriteMessage(z, hs.value);
      if written.None? {
        return false, None;
      }
      var (msg, next, last) := written.value;
      hs, pair := Some(next), last;
      if |msg| > 0xFFFF {
        return false, None;
      }
      ok := conn.Write(Frame(msg));
    }

    /** One message read and taken in. */
    method ReadTurn() returns (ok: bool, pair: Option<(Key, Key)>)
      requires hs.Some?
      modifies this`hs, conn`inbox
      ensures match Unframe(old(conn.inbox))
              case None => !ok && hs == old(hs) && conn.inbox == []
              case Some((m, rest)) =>
                && ok == z.accepts(old(hs).value, m) && conn.inbox == rest
                && hs == if ok then Some(Extend(old(hs).value, m)) else old(hs)
      ensures ok ==> pair == CipherStates(z, hs.value)
    {
      hide Unframe;
      var msg, got := ReadFrame(conn);
      if !got {
        return false, None;
      }
      var read := ReadMessage(z, hs.value, msg);
      if read.None? {
        return false, None;
      }
      hs, pair, ok := Some(read.value.0), read.value.1, true;
    }

    /** A loop over the messages of the pattern, the client writing the first one. */
    method Handshake() returns (ok: bool)
      requires Valid()
      modifies this, conn
      ensures Valid() && conn.open == old(conn.open) && ok == handshakeComplete == old(Ready())
      ensures conn.outbox == old(conn.outbox) + old(Greeting()) && conn.inbox == old(Arriving())
      ensures ok ==> Tx() == old(Tx()) && Rx() == old(Rx())
      ensures inputBuffer == old(inputBuffer)
      ensures heard == if ok && !old(handshakeComplete) then old(conn.inbox) else old(heard)
    {
      hide Shake, DrivingOnCourse, Frame, Unframe, SendState;
      if handshakeComplete {
        return true;
      }
      ShakingStarts(z, isClient, config, prologue, conn.inbox);
      hs := NewHandshakeState(z, config, prologue);
      if hs.None? {
        return false;
      }
      NothingToUnframe();
      ghost var f, inbox := HandshakeFraming(), conn.inbox;
      ghost var whole, sent := ShakeOn(inbox), [];
      var state := isClient;
      var pair: Option<(Key, Key)> := None;
      for i := 0 to config.messages
        invariant !handshakeComplete && hs.Some? && hs.value.cfg == config && inputBuffer == old(inputBuffer) && heard == old(heard)
        invariant conn.open == old(conn.open) && (i > 0 ==> conn.open) && conn.Valid()
        invariant |hs.value.log| == i && state == ((i % 2 == 0) == isClient)
        invariant conn.outbox == old(conn.outbox) + sent && (i == 0 ==> sent == [])
        invariant DrivingOnCourse(z, f, whole, hs.value, isClient, [], conn.inbox, sent)
        invariant i > 0 ==> pair == CipherStates(z, hs.value)
      {
        DrivingContinues(z, f, whole, hs.value, isClient, [], conn.inbox, sent);
        var done;
        if state {
          done, pair := WriteTurn();
          if !done {
            return false;
          }
          sent := sent + Frame(hs.value.log[i]);
        } else {
          done, pair := ReadTurn();
          if !done {
            return false;
          }
        }
        state := !state;
      }
      DrivingContinues(z, f, whole, hs.value, isClient, [], conn.inbox, sent);
      var (c1, c2) := pair.value;
      SendStates(z, hs.value);
      if isClient {
        outgoing, incoming := CipherState(c1, 0), CipherState(c2, 0);
      } else {
        outgoing, incoming := CipherState(c2, 0), CipherState(c1, 0);
      }
      handshakeComplete, heard := true, inbox;
      ok := true;
    }

    /** The fingerprint of the handshake this side ran on what it heard; zero until then. */
    method Fingerprint() returns (h: Key)
      requires Valid()
      ensures h == if handshakeComplete then z.channelBinding(ShakeOn(heard).hs) else ZERO_KEY
    {
      if !handshakeComplete || hs.None? {
        return ZERO_KEY;
      }
      h := z.channelBinding(hs.value);
    }

    /** After the handshake, one `Send` of the stream model; nonce exhaustion closes the connection. */
    method Write(b: bytes) returns (n: nat, ok: bool)
      requires Valid() && Lawful(z)
      modifies this, conn
      ensures Valid() && inputBuffer == old(inputBuffer)
      ensures !isClient && config.messages < 2 ==> n == 0 && !ok && unchanged(this) && unchanged(conn)
      ensures isClient || config.messages >= 2 ==> handshakeComplete == old(Ready())
      ensures (isClient || config.messages >= 2) && !old(Ready()) ==> n == 0 && !ok && conn.outbox == old(conn.outbox) + old(Greeting())
      ensures (isClient || config.messages >= 2) && old(Ready()) && old(conn.open) ==>
                var s := Send(MessageCodec(z), old(Tx()), b);
                && n == s.n && ok == s.ok
                && conn.outbox == old(conn.outbox) + old(Greeting()) + s.wire
                && Tx() == s.state && Rx() == old(Rx())
                && conn.open == ok && (ok ==> conn.inbox == old(Arriving()))
      ensures (isClient || config.messages >= 2) && old(Ready()) && !old(conn.open) ==>
                && n == 0 && (ok <==> b == []) && !conn.open && conn.outbox == old(conn.outbox)
                && Rx() == old(Rx()) && Tx() == Spent(z, old(Tx()), b)
    {
      hide Shake, Send, SendState;
      if !isClient && config.messages < 2 {
        return 0, false;
      }
      var shaken := Handshake();
      if !shaken {
        return 0, false;
      }
      n, ok := WriteFragments(b);
    }

    method WriteFragments(b: bytes) returns (n: nat, ok: bool)
      requires conn.Valid() && Lawful(z)
      modifies this`outgoing, conn
      ensures conn.Valid()
      ensures old(conn.open) ==>
                var s := Send(MessageCodec(z), old(outgoing), b);
                && n == s.n && ok == s.ok && conn.outbox == old(conn.outbox) + s.wire && outgoing == s.state
                && conn.open == ok && (ok ==> conn.inbox == old(conn.inbox))
      ensures !old(conn.open) ==>
                && n == 0 && (ok <==> b == []) && !conn.open && conn.outbox == old(conn.outbox)
                && outgoing == Spent(z, old(outgoing), b)
    {
      hide Send, SendingOnCourse, Frame;
      ghost var c, start, sent := MessageCodec(z), outgoing, [];
      SendingStarts(c, start, b);
      n := 0;
      var data := b;
      while |data| > 0
        invariant n <= |b| && data == b[n..]
        invariant conn.open == old(conn.open) && conn.inbox == old(conn.inbox) && conn.outbox == old(conn.outbox) + sent
        invariant SendingOnCourse(c, start, b, n, outgoing, sent)
        invariant !conn.open ==> n == 0 && outgoing == start && sent == []
        decreases |data|
      {
        var m := if |data| > MAX_MSG_LEN - 16 then MAX_MSG_LEN - 16 else |data|;
        SendingContinues(c, start, b, n, outgoing, sent, m);
        assert data[..m] == b[n..n + m];
        assert SealLaw(z, outgoing.key, outgoing.n, data[..m]);
        var encrypted := Encrypt(z, outgoing, data[..m]);
        if encrypted.None? {
          conn.Close();
          return n, false;
        }
        var ciphertext := encrypted.value.1;
        outgoing := encrypted.value.0;
        if |ciphertext| > 0xFFFF {
          return n, false;
        }
        var put := conn.Write(Frame(ciphertext));
        if !put {
          return n, false;
        }
        sent := sent + Frame(ciphertext);
        n := n + m;
        data := data[m..];
      }
      SendingEnds(c, start, b, outgoing, sent);
      ok := true;
    }

    /**
     * After the handshake, one `RawReceive` into `b`. When the fetch fails, the buffered bytes are
     * already in `b`, the buffer is empty, and the caller is told of none of them; the receiving state is
     * what it was, and the next Read goes on behind what this one consumed.
     */
    method Read(b: array<byte>) returns (n: nat, ok: bool)
      requires Valid()
      modifies this, conn, b
      ensures Valid() && handshakeComplete == old(Ready()) && n <= b.Length
      ensures conn.outbox == old(conn.outbox) + old(Greeting())
      ensures !old(Ready()) ==> n == 0 && !ok
      ensures old(Ready()) && !isClient && config.messages < 2 ==>
                && n == 0 && (ok <==> b.Length == 0) && inputBuffer == old(inputBuffer)
                && conn.inbox == old(Arriving()) && conn.open == old(conn.open) && Rx() == old(Rx()) && Tx() == old(Tx())
      ensures old(Ready()) && (isClient || config.messages >= 2) ==>
                var r := RawReceive(z, old(Rx()), old(inputBuffer), old(Arriving()), b.Length);
                && ok == r.ok && b[..n] == r.data && inputBuffer == r.buffer && Tx() == old(Tx())
                && Rx() == r.state && conn.inbox == r.wire
                && (conn.open <==> old(conn.open) && (ok || !Terminates(z, old(Rx()), old(Arriving()))))
                && (!ok ==> |old(inputBuffer)| <= b.Length && b[..|old(inputBuffer)|] == old(inputBuffer))
    {
      hide Shake, SendState, RawReceive, Terminates;
      var shaken := Handshake();
      if !shaken {
        return 0, false;
      }
      if !isClient && config.messages < 2 {
        return 0, b.Length == 0;
      }
      n, ok := DrainAndFetch(b);
    }

    /** Read, once the handshake is over. */
    method DrainAndFetch(b: array<byte>) returns (n: nat, ok: bool)
      requires conn.Valid()
      modifies this`incoming, this`inputBuffer, conn, b
      ensures n <= b.Length && conn.outbox == old(conn.outbox) && conn.Valid()
      ensures var r := RawReceive(z, old(incoming), old(inputBuffer), old(conn.inbox), b.Length);
              && ok == r.ok && b[..n] == r.data && inputBuffer == r.buffer && incoming == r.state && conn.inbox == r.wire
              && (conn.open <==> old(conn.open) && (ok || !Terminates(z, old(incoming), old(conn.inbox))))
              && (!ok ==> |old(inputBuffer)| <= b.Length && b[..|old(inputBuffer)|] == old(inputBuffer))
    {
      hide OpenMessage, AfterFailure, Terminates;
      if b.Length == 0 {
        return 0, true;
      }
      var readSoFar := Drain(b);
      if readSoFar == b.Length {
        return b.Length, true;
      }
      var plaintext := FetchMessage();
      if plaintext.None? {
        return 0, false;
      }
      n := Fill(b, readSoFar, plaintext.value);
      ok := true;
    }

    /** Copies the input buffer into the slice; what does not fit stays. */
    method Drain(b: array<byte>) returns (n: nat)
      modifies this`inputBuffer, b
      ensures n == Min(|old(inputBuffer)|, b.Length)
      ensures b[..n] == old(inputBuffer)[..n] && inputBuffer == old(inputBuffer)[n..]
    {
      n := CopyInto(b, 0, inputBuffer);
      inputBuffer := inputBuffer[n..];
    }

    /** Copies a message behind the first `at` bytes of the slice; what does not fit goes into the buffer. */
    method Fill(b: array<byte>, at: nat, m: bytes) returns (n: nat)
      requires at <= b.Length
      modifies this`inputBuffer, b
      ensures n == at + Min(b.Length - at, |m|)
      ensures b[..n] == old(b[..at]) + m[..n - at] && inputBuffer == m[n - at..]
    {
      var copied := CopyInto(b, at, m);
      assert b[..at + copied] == b[..at] + b[at..at + copied];
      inputBuffer := m[copied..];
      n := at + copied;
    }

    /** The part of Read that takes one message off the wire. */
    method FetchMessage() returns (plaintext: Option<bytes>)
      requires conn.Valid()
      modifies this`incoming, conn
      ensures conn.outbox == old(conn.outbox) && conn.Valid()
      ensures match OpenMessage(z, old(incoming), old(conn.inbox))
              case Some((next, m, rest)) =>
                plaintext == Some(m) && incoming == next && conn.inbox == rest && conn.open == old(conn.open)
              case None =>
                && plaintext == None && incoming == old(incoming)
                && conn.inbox == AfterFailure(z, old(incoming), old(conn.inbox))
                && (conn.open <==> old(conn.open) && !Terminates(z, old(incoming), old(conn.inbox)))
    {
      var noiseMessage, got := ReadFrame(conn);
      if !got {
        return None;
      }
      if incoming.n > z.maxNonce {
        conn.Close();
        return None;
      }
      var decrypted := Decrypt(z, incoming, noiseMessage);
      if decrypted.None? {
        return None;
      }
      incoming := decrypted.value.0;
      plaintext := Some(decrypted.value.1);
    }
  }

  /** The handshake of one side on what arrives. */
  function Shake(z: Library, isClient: bool, config: Config, prologue: bytes, inbox: bytes): Driven {
    var start := HandshakeState(config, prologue, []);
    if z.start(config, prologue) then Drive(z, HandshakeFraming(), start, isClient, [], inbox)
    else Driven([], inbox, start, Refused)
  }

  lemma ShakingStarts(z: Library, isClient: bool, config: Config, prologue: bytes, inbox: bytes)
    ensures var start, whole := HandshakeState(config, prologue, []), Shake(z, isClient, config, prologue, inbox);
            if z.start(config, prologue) then DrivingOnCourse(z, HandshakeFraming(), whole, start, isClient, [], inbox, [])
            else whole == Driven([], inbox, start, Refused)
  {
    hide Drive, DrivingOnCourse, HandshakeFraming;
    DrivingStarts(z, HandshakeFraming(), HandshakeState(config, prologue, []), isClient, [], inbox);
  }

  lemma SendStates(z: Library, hs: HandshakeState)
    ensures SendState(z, true, hs) == CipherState(z.split(hs).0, 0) && SendState(z, false, hs) == CipherState(z.split(hs).1, 0)
  {
  }

  lemma NothingToUnframe()
    ensures Unframe([]).None?
  {
  }

  /** Reads until `n` bytes are there, however the network splits them. */
  method ReadBytes(r: Wire.Conn, n: nat) returns (result: bytes, ok: bool)
    modifies r`inbox
    ensures ok <==> n <= |old(r.inbox)|
    ensures ok ==> result == old(r.inbox)[..n] && r.inbox == old(r.inbox)[n..]
    ensures !ok ==> r.inbox == []
  {
    result := [];
    while true
      invariant |result| <= n && result + r.inbox == old(r.inbox)
      invariant |result| == n ==> n == 0
      decreases n - |result|, n == 0
    {
      var m, got := r.Read(n - |result|);
      if !got {
        return result, false;
      }
      result := result + m;
      if |result| == n {
        break;
      }
    }
    ok := true;
  }

  /** Header and body of one message; a header never names more than the largest Noise message. */
  method ReadFrame(r: Wire.Conn) returns (m: bytes, ok: bool)
    modifies r`inbox
    ensures match Unframe(old(r.inbox))
            case Some((body, rest)) => ok && m == body && r.inbox == rest
            case None => !ok && r.inbox == []
  {
    var bufHeader, got := ReadBytes(r, 2);
    if !got {
      return [], false;
    }
    m, ok := ReadBytes(r, FromUint16(bufHeader));
  }

  /**
   * Whatever arrives, a completed handshake ran the configured pattern from the configured prologue, every message
   * composed or accepted in turn, and has written exactly its own messages, each behind its 16-bit length.
   */
  lemma HandshakeKeepsTheRules(z: Library, isClient: bool, config: Config, prologue: bytes, inbox: bytes)
    requires Shake(z, isClient, config, prologue, inbox).Done()
    ensures var d := Shake(z, isClient, config, prologue, inbox);
            && d.hs.cfg == config && d.hs.prologue == prologue && |d.hs.log| == config.messages
            && d.sent == OwnFrames(HandshakeFraming(), d.hs.log, 0, isClient) && Sound(z, d.hs, 0, isClient)
  {
    hide HandshakeFraming, OwnFrames, Sound, Drive;
    DriveWritesItsTurns(z, HandshakeFraming(), HandshakeState(config, prologue, []), isClient, [], inbox);
  }

  /**
   * Two honest peers over a faithful channel complete the handshake with one fingerprint and crossed cipher states: the
   * client sends under the first key of the pair, the server under the second.
   */
  lemma HandshakeCrosses(z: Library, client: Config, server: Config, prologue: bytes, toClient: bytes, toServer: bytes)
    requires Interoperable(z, client, server)
    requires toServer == Shake(z, true, client, prologue, toClient).sent
    requires toClient == Shake(z, false, server, prologue, toServer).sent
    ensures var dc, ds := Shake(z, true, client, prologue, toClient), Shake(z, false, server, prologue, toServer);
            && dc.Done() && ds.Done() && z.channelBinding(dc.hs) == z.channelBinding(ds.hs)
            && SendState(z, true, dc.hs) == SendState(z, true, ds.hs) == CipherState(z.split(dc.hs).0, 0)
            && SendState(z, false, dc.hs) == SendState(z, false, ds.hs) == CipherState(z.split(dc.hs).1, 0)
  {
    HandshakeFramingIsFaithful();
    DrivesAgree(z, HandshakeFraming(), client, server, prologue, [], toClient, toServer);
  }

  /** Two connections that completed an honest handshake with each other show the same fingerprint. */
  lemma FingerprintsAgree(client: Conn, server: Conn)
    requires client.Valid() && server.Valid() && client.handshakeComplete && server.handshakeComplete
    requires client.isClient && !server.isClient && client.z == server.z && client.prologue == server.prologue
    requires Interoperable(client.z, client.config, server.config)
    requires server.heard == client.ShakeOn(client.heard).sent && client.heard == server.ShakeOn(server.heard).sent
    ensures client.z.channelBinding(client.ShakeOn(client.heard).hs) == server.z.channelBinding(server.ShakeOn(server.heard).hs)
  {
    hide Shake;
    HandshakeCrosses(client.z, client.config, server.config, client.prologue, client.heard, server.heard);
  }

  /**
   * The whole connection: honest peers, then in either direction any Writes and Reads, failed ones included.
   * What was written is what was returned and lost, in order, then the buffer, then what is in flight; and
   * unless something was lost the caller has a prefix of what was written.
   */
  lemma ConnectionIsAStream(z: Library, client: Config, server: Config, prologue: bytes, toClient: bytes, toServer: bytes,
                            ops: seq<Op>, fromClient: bool)
    requires Interoperable(z, client, server) && Lawful(z)
    requires toServer == Shake(z, true, client, prologue, toClient).sent
    requires toClient == Shake(z, false, server, prologue, toServer).sent
    ensures var dc, ds := Shake(z, true, client, prologue, toClient), Shake(z, false, server, prologue, toServer);
            var tx := SendState(z, fromClient, if fromClient then dc.hs else ds.hs);
            var rx := SendState(z, fromClient, if fromClient then ds.hs else dc.hs);
            var end := RawRun(z, RawLink(tx, [], Reader(rx, [], [], [])), ops);
            && dc.Done() && ds.Done() && RawConserved(z, end)
            && (NothingLost(end.reader.history) ==> ReturnedBytes(end.reader.history) <= end.written)
  {
    hide Shake, SendState, RawRun, NothingLost;
    HandshakeCrosses(z, client, server, prologue, toClient, toServer);
    var dc := Shake(z, true, client, prologue, toClient);
    var tx := SendState(z, fromClient, dc.hs);
    var l := RawLink(tx, [], Reader(tx, [], [], []));
    RawRunConserves(z, l, ops);
    var end := RawRun(z, l, ops);
    if NothingLost(end.reader.history) {
      NothingLostMeans(end.reader.history);
      var (_, plain) := InFlight(MessageCodec(z), end.reader.state, end.reader.wire).value;
      assert end.written == Joined(end.reader.history) + (end.reader.buffer + plain);
    }
  }
}
