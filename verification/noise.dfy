/**
 * The Noise library as its callers see it: configurations, handshake states, and the cipher states a
 * finished handshake yields. A handshake state is everything it was built from and every message
 * that went through it, so any deterministic implementation is one choice of the functions below.
 */
module Noise {
  import opened Bytes

  const MAX_MSG_LEN: nat := 65535
  const TAG_SIZE: nat := 16

  /** `keys` stands for all key material and randomness that went into the configuration. */
  datatype Config = Config(protocol: bytes, messages: nat, initiator: bool, keys: int)

  datatype HandshakeState = HandshakeState(cfg: Config, prologue: bytes, log: seq<bytes>)

  datatype Library = Library(
    start: (Config, bytes) -> bool,
    compose: HandshakeState -> Option<bytes>,
    accepts: (HandshakeState, bytes) -> bool,
    split: HandshakeState -> (Key, Key),
    channelBinding: HandshakeState -> Key,
    seal: (Key, nat, bytes) -> bytes,
    open: (Key, nat, bytes) -> Option<bytes>,
    maxNonce: nat)

  // ---- Handshake states ----

  function NewHandshakeState(z: Library, cfg: Config, prologue: bytes): Option<HandshakeState> {
    if z.start(cfg, prologue) then Some(HandshakeState(cfg, prologue, [])) else None
  }

  function Extend(hs: HandshakeState, m: bytes): HandshakeState {
    hs.(log := hs.log + [m])
  }

  /** The two cipher states, once every message of the pattern has gone through. */
  function CipherStates(z: Library, hs: HandshakeState): Option<(Key, Key)> {
    if |hs.log| == hs.cfg.messages then Some(z.split(hs)) else None
  }

  /** Message, next state, and the cipher states if that message was the last one. */
  function WriteMessage(z: Library, hs: HandshakeState): Option<(bytes, HandshakeState, Option<(Key, Key)>)> {
    match z.compose(hs)
    case None => None
    case Some(m) => Some((m, Extend(hs, m), CipherStates(z, Extend(hs, m))))
  }

  function ReadMessage(z: Library, hs: HandshakeState, m: bytes): Option<(HandshakeState, Option<(Key, Key)>)> {
    if z.accepts(hs, m) then Some((Extend(hs, m), CipherStates(z, Extend(hs, m)))) else None
  }

  // ---- Two configurations that fit together ----

  /** Whose turn message `k` is: the Noise initiator writes the even ones. */
  function Writer(a: Config, b: Config, k: nat): Config {
    if k % 2 == 0 then a else b
  }

  /** Every message so far is the one its writer composes. */
  ghost predicate HonestLog(z: Library, a: Config, b: Config, prologue: bytes, log: seq<bytes>) {
    forall k | 0 <= k < |log| :: z.compose(HandshakeState(Writer(a, b, k), prologue, log[..k])) == Some(log[k])
  }

  /** The next message of an honest run is non-empty, fits a frame, and is accepted by the other side. */
  ghost predicate NextMessageWorks(z: Library, a: Config, b: Config, prologue: bytes, log: seq<bytes>) {
    var writer, reader := Writer(a, b, |log|), Writer(b, a, |log|);
    match z.compose(HandshakeState(writer, prologue, log))
    case None => false
    case Some(m) => 0 < |m| <= MAX_MSG_LEN && z.accepts(HandshakeState(reader, prologue, log), m)
  }

  /**
   * `a` as initiator and `b` as responder complete with each other under any common prologue, and
   * then hold the same pair of cipher keys and the same handshake hash.
   */
  ghost predicate Interoperable(z: Library, a: Config, b: Config) {
    && a.initiator && !b.initiator && a.messages == b.messages && a.protocol == b.protocol
    && (forall prologue: bytes :: z.start(a, prologue) && z.start(b, prologue))
    && (forall prologue: bytes, log: seq<bytes> | HonestLog(z, a, b, prologue, log) ::
          && (|log| < a.messages ==> NextMessageWorks(z, a, b, prologue, log))
          && (|log| == a.messages ==>
                && z.split(HandshakeState(a, prologue, log)) == z.split(HandshakeState(b, prologue, log))
                && z.channelBinding(HandshakeState(a, prologue, log)) == z.channelBinding(HandshakeState(b, prologue, log))))
  }

  lemma HonestLogExtends(z: Library, a: Config, b: Config, prologue: bytes, log: seq<bytes>, m: bytes)
    requires HonestLog(z, a, b, prologue, log)
    requires z.compose(HandshakeState(Writer(a, b, |log|), prologue, log)) == Some(m)
    ensures HonestLog(z, a, b, prologue, log + [m])
  {
    forall k | 0 <= k < |log + [m]|
      ensures z.compose(HandshakeState(Writer(a, b, k), prologue, (log + [m])[..k])) == Some((log + [m])[k])
    {
      assert (log + [m])[..k] == log[..k];
      assert log[..|log|] == log;
    }
  }

  // ---- Cipher states ----

  datatype CipherState = CipherState(key: Key, n: nat)

  function Advance(c: CipherState): CipherState {
    c.(n := c.n + 1)
  }

  /** Fails once the nonces of the key are used up. */
  function Encrypt(z: Library, c: CipherState, m: bytes): Option<(CipherState, bytes)> {
    if c.n > z.maxNonce then None else Some((Advance(c), z.seal(c.key, c.n, m)))
  }

  function Decrypt(z: Library, c: CipherState, ciphertext: bytes): Option<(CipherState, bytes)> {
    if c.n > z.maxNonce then None else
    match z.open(c.key, c.n, ciphertext)
    case None => None
    case Some(m) => Some((Advance(c), m))
  }

  /** The sending state of one side: a client sends under the first key of the pair, a server under the second. */
  function SendState(z: Library, isClient: bool, hs: HandshakeState): CipherState {
    var (c1, c2) := z.split(hs);
    CipherState(if isClient then c1 else c2, 0)
  }

  /** The sending state after a write of `b` that the closed connection refused: one nonce is spent, if there was one. */
  function Spent(z: Library, c: CipherState, b: bytes): CipherState {
    if b == [] || c.n > z.maxNonce then c else Advance(c)
  }

  ghost predicate SealLaw(z: Library, k: Key, n: nat, m: bytes) {
    |z.seal(k, n, m)| == |m| + TAG_SIZE && z.open(k, n, z.seal(k, n, m)) == Some(m)
  }

  ghost predicate Lawful(z: Library) {
    forall k: Key, n: nat, m: bytes :: SealLaw(z, k, n, m)
  }

  /** Both kinds of law can be met together. */
  lemma LawsAreSatisfiable(a: Config, b: Config)
    requires a.initiator && !b.initiator && a.messages == b.messages && a.protocol == b.protocol
    ensures exists z: Library :: Lawful(z) && Interoperable(z, a, b)
  {
    var tag: bytes := seq(TAG_SIZE, _ => 0);
    var open := (k: Key, n: nat, c: bytes) => if |c| >= TAG_SIZE then Some(c[..|c| - TAG_SIZE]) else None;
    var z := Library((cfg, prologue) => true, hs => Some([1]), (hs, m) => true, hs => (ZERO_KEY, ZERO_KEY), hs => ZERO_KEY,
                     (k, n, m) => m + tag, open, 100);
    forall k: Key, n: nat, m: bytes ensures SealLaw(z, k, n, m) {
      assert (m + tag)[..|m|] == m;
    }
    assert Lawful(z);
    assert Interoperable(z, a, b);
  }
}
