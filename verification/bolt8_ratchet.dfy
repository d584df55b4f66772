/** BOLT-8 transport messages: two nonces each, and a key rotation every 500 messages. */
module Bolt8Ratchet {
  import opened Bytes
  import opened Bolt8Primitives
  import opened ByteStream

  /** One direction of a connection: `(sk, sck, sn)` on the sending side, `(rk, rck, rn)` on the other. */
  datatype Ratchet = Ratchet(key: Key, chain: Key, nonce: nat)

  /** `maybeRekeySend` and `maybeRekeyRecv`. */
  function Rekey(p: Primitives, r: Ratchet): Ratchet {
    if r.nonce < REKEY_INTERVAL then r else
    var (chain, key) := p.hkdf(r.chain, r.key);
    Ratchet(key, chain, 0)
  }

  function Advance(p: Primitives, r: Ratchet): Ratchet {
    Rekey(p, r.(nonce := r.nonce + 2))
  }

  /** Encrypted length, then encrypted body. */
  function SealMessage(p: Primitives, r: Ratchet, m: bytes): bytes {
    p.seal(r.key, r.nonce, [], Uint16(|m|)) + p.seal(r.key, r.nonce + 1, [], m)
  }

  const LENGTH_SIZE: nat := 2 + MAC_SIZE

  /** One message off the front of the wire: the state after it, its plaintext, and what follows it. */
  function OpenMessage(p: Primitives, r: Ratchet, wire: bytes): Option<(Ratchet, bytes, bytes)> {
    if |wire| < LENGTH_SIZE then None else
    match Decrypt(p, r.key, r.nonce, [], wire[..LENGTH_SIZE])
    case None => None
    case Some(length) =>
      var size := FromUint16(length) + MAC_SIZE;
      var later := wire[LENGTH_SIZE..];
      if |later| < size then None else
      match Decrypt(p, r.key, r.nonce + 1, [], later[..size])
      case None => None
      case Some(m) => Some((Advance(p, r), m, later[size..]))
  }

  function MessageCodec(p: Primitives): Codec<Ratchet> {
    Codec(MAX_MESSAGE_LEN,
          (r: Ratchet, m: bytes) => Some((Advance(p, r), SealMessage(p, r, m))),
          (r: Ratchet, wire: bytes) => OpenMessage(p, r, wire))
  }

  lemma OpenInvertsSeal(p: Primitives, r: Ratchet, m: bytes)
    requires Lawful(p) && |m| <= MAX_MESSAGE_LEN
    ensures OpenMessage(p, r, SealMessage(p, r, m)) == Some((Advance(p, r), m, []))
  {
    var length := p.seal(r.key, r.nonce, [], Uint16(|m|));
    var body := p.seal(r.key, r.nonce + 1, [], m);
    DecryptInvertsSeal(p, r.key, r.nonce, [], Uint16(|m|));
    DecryptInvertsSeal(p, r.key, r.nonce + 1, [], m);
    Uint16RoundTrip(|m|);
    var wire := SealMessage(p, r, m);
    assert wire[..LENGTH_SIZE] == length && wire[LENGTH_SIZE..] == body;
    assert body[..|m| + MAC_SIZE] == body && body[|m| + MAC_SIZE..] == [];
  }

  /**
   * Exactly the sealed messages are opened: the length under the current nonce, the body under the next, each of
   * them then spent, whatever follows.
   */
  lemma OpenIff(p: Primitives, r: Ratchet, wire: bytes, next: Ratchet, m: bytes, rest: bytes)
    requires Lawful(p)
    ensures OpenMessage(p, r, wire) == Some((next, m, rest))
            <==> |m| <= MAX_MESSAGE_LEN && next == Rekey(p, r.(nonce := r.nonce + 2))
                 && wire == p.seal(r.key, r.nonce, [], Uint16(|m|)) + p.seal(r.key, r.nonce + 1, [], m) + rest
  {
    if OpenMessage(p, r, wire) == Some((next, m, rest)) {
      var first, later := wire[..LENGTH_SIZE], wire[LENGTH_SIZE..];
      var length := Decrypt(p, r.key, r.nonce, [], first).value;
      var size := FromUint16(length) + MAC_SIZE;
      DecryptedWasSealed(p, r.key, r.nonce, [], first);
      DecryptedWasSealed(p, r.key, r.nonce + 1, [], later[..size]);
      Uint16Inverse(length);
      assert wire == first + later[..size] + later[size..];
    }
    if |m| <= MAX_MESSAGE_LEN && wire == SealMessage(p, r, m) + rest {
      OpenInvertsSeal(p, r, m);
      OpenIsStable(p, r, SealMessage(p, r, m), rest);
      assert [] + rest == rest;
    }
  }

  lemma OpenIsStable(p: Primitives, r: Ratchet, wire: bytes, more: bytes)
    requires OpenMessage(p, r, wire).Some?
    ensures var (next, m, rest) := OpenMessage(p, r, wire).value;
            |rest| < |wire| && OpenMessage(p, r, wire + more) == Some((next, m, rest + more))
  {
    assert (wire + more)[..LENGTH_SIZE] == wire[..LENGTH_SIZE];
    assert (wire + more)[LENGTH_SIZE..] == wire[LENGTH_SIZE..] + more;
    var length := Decrypt(p, r.key, r.nonce, [], wire[..LENGTH_SIZE]).value;
    var size := FromUint16(length) + MAC_SIZE;
    var later := wire[LENGTH_SIZE..];
    assert (later + more)[..size] == later[..size] && (later + more)[size..] == later[size..] + more;
  }

  /** BOLT-8 messages carry the byte stream of module ByteStream. */
  lemma MessageCodecIsFaithful(p: Primitives)
    requires Lawful(p)
    ensures Faithful(MessageCodec(p)) && MessageCodec(p).maxBody == 65535
  {
    var c := MessageCodec(p);
    forall r: Ratchet, m: bytes | 0 < |m| <= c.maxBody ensures Inverts(c, r, m) {
      OpenInvertsSeal(p, r, m);
      DecryptInvertsSeal(p, r.key, r.nonce, [], Uint16(|m|));
    }
    forall r: Ratchet, wire: bytes, more: bytes ensures Stable(c, r, wire, more) {
      if OpenMessage(p, r, wire).Some? {
        OpenIsStable(p, r, wire, more);
      }
    }
  }

  // ---- Rotation ----

  /** The state after `m` messages. */
  function After(p: Primitives, r: Ratchet, m: nat): Ratchet {
    if m == 0 then r else Advance(p, After(p, r, m - 1))
  }

  /** The chaining key and key after `epoch` rotations, with no messages in sight. */
  function Rotations(p: Primitives, chain: Key, key: Key, epoch: nat): (Key, Key) {
    if epoch == 0 then (chain, key) else
    var (c, k) := Rotations(p, chain, key, epoch - 1);
    p.hkdf(c, k)
  }

  const MESSAGES_PER_KEY: nat := REKEY_INTERVAL / 2

  /** The epoch and the index within it, one message on; 500 is MESSAGES_PER_KEY. */
  lemma NextIndex(m: nat)
    ensures (m + 1) / 500 == m / 500 + (if m % 500 == 499 then 1 else 0)
    ensures (m + 1) % 500 == if m % 500 == 499 then 0 else m % 500 + 1
  {
  }

  /** After m messages the nonce is 2·(m mod 500) and the key has been rotated m div 500 times. */
  lemma {:induction false} RotationSchedule(p: Primitives, chain: Key, key: Key, m: nat)
    ensures var r := After(p, Ratchet(key, chain, 0), m);
            var (c, k) := Rotations(p, chain, key, m / MESSAGES_PER_KEY);
            r == Ratchet(k, c, 2 * (m % MESSAGES_PER_KEY))
  {
    assert MESSAGES_PER_KEY == 500;
    if m > 0 {
      RotationSchedule(p, chain, key, m - 1);
      NextIndex(m - 1);
      NextRatchet(p, chain, key, (m - 1) / MESSAGES_PER_KEY, (m - 1) % MESSAGES_PER_KEY);
    }
  }

  /** One message on, within an epoch and across its end. */
  lemma NextRatchet(p: Primitives, chain: Key, key: Key, epoch: nat, i: nat)
    requires i < MESSAGES_PER_KEY
    ensures var (c, k) := Rotations(p, chain, key, epoch);
            var (c', k') := Rotations(p, chain, key, epoch + 1);
            Advance(p, Ratchet(k, c, 2 * i)) == if i == MESSAGES_PER_KEY - 1 then Ratchet(k', c', 0) else Ratchet(k, c, 2 * (i + 1))
  {
  }

  /** The rotation epoch and nonce under which half `half` (0: length, 1: body) of message `i` is sealed. */
  function NonceUse(i: nat, half: nat): (nat, nat) {
    (i / MESSAGES_PER_KEY, 2 * (i % MESSAGES_PER_KEY) + half)
  }

  /** Message `i` is sealed under exactly those nonces, with the key of exactly that epoch. */
  lemma MessageUsesItsNonces(p: Primitives, chain: Key, key: Key, i: nat, m: bytes)
    ensures var k := Rotations(p, chain, key, NonceUse(i, 0).0).1;
            SealMessage(p, After(p, Ratchet(key, chain, 0), i), m)
            == p.seal(k, NonceUse(i, 0).1, [], Uint16(|m|)) + p.seal(k, NonceUse(i, 1).1, [], m)
  {
    RotationSchedule(p, chain, key, i);
  }

  /** No nonce reaches 1000 and no (epoch, nonce) pair is used twice, over any number of messages. */
  lemma NoncesNeverRepeat(i: nat, half: nat, j: nat, half': nat)
    requires half < 2 && half' < 2
    ensures NonceUse(i, half).1 < REKEY_INTERVAL
    ensures NonceUse(i, half) == NonceUse(j, half') <==> i == j && half == half'
  {
    if NonceUse(i, half) == NonceUse(j, half') {
      assert i == MESSAGES_PER_KEY * (i / MESSAGES_PER_KEY) + i % MESSAGES_PER_KEY;
      assert j == MESSAGES_PER_KEY * (j / MESSAGES_PER_KEY) + j % MESSAGES_PER_KEY;
    }
  }

  /** The number of messages a Write of `size` bytes is cut into. */
  function MessagesFor(size: nat): nat {
    if size == 0 then 0 else 1 + MessagesFor(size - Min(size, MAX_MESSAGE_LEN))
  }

  lemma {:induction false} AfterAdds(p: Primitives, r: Ratchet, m: nat, n: nat)
    ensures After(p, After(p, r, m), n) == After(p, r, m + n)
  {
    if n > 0 {
      AfterAdds(p, r, m, n - 1);
    }
  }

  /** A Write moves the sending state by the messages it sent, never stops early, and loses no byte. */
  lemma {:induction false} SendAdvances(p: Primitives, r: Ratchet, data: bytes)
    ensures var s := Send(MessageCodec(p), r, data);
            s.ok && s.n == |data| && s.state == After(p, r, MessagesFor(|data|))
    decreases |data|
  {
    hide Advance, SealMessage, OpenMessage;
    if data != [] {
      var n := Min(|data|, MAX_MESSAGE_LEN);
      SendAdvances(p, Advance(p, r), data[n..]);
      assert After(p, r, 1) == Advance(p, After(p, r, 0));
      AfterAdds(p, r, 1, MessagesFor(|data| - n));
    }
  }

  function MessagesIn(op: Op): nat {
    match op case Write(data) => MessagesFor(|data|) case Read(_) => 0
  }

  function MessagesWritten(ops: seq<Op>): nat {
    if ops == [] then 0 else MessagesIn(ops[0]) + MessagesWritten(ops[1..])
  }

  lemma StepAdvances(p: Primitives, l: Link<Ratchet>, op: Op)
    ensures Step(MessageCodec(p), l, op).tx == After(p, l.tx, MessagesIn(op))
  {
    hide Send, Receive;
    match op {
      case Write(data) => SendAdvances(p, l.tx, data);
      case Read(_) =>
    }
  }

  lemma {:induction false} RunAdvances(p: Primitives, l: Link<Ratchet>, ops: seq<Op>)
    ensures Run(MessageCodec(p), l, ops).tx == After(p, l.tx, MessagesWritten(ops))
    decreases |ops|
  {
    hide Step, MessagesIn;
    if ops != [] {
      var next := Step(MessageCodec(p), l, ops[0]);
      StepAdvances(p, l, ops[0]);
      RunAdvances(p, next, ops[1..]);
      AfterAdds(p, l.tx, MessagesIn(ops[0]), MessagesWritten(ops[1..]));
    }
  }

  function FreshLink(r: Ratchet): Link<Ratchet> {
    Link(r, r, [], [], [], [])
  }

  /**
   * Rotation lockstep: both directions start from the keys of the handshake, and after any Writes and
   * Reads the stream is conserved, the sender is in the state its message count dictates, and a
   * receiver that has read the whole wire is in that state too, across any number of rotations.
   */
  lemma RotationLockstep(p: Primitives, chain: Key, key: Key, ops: seq<Op>)
    requires Lawful(p)
    ensures var end := Run(MessageCodec(p), FreshLink(Ratchet(key, chain, 0)), ops);
            var m := MessagesWritten(ops);
            var (c, k) := Rotations(p, chain, key, m / MESSAGES_PER_KEY);
            && Faithful(MessageCodec(p)) && Conserved(MessageCodec(p), end)
            && end.tx == Ratchet(k, c, 2 * (m % MESSAGES_PER_KEY))
            && (end.wire == [] ==> end.rx == end.tx)
  {
    var r := Ratchet(key, chain, 0);
    MessageCodecIsFaithful(p);
    StreamConserved(MessageCodec(p), FreshLink(r), ops);
    RunAdvances(p, FreshLink(r), ops);
    RotationSchedule(p, chain, key, MessagesWritten(ops));
  }
}
