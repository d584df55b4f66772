/** Two-byte big-endian length, then that many bytes: what raw and noisesocket put on the wire. */
module LengthPrefix {
  import opened Bytes
  import opened Noise

  const MAX_LENGTH: nat := 0xFFFF

  function Frame(m: bytes): bytes {
    Uint16(|m|) + m
  }

  function Unframe(wire: bytes): Option<(bytes, bytes)> {
    if |wire| < 2 then None else
    var n := FromUint16(wire[..2]);
    if |wire| - 2 < n then None else Some((wire[2..2 + n], wire[2 + n..]))
  }

  lemma UnframeInvertsFrame(m: bytes, rest: bytes)
    requires |m| <= MAX_LENGTH
    ensures Unframe(Frame(m) + rest) == Some((m, rest))
  {
    var wire := Frame(m) + rest;
    Uint16RoundTrip(|m|);
    assert wire[..2] == Uint16(|m|) && wire[2..2 + |m|] == m && wire[2 + |m|..] == rest;
  }

  /** Exactly the framed messages of at most 65535 bytes are read, each with what follows it. */
  lemma UnframeIff(wire: bytes, m: bytes, rest: bytes)
    ensures Unframe(wire) == Some((m, rest)) <==> |m| <= MAX_LENGTH && wire == Uint16(|m|) + m + rest
  {
    if |m| <= MAX_LENGTH && wire == Uint16(|m|) + m + rest {
      UnframeInvertsFrame(m, rest);
    }
    if Unframe(wire) == Some((m, rest)) {
      Uint16Inverse(wire[..2]);
      assert wire == wire[..2] + wire[2..2 + |m|] + wire[2 + |m|..];
    }
  }

  lemma UnframeIsStable(wire: bytes, more: bytes)
    requires Unframe(wire).Some?
    ensures var (m, rest) := Unframe(wire).value;
            |rest| < |wire| && Unframe(wire + more) == Some((m, rest + more))
  {
    var n := FromUint16(wire[..2]);
    assert (wire + more)[..2] == wire[..2] && (wire + more)[2..2 + n] == wire[2..2 + n];
    assert (wire + more)[2 + n..] == wire[2 + n..] + more;
  }

  /** A message that arrives when the nonces of its key are used up closes the connection. */
  predicate Terminates(z: Library, c: CipherState, wire: bytes) {
    Unframe(wire).Some? && c.n > z.maxNonce
  }
}
