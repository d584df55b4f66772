/** The cryptographic functions BOLT-8 is built from, kept abstract, and the laws relied on. */
module Bolt8Primitives {
  import opened Bytes

  const MAC_SIZE: nat := 16
  const REKEY_INTERVAL: nat := 1000
  const MAX_MESSAGE_LEN: nat := 65535
  const POINT_SIZE: nat := 33

  // A secp256k1 private key.
  type Scalar = int

  // A public key, by its 33-byte compressed form.
  type Point = b: bytes | |b| == POINT_SIZE witness seq(POINT_SIZE, _ => 0)

  datatype Primitives = Primitives(
    protocolName: bytes,
    prologue: bytes,
    sha256: bytes -> Key,
    hkdf: (Key, bytes) -> (Key, Key),
    publicKey: Scalar -> Point,
    onCurve: Point -> bool,
    ecdh: (Scalar, Point) -> bytes,
    seal: (Key, nat, bytes, bytes) -> bytes,
    open: (Key, nat, bytes, bytes) -> Option<bytes>)

  ghost predicate SealLaw(p: Primitives, k: Key, n: nat, ad: bytes, m: bytes) {
    |p.seal(k, n, ad, m)| == |m| + MAC_SIZE && p.open(k, n, ad, p.seal(k, n, ad, m)) == Some(m)
  }

  // The AEAD is deterministic: what opens is what sealing the plaintext gives.
  ghost predicate OpenLaw(p: Primitives, k: Key, n: nat, ad: bytes, c: bytes) {
    match p.open(k, n, ad, c)
    case None => true
    case Some(m) => c == p.seal(k, n, ad, m)
  }

  ghost predicate EcdhLaw(p: Primitives, a: Scalar, b: Scalar) {
    p.ecdh(a, p.publicKey(b)) == p.ecdh(b, p.publicKey(a))
  }

  ghost predicate Lawful(p: Primitives) {
    && (forall k: Key, n: nat, ad: bytes, m: bytes :: SealLaw(p, k, n, ad, m))
    && (forall k: Key, n: nat, ad: bytes, c: bytes :: OpenLaw(p, k, n, ad, c))
    && (forall a: Scalar, b: Scalar :: EcdhLaw(p, a, b))
    && (forall a: Scalar :: p.onCurve(p.publicKey(a)))
  }

  /** `secp256k1.ParsePubKey` on a 33-byte slice. */
  function ParsePoint(p: Primitives, b: bytes): (r: Option<Point>)
    requires |b| == POINT_SIZE
    ensures r.Some? ==> r.value == b
  {
    if p.onCurve(b) then Some(b) else None
  }

  /** Never `Some` of a plaintext with another length than the ciphertext leaves for it. */
  function Decrypt(p: Primitives, k: Key, n: nat, ad: bytes, c: bytes): (r: Option<bytes>)
    ensures r.Some? ==> |c| == |r.value| + MAC_SIZE
  {
    match p.open(k, n, ad, c)
    case None => None
    case Some(m) => if |c| == |m| + MAC_SIZE then Some(m) else None
  }

  lemma DecryptInvertsSeal(p: Primitives, k: Key, n: nat, ad: bytes, m: bytes)
    requires Lawful(p)
    ensures |p.seal(k, n, ad, m)| == |m| + MAC_SIZE
    ensures Decrypt(p, k, n, ad, p.seal(k, n, ad, m)) == Some(m)
  {
    assert SealLaw(p, k, n, ad, m);
  }

  lemma DecryptedWasSealed(p: Primitives, k: Key, n: nat, ad: bytes, c: bytes)
    requires Lawful(p) && Decrypt(p, k, n, ad, c).Some?
    ensures c == p.seal(k, n, ad, Decrypt(p, k, n, ad, c).value)
  {
    assert OpenLaw(p, k, n, ad, c);
  }

  /** h = SHA256(h || data). */
  function MixHash(p: Primitives, h: Key, data: bytes): Key {
    p.sha256(h + data)
  }

  /** The common starting hash and chaining key; both sides know the responder's static key. */
  function InitialState(p: Primitives, responderStatic: Point): (Key, Key) {
    var ck := p.sha256(p.protocolName);
    (MixHash(p, MixHash(p, ck, p.prologue), responderStatic), ck)
  }

  /** The laws can be met together, so statements that assume them are not empty. */
  lemma LawsAreSatisfiable()
    ensures exists p: Primitives :: Lawful(p)
  {
    var tag: bytes := seq(MAC_SIZE, _ => 0);
    var point: Point := seq(POINT_SIZE, _ => 0);
    var open := (k: Key, n: nat, ad: bytes, c: bytes) =>
      if |c| >= MAC_SIZE && c[|c| - MAC_SIZE..] == tag then Some(c[..|c| - MAC_SIZE]) else None;
    var p := Primitives([], [], b => ZERO_KEY, (k, b) => (ZERO_KEY, ZERO_KEY), a => point, q => true,
                        (a, q) => [], (k, n, ad, m) => m + tag, open);
    forall k: Key, n: nat, ad: bytes, m: bytes ensures SealLaw(p, k, n, ad, m) {
      assert (m + tag)[|m|..] == tag && (m + tag)[..|m|] == m;
    }
    forall k: Key, n: nat, ad: bytes, c: bytes ensures OpenLaw(p, k, n, ad, c) {
      if p.open(k, n, ad, c).Some? {
        assert c == c[..|c| - MAC_SIZE] + tag;
      }
    }
    assert Lawful(p);
  }
}
