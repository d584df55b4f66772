/** The Noise XX symmetric state of the WhatsApp handshake, and its abstract primitives. */
module WhatsAppNoise {
  import opened Bytes

  const TAG_SIZE: nat := 16
  const TWO_32: nat := 0x1_0000_0000

  datatype Primitives = Primitives(
    sha256: bytes -> Key,
    hkdf: (Key, bytes) -> (Key, Key),
    publicKey: Key -> Key,
    x25519: (Key, Key) -> Option<bytes>,
    seal: (Key, nat, bytes, bytes) -> bytes,
    open: (Key, nat, bytes, bytes) -> Option<bytes>)

  ghost predicate SealLaw(p: Primitives, k: Key, n: nat, ad: bytes, m: bytes) {
    |p.seal(k, n, ad, m)| == |m| + TAG_SIZE && p.open(k, n, ad, p.seal(k, n, ad, m)) == Some(m)
  }

  // X25519 of two well-formed keys never hits the all-zero output, and does not depend on the side.
  ghost predicate DhLaw(p: Primitives, a: Key, b: Key) {
    p.x25519(a, p.publicKey(b)).Some? && p.x25519(a, p.publicKey(b)) == p.x25519(b, p.publicKey(a))
  }

  ghost predicate Lawful(p: Primitives) {
    forall k: Key, n: nat, ad: bytes, m: bytes :: SealLaw(p, k, n, ad, m)
  }

  /** The laws can be met together, so statements that assume them are not empty. */
  lemma LawsAreSatisfiable()
    ensures exists p: Primitives :: Lawful(p) && forall a: Key, b: Key :: DhLaw(p, a, b)
  {
    var tag: bytes := seq(TAG_SIZE, _ => 0);
    var open := (k: Key, n: nat, ad: bytes, c: bytes) => if |c| >= TAG_SIZE then Some(c[..|c| - TAG_SIZE]) else None;
    var p := Primitives(b => ZERO_KEY, (k, b) => (ZERO_KEY, ZERO_KEY), k => k, (a, b) => Some([]),
                        (k, n, ad, m) => m + tag, open);
    forall k: Key, n: nat, ad: bytes, m: bytes ensures SealLaw(p, k, n, ad, m) {
      assert (m + tag)[..|m|] == m;
    }
    assert Lawful(p) && forall a: Key, b: Key :: DhLaw(p, a, b);
  }

  /** Authenticate is h = SHA256(h || data). */
  function MixHash(p: Primitives, h: Key, data: bytes): Key {
    p.sha256(h + data)
  }

  /** The protocol name is the first hash as it stands when it is exactly 32 bytes long. */
  function InitialHash(p: Primitives, pattern: bytes): Key {
    if |pattern| == 32 then pattern else p.sha256(pattern)
  }

  class NoiseHandshake {
    const p: Primitives
    var hash: Key
    var salt: Key
    var key: Key
    var counter: nat

    // How often a secret was mixed in, and every (mix, counter) an encryption or decryption has used.
    ghost var epoch: nat
    ghost var uses: seq<(nat, nat)>

    constructor (p: Primitives, pattern: bytes, header: bytes)
      ensures this.p == p && counter == 0 && epoch == 0 && uses == []
      ensures salt == key == InitialHash(p, pattern) && hash == MixHash(p, salt, header)
      ensures NoReuse()
    {
      this.p := p;
      counter, epoch, uses := 0, 0, [];
      var first := InitialHash(p, pattern);
      salt, key, hash := first, first, MixHash(p, first, header);
    }

    /** No counter has been used twice under one key, and the next one has not been used at all. */
    ghost predicate NoReuse()
      reads this
    {
      && counter < TWO_32
      && (forall i | 0 <= i < |uses| :: uses[i].0 < epoch || (uses[i].0 == epoch && uses[i].1 < counter))
      && (forall i, j | 0 <= i < j < |uses| :: uses[i] != uses[j])
    }

    /** So no (key, counter) pair is used twice. */
    lemma UsesAreDistinct()
      requires NoReuse()
      ensures forall i, j | 0 <= i < j < |uses| :: uses[i] != uses[j]
    {
    }

    method Authenticate(data: bytes)
      modifies this`hash
      ensures hash == MixHash(p, old(hash), data)
      ensures old(NoReuse()) ==> NoReuse()
    {
      hash := MixHash(p, hash, data);
    }

    /** A uint32: the 2^32nd use under one key would come back to counter 0. */
    method PostIncrementCounter() returns (c: nat)
      modifies this`counter, this`uses
      ensures c == old(counter) && counter == (old(counter) + 1) % TWO_32
      ensures uses == old(uses) + [(epoch, c)]
      ensures old(NoReuse()) && c + 1 < TWO_32 ==> NoReuse()
    {
      c := counter;
      counter := (counter + 1) % TWO_32;
      uses := uses + [(epoch, c)];
    }

    method Encrypt(plaintext: bytes) returns (ciphertext: bytes)
      modifies this`hash, this`counter, this`uses
      ensures ciphertext == p.seal(key, old(counter), old(hash), plaintext)
      ensures hash == MixHash(p, old(hash), ciphertext) && counter == (old(counter) + 1) % TWO_32
      ensures uses == old(uses) + [(epoch, old(counter))]
      ensures old(NoReuse()) && old(counter) + 1 < TWO_32 ==> NoReuse()
    {
      var c := PostIncrementCounter();
      ciphertext := p.seal(key, c, hash, plaintext);
      Authenticate(ciphertext);
    }

    /** A failed decryption leaves the hash alone but has spent its counter. */
    method Decrypt(ciphertext: bytes) returns (plaintext: Option<bytes>)
      modifies this`hash, this`counter, this`uses
      ensures plaintext == p.open(key, old(counter), old(hash), ciphertext)
      ensures hash == if plaintext.Some? then MixHash(p, old(hash), ciphertext) else old(hash)
      ensures counter == (old(counter) + 1) % TWO_32
      ensures uses == old(uses) + [(epoch, old(counter))]
      ensures old(NoReuse()) && old(counter) + 1 < TWO_32 ==> NoReuse()
    {
      var c := PostIncrementCounter();
      plaintext := p.open(key, c, hash, ciphertext);
      if plaintext.Some? {
        Authenticate(ciphertext);
      }
    }

    method MixIntoKey(data: bytes)
      modifies this`salt, this`key, this`counter, this`epoch
      ensures (salt, key) == p.hkdf(old(salt), data) && counter == 0 && epoch == old(epoch) + 1
      ensures old(NoReuse()) ==> NoReuse()
    {
      counter := 0;
      var (write, read) := p.hkdf(salt, data);
      salt, key := write, read;
      epoch := epoch + 1;
    }

    /** Fails, changing nothing, when X25519 does. */
    method MixSharedSecretIntoKey(priv: Key, pub: Key) returns (ok: bool)
      modifies this`salt, this`key, this`counter, this`epoch
      ensures match p.x25519(priv, pub)
              case Some(secret) =>
                ok && (salt, key) == p.hkdf(old(salt), secret) && counter == 0 && epoch == old(epoch) + 1
              case None => !ok && unchanged(this)
      ensures old(NoReuse()) ==> NoReuse()
    {
      var secret := p.x25519(priv, pub);
      ok := secret.Some?;
      if ok {
        MixIntoKey(secret.value);
      }
    }

    method Finish() returns (write: Key, read: Key)
      ensures (write, read) == p.hkdf(salt, [])
    {
      var (w, r) := p.hkdf(salt, []);
      write, read := w, r;
    }
  }
}
