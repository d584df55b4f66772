/** Byte strings, and the two fixed-width big-endian integers the transports put on the wire. */
module Bytes {

  type byte = x: int | 0 <= x < 256

  type bytes = seq<byte>

  // A [32]byte array: keys, digests, chaining keys.
  type Key = k: bytes | |k| == 32 witness ZERO_KEY

  const ZERO_KEY: bytes := seq(32, _ => 0)

  datatype Option<+T> = None | Some(value: T)

  function Min(a: int, b: int): int {
    if a <= b then a else b
  }

  /** The bytes of an ASCII literal. */
  function Ascii(s: string): (b: bytes)
    requires forall i | 0 <= i < |s| :: s[i] < 128 as char
    ensures |b| == |s|
  {
    seq(|s|, i requires 0 <= i < |s| => s[i] as int)
  }

  /** The two bytes `byte(v>>8), byte(v&0xFF)` of `v := uint16(n)`: high bits of `n` are cut off. */
  function Uint16(n: nat): (r: bytes)
    ensures |r| == 2
  {
    [n / 256 % 256, n % 256]
  }

  /** The length read back from a two-byte header. */
  function FromUint16(b: bytes): (n: nat)
    requires |b| == 2
    ensures n <= 0xFFFF
  {
    var hi: int, lo: int := b[0], b[1];
    hi * 256 + lo
  }

  /** The header says the true length, high byte first, exactly when the length fits in 16 bits. */
  lemma Uint16RoundTrip(n: nat)
    ensures FromUint16(Uint16(n)) == n <==> n <= 0xFFFF
    ensures var hi: int, lo: int := Uint16(n)[0], Uint16(n)[1]; hi * 256 + lo == n <==> n <= 0xFFFF
  {
  }

  lemma Uint16Inverse(b: bytes)
    requires |b| == 2
    ensures Uint16(FromUint16(b)) == b
  {
  }

  /** Byte strings of equal length that start two equal strings are themselves equal. */
  lemma SplitEqual(a: bytes, b: bytes, c: bytes, d: bytes)
    requires a + b == c + d && |a| == |c|
    ensures a == c && b == d
  {
    assert a == (a + b)[..|a|] == (c + d)[..|c|] == c;
    assert b == (a + b)[|a|..] == (c + d)[|c|..] == d;
  }

  /** Go's `copy(dst[at:], src)`: as many bytes of `src` as fit. */
  method CopyInto(dst: array<byte>, at: nat, src: bytes) returns (n: nat)
    requires at <= dst.Length
    modifies dst
    ensures n == Min(dst.Length - at, |src|)
    ensures dst[at..at + n] == src[..n]
    ensures dst[..at] == old(dst[..at])
    ensures dst[at + n..] == old(dst[at + n..])
  {
    n := Min(dst.Length - at, |src|);
    forall i | at <= i < at + n {
      dst[i] := src[i - at];
    }
  }
}
