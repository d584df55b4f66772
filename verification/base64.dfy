/** Standard base64 with padding (section 4 of RFC 4648), decoded as Go's `base64.StdEncoding` does. */
module Base64 {
  import opened Bytes

  const PAD: byte := '=' as int
  const CR: byte := 13
  const LF: byte := 10

  type sextet = x: int | 0 <= x < 64

  function Char(i: sextet): byte {
    if i < 26 then i + 'A' as int
    else if i < 52 then i - 26 + 'a' as int
    else if i < 62 then i - 52 + '0' as int
    else if i == 62 then '+' as int
    else '/' as int
  }

  function Index(c: byte): Option<sextet> {
    if 'A' as int <= c <= 'Z' as int then Some(c - 'A' as int)
    else if 'a' as int <= c <= 'z' as int then Some(c - 'a' as int + 26)
    else if '0' as int <= c <= '9' as int then Some(c - '0' as int + 52)
    else if c == '+' as int then Some(62)
    else if c == '/' as int then Some(63)
    else None
  }

  function Encode(b: bytes): bytes {
    if |b| == 0 then []
    else if |b| == 1 then [Char(b[0] / 4), Char(b[0] % 4 * 16), PAD, PAD]
    else if |b| == 2 then [Char(b[0] / 4), Char(b[0] % 4 * 16 + b[1] / 16), Char(b[1] % 16 * 4), PAD]
    else
      [Char(b[0] / 4), Char(b[0] % 4 * 16 + b[1] / 16), Char(b[1] % 16 * 4 + b[2] / 64), Char(b[2] % 64)] + Encode(b[3..])
  }

  /** Quantum by quantum; padding only at the end; the unused bits of a padded quantum are not checked. */
  function DecodeQuanta(s: bytes): Option<bytes> {
    if s == [] then Some([])
    else if |s| < 4 then None
    else
      match (Index(s[0]), Index(s[1]))
      case (Some(i), Some(j)) =>
        if s[2] == PAD then
          if s[3] == PAD && |s| == 4 then Some([i * 4 + j / 16]) else None
        else
          (match Index(s[2])
           case None => None
           case Some(k) =>
             if s[3] == PAD then
               if |s| == 4 then Some([i * 4 + j / 16, j % 16 * 16 + k / 4]) else None
             else
               match (Index(s[3]), DecodeQuanta(s[4..]))
               case (Some(l), Some(more)) => Some([i * 4 + j / 16, j % 16 * 16 + k / 4, k % 4 * 64 + l] + more)
               case _ => None)
      case _ => None
  }

  /** Line breaks are skipped wherever they stand. */
  function WithoutLineBreaks(s: bytes): bytes {
    if s == [] then []
    else if s[0] == CR || s[0] == LF then WithoutLineBreaks(s[1..])
    else [s[0]] + WithoutLineBreaks(s[1..])
  }

  function Decode(s: bytes): Option<bytes> {
    DecodeQuanta(WithoutLineBreaks(s))
  }

  lemma CharIndex(i: sextet)
    ensures Index(Char(i)) == Some(i) && Char(i) != PAD
  {
  }

  /** The alphabet of table 1 of RFC 4648: where each range starts and ends, and that it has no gaps. */
  lemma StandardAlphabet(i: sextet)
    ensures Char(0) == 'A' as int && Char(25) == 'Z' as int && Char(26) == 'a' as int && Char(51) == 'z' as int
    ensures Char(52) == '0' as int && Char(61) == '9' as int && Char(62) == '+' as int && Char(63) == '/' as int
    ensures i !in {0, 26, 52, 62, 63} ==> Char(i) == Char(i - 1) + 1
  {
  }

  lemma DecodeOne(x: byte)
    ensures DecodeQuanta(Encode([x])) == Some([x])
  {
    hide Char, Index;
    CharIndex(x / 4);
    CharIndex(x % 4 * 16);
  }

  lemma DecodeTwo(x: byte, y: byte)
    ensures DecodeQuanta(Encode([x, y])) == Some([x, y])
  {
    hide Char, Index;
    CharIndex(x / 4);
    CharIndex(x % 4 * 16 + y / 16);
    CharIndex(y % 16 * 4);
  }

  /** Regrouping 24 bits by six and back by eight. */
  lemma Regrouped(x: byte, y: byte, z: byte)
    ensures var i: int, j: int, k: int, l: int := x / 4, x % 4 * 16 + y / 16, y % 16 * 4 + z / 64, z % 64;
            && i < 64 && j < 64 && k < 64
            && i * 4 + j / 16 == x && j % 16 * 16 + k / 4 == y && k % 4 * 64 + l == z
  {
    assert (x % 4 * 16 + y / 16) / 16 == x % 4 && (x % 4 * 16 + y / 16) % 16 == y / 16;
    assert (y % 16 * 4 + z / 64) / 4 == y % 16 && (y % 16 * 4 + z / 64) % 4 == z / 64;
  }

  lemma DecodeThree(x: byte, y: byte, z: byte, rest: bytes)
    requires DecodeQuanta(Encode(rest)) == Some(rest)
    ensures DecodeQuanta(Encode([x, y, z] + rest)) == Some([x, y, z] + rest)
  {
    hide Char, Index, Encode, DecodeQuanta;
    Regrouped(x, y, z);
    var b := [x, y, z] + rest;
    assert b[0] == x && b[1] == y && b[2] == z && b[3..] == rest;
    EncodeQuantum(b);
    CharIndex(x / 4);
    CharIndex(x % 4 * 16 + y / 16);
    CharIndex(y % 16 * 4 + z / 64);
    CharIndex(z % 64);
    var s := Encode(b);
    assert s[4..] == Encode(rest);
    DecodeQuantum(s, x / 4, x % 4 * 16 + y / 16, y % 16 * 4 + z / 64, z % 64);
  }

  /** Three bytes, high bits first, as four characters of six bits each. */
  lemma EncodeQuantum(b: bytes)
    requires |b| >= 3
    ensures Encode(b) == [Char(b[0] / 4), Char(b[0] % 4 * 16 + b[1] / 16), Char(b[1] % 16 * 4 + b[2] / 64), Char(b[2] % 64)] + Encode(b[3..])
  {
  }

  /** A full quantum of four alphabet characters gives three bytes. */
  lemma DecodeQuantum(s: bytes, i: sextet, j: sextet, k: sextet, l: sextet)
    requires |s| >= 4 && s[2] != PAD && s[3] != PAD
    requires Index(s[0]) == Some(i) && Index(s[1]) == Some(j) && Index(s[2]) == Some(k) && Index(s[3]) == Some(l)
    ensures DecodeQuanta(s) == match DecodeQuanta(s[4..])
                               case None => None
                               case Some(more) => Some([i * 4 + j / 16, j % 16 * 16 + k / 4, k % 4 * 64 + l] + more)
  {
    hide Index;
  }

  lemma {:induction false} DecodeQuantaInvertsEncode(b: bytes)
    ensures DecodeQuanta(Encode(b)) == Some(b)
  {
    hide Encode, DecodeQuanta;
    if |b| == 0 {
      DecodeNothing();
      assert b == [];
    } else if |b| == 1 {
      DecodeOne(b[0]);
      assert b == [b[0]];
    } else if |b| == 2 {
      DecodeTwo(b[0], b[1]);
      assert b == [b[0], b[1]];
    } else {
      DecodeQuantaInvertsEncode(b[3..]);
      DecodeThree(b[0], b[1], b[2], b[3..]);
      assert b == [b[0], b[1], b[2]] + b[3..];
    }
  }

  lemma DecodeNothing()
    ensures DecodeQuanta(Encode([])) == Some([])
  {
  }

  /** The alphabet and the padding: in particular no semicolon and no line break. */
  lemma {:induction false} EncodedAlphabet(b: bytes)
    ensures forall k | 0 <= k < |Encode(b)| :: Encode(b)[k] == PAD || Index(Encode(b)[k]).Some?
  {
    hide Char, Index;
    forall i: sextet ensures Index(Char(i)).Some? {
      CharIndex(i);
    }
    if |b| > 2 {
      EncodedAlphabet(b[3..]);
    }
  }

  lemma {:induction false} NothingToSkip(s: bytes)
    requires CR !in s && LF !in s
    ensures WithoutLineBreaks(s) == s
  {
    if s != [] {
      assert s[0] in s;
      NothingToSkip(s[1..]);
    }
  }

  /** Decoding inverts encoding, and encoded text never contains the field separator. */
  lemma RoundTrip(b: bytes)
    ensures Decode(Encode(b)) == Some(b)
    ensures ';' as int !in Encode(b)
  {
    EncodedAlphabet(b);
    NothingToSkip(Encode(b));
    DecodeQuantaInvertsEncode(b);
  }

  /** A line break anywhere changes nothing. */
  lemma LineBreaksAreSkipped(a: bytes, c: byte, b: bytes)
    requires c == CR || c == LF
    ensures Decode(a + [c] + b) == Decode(a + b)
  {
    hide DecodeQuanta, WithoutLineBreaks;
    SkippedPiecewise(a, [c] + b);
    OneBreak(c, b);
    SkippedPiecewise(a, b);
    assert a + [c] + b == a + ([c] + b);
  }

  lemma OneBreak(c: byte, b: bytes)
    requires c == CR || c == LF
    ensures WithoutLineBreaks([c] + b) == WithoutLineBreaks(b)
  {
    assert ([c] + b)[1..] == b;
  }

  lemma {:induction false} SkippedPiecewise(a: bytes, b: bytes)
    ensures WithoutLineBreaks(a + b) == WithoutLineBreaks(a) + WithoutLineBreaks(b)
  {
    if a == [] {
      assert a + b == b;
    } else {
      assert (a + b)[1..] == a[1..] + b;
      SkippedPiecewise(a[1..], b);
    }
  }

  lemma PadIsNoDigit()
    ensures Index(PAD).None?
  {
  }

  /** Padding closes the last quantum, one or two characters of it, and the text without line breaks is whole quanta. */
  lemma {:induction false} PaddingEndsTheText(s: bytes)
    requires DecodeQuanta(s).Some?
    ensures |s| % 4 == 0 && forall k | 0 <= k < |s| - 2 :: s[k] != PAD
  {
    hide Index;
    PadIsNoDigit();
    if |s| > 4 {
      PaddingEndsTheText(s[4..]);
      forall k | 0 <= k < |s| - 2 ensures s[k] != PAD {
        if k >= 4 {
          assert s[k] == s[4..][k - 4];
        }
      }
    }
  }

  /** The bits of the last character before the padding that no byte needs are not looked at. */
  lemma SpareBitsAreIgnored(i: sextet, j: sextet, k: sextet)
    ensures Decode([Char(i), Char(j), PAD, PAD]) == Some([i * 4 + j / 16])
    ensures Decode([Char(i), Char(j), Char(k), PAD]) == Some([i * 4 + j / 16, j % 16 * 16 + k / 4])
  {
    hide Char, Index;
    CharIndex(i);
    CharIndex(j);
    CharIndex(k);
    NoBreak(i);
    NoBreak(j);
    NoBreak(k);
    NothingToSkip([Char(i), Char(j), PAD, PAD]);
    NothingToSkip([Char(i), Char(j), Char(k), PAD]);
  }

  lemma NoBreak(i: sextet)
    ensures Char(i) != CR && Char(i) != LF
  {
  }

  /** Nothing but the alphabet, padding and line breaks is accepted. */
  lemma {:induction false} OtherCharactersAreRefused(s: bytes, k: nat)
    requires k < |s| && Index(s[k]).None? && s[k] != PAD && s[k] != CR && s[k] != LF
    ensures Decode(s).None?
  {
    var j := KeptAt(s, k);
    QuantaRefuse(WithoutLineBreaks(s), j);
  }

  lemma {:induction false} KeptAt(s: bytes, k: nat) returns (j: nat)
    requires k < |s| && s[k] != CR && s[k] != LF
    ensures j < |WithoutLineBreaks(s)| && WithoutLineBreaks(s)[j] == s[k]
  {
    if k == 0 {
      j := 0;
    } else {
      var i := KeptAt(s[1..], k - 1);
      j := if s[0] == CR || s[0] == LF then i else i + 1;
    }
  }

  lemma {:induction false} QuantaRefuse(s: bytes, k: nat)
    requires k < |s| && Index(s[k]).None? && s[k] != PAD
    ensures DecodeQuanta(s).None?
  {
    hide Index;
    if k >= 4 {
      QuantaRefuse(s[4..], k - 4);
    }
  }
}
