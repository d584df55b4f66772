/**
 * What a chained prologue says about the history behind it. The application prologue stands in front of
 * the recorded frames without a length of its own, so two sides with different application prologues may
 * tell different histories in the same bytes. This module says for which pairs that happens.
 */
module PrologueHistory {
  import opened Bytes
  import opened LengthPrefix
  import opened NoiseSocketFrames

  // ---- Length-prefixed fields ----

  function EncodeFields(fs: seq<bytes>): bytes {
    if fs == [] then [] else Frame(fs[0]) + EncodeFields(fs[1..])
  }

  ghost predicate FieldsFit(fs: seq<bytes>) {
    forall k | 0 <= k < |fs| :: |fs[k]| <= MAX_LENGTH
  }

  /** The complete fields at the front of `d`, and the bytes left over. */
  function SplitFields(d: bytes): (r: (seq<bytes>, bytes))
    decreases |d|
  {
    match Unframe(d)
    case None => ([], d)
    case Some((field, rest)) =>
      var (more, left) := SplitFields(rest);
      ([field] + more, left)
  }

  lemma {:induction false} SplitFieldsJoins(d: bytes)
    ensures var (fs, left) := SplitFields(d);
            d == EncodeFields(fs) + left && FieldsFit(fs) && Unframe(left).None?
    decreases |d|
  {
    match Unframe(d) {
      case None =>
      case Some((field, rest)) =>
        SplitFieldsJoins(rest);
        UnframedWasFramed(d);
        var (more, left) := SplitFields(rest);
        var fs := [field] + more;
        assert fs[1..] == more;
        assert Frame(field) + (EncodeFields(more) + left) == Frame(field) + EncodeFields(more) + left;
    }
  }

  lemma UnframedWasFramed(d: bytes)
    requires Unframe(d).Some?
    ensures var (field, rest) := Unframe(d).value;
            d == Frame(field) + rest && |field| <= MAX_LENGTH
  {
    hide Uint16, FromUint16;
    var n := FromUint16(d[..2]);
    Uint16Inverse(d[..2]);
    assert d == d[..2] + d[2..2 + n] + d[2 + n..];
  }

  lemma {:induction false} SplitFieldsInverts(fs: seq<bytes>)
    requires FieldsFit(fs)
    ensures SplitFields(EncodeFields(fs)) == (fs, [])
  {
    hide Frame, Unframe;
    if fs == [] {
      NothingToUnframe();
    } else {
      UnframeInvertsFrame(fs[0], EncodeFields(fs[1..]));
      SplitFieldsInverts(fs[1..]);
      assert [fs[0]] + fs[1..] == fs;
    }
  }

  lemma NothingToUnframe()
    ensures Unframe([]) == None
  {
  }

  lemma {:induction false} EncodeFieldsAppends(a: seq<bytes>, b: seq<bytes>)
    ensures EncodeFields(a + b) == EncodeFields(a) + EncodeFields(b)
  {
    hide Frame;
    if a == [] {
      assert a + b == b;
    } else {
      assert (a + b)[1..] == a[1..] + b;
      EncodeFieldsAppends(a[1..], b);
    }
  }

  lemma FitAppends(a: seq<bytes>, b: seq<bytes>)
    requires FieldsFit(a) && FieldsFit(b)
    ensures FieldsFit(a + b)
  {
  }

  /** Two fields a frame. */
  function Flatten(frames: seq<HandshakeFrame>): (fs: seq<bytes>)
    ensures |fs| == 2 * |frames|
  {
    if frames == [] then [] else [frames[0].neg, frames[0].msg] + Flatten(frames[1..])
  }

  function Pair(fs: seq<bytes>): (frames: seq<HandshakeFrame>)
    requires |fs| % 2 == 0
    ensures |fs| == 2 * |frames|
  {
    if fs == [] then [] else [HandshakeFrame(fs[0], fs[1])] + Pair(fs[2..])
  }

  lemma {:induction false} TranscriptIsFields(frames: seq<HandshakeFrame>)
    ensures EncodeAll(frames) == EncodeFields(Flatten(frames))
    ensures AllFit(frames) ==> FieldsFit(Flatten(frames))
  {
    if frames != [] {
      TranscriptIsFields(frames[1..]);
      var f, rest := frames[0], Flatten(frames[1..]);
      assert AllFit(frames) ==> AllFit(frames[1..]);
      EncodeFieldsAppends([f.neg, f.msg], rest);
      EncodeTwo(f.neg, f.msg);
    }
  }

  lemma EncodeTwo(x: bytes, y: bytes)
    ensures EncodeFields([x]) == Frame(x)
    ensures EncodeFields([x, y]) == Frame(x) + Frame(y)
  {
    hide Frame;
    assert [x, y][1..] == [y] && [y][1..] == [] && [x][1..] == [];
    assert EncodeFields([y]) == Frame(y) + [];
    assert Frame(y) + [] == Frame(y) && Frame(x) + [] == Frame(x);
  }

  lemma {:induction false} PairsAreFields(fs: seq<bytes>)
    requires |fs| % 2 == 0 && FieldsFit(fs)
    ensures EncodeAll(Pair(fs)) == EncodeFields(fs) && AllFit(Pair(fs))
    decreases |fs|
  {
    if fs != [] {
      PairsAreFields(fs[2..]);
      var f := HandshakeFrame(fs[0], fs[1]);
      assert fs == [fs[0], fs[1]] + fs[2..];
      EncodeFieldsAppends([fs[0], fs[1]], fs[2..]);
      EncodeTwo(fs[0], fs[1]);
      assert Pair(fs)[1..] == Pair(fs[2..]);
    }
  }

  // ---- Which application prologues leave the history open ----

  /** What the longer of two application prologues has beyond the shorter, when it starts with it. */
  function Surplus(a: bytes, b: bytes): bytes {
    if a <= b then b[|a|..] else if b <= a then a[|b|..] else []
  }

  /**
   * One application prologue can stand for the other and some history: it starts with the other, and what
   * follows is not made of complete fields, or is a positive multiple of four of them.
   */
  predicate Imitable(a: bytes, b: bytes) {
    var (fs, left) := SplitFields(Surplus(a, b));
    Surplus(a, b) != [] && (left != [] || |fs| % 4 == 0)
  }

  /** The same bytes from two histories of equal parity, as any two ends that chose their roles alike have. */
  ghost predicate SameBytes(a: bytes, dead: seq<HandshakeFrame>, b: bytes, dead': seq<HandshakeFrame>) {
    && AllFit(dead) && AllFit(dead') && |dead| % 2 == |dead'| % 2
    && a + EncodeAll(dead) == b + EncodeAll(dead')
  }

  /** Without imitation equal bytes come from equal application prologues and equal histories. */
  lemma SameBytesSameHistory(a: bytes, dead: seq<HandshakeFrame>, b: bytes, dead': seq<HandshakeFrame>)
    requires SameBytes(a, dead, b, dead') && !Imitable(a, b)
    ensures a == b && dead == dead'
  {
    if |a| <= |b| {
      ShorterFirst(a, dead, b, dead');
    } else {
      ShorterFirst(b, dead', a, dead);
    }
  }

  lemma SharedFront(a: bytes, x: bytes, b: bytes, y: bytes)
    requires a + x == b + y && |a| <= |b|
    ensures a <= b && x == b[|a|..] + y
  {
    assert a == (a + x)[..|a|] && (b + y)[..|a|] == b[..|a|];
    assert x == (a + x)[|a|..] && (b + y)[|a|..] == b[|a|..] + y;
  }

  /** What an application prologue has more than one it starts with, when it does not imitate it. */
  lemma NotImitated(a: bytes, d: bytes) returns (fs: seq<bytes>)
    requires !Imitable(a, a + d) && d != []
    ensures d == EncodeFields(fs) && FieldsFit(fs) && |fs| % 4 != 0
  {
    hide SplitFields, EncodeFields;
    assert a <= a + d && Surplus(a, a + d) == d;
    SplitFieldsJoins(d);
    fs := SplitFields(d).0;
  }

  /** Twice the difference of two numbers of equal parity. */
  lemma ParityAddsUp(n: int, m: int)
    requires n % 2 == m % 2
    ensures (2 * n - 2 * m) % 4 == 0
  {
  }

  lemma ShorterFirst(a: bytes, dead: seq<HandshakeFrame>, b: bytes, dead': seq<HandshakeFrame>)
    requires SameBytes(a, dead, b, dead') && !Imitable(a, b) && !Imitable(b, a) && |a| <= |b|
    ensures a == b && dead == dead'
  {
    hide EncodeAll, EncodeFields, AllFit, Imitable, FieldsFit;
    SharedFront(a, EncodeAll(dead), b, EncodeAll(dead'));
    var d := b[|a|..];
    assert b == a + d;
    if d == [] {
      TranscriptIsInjective(dead, dead');
    } else {
      var fs := NotImitated(a, d);
      FieldsAddUp(fs, dead, dead');
      ParityAddsUp(|dead|, |dead'|);
    }
  }

  lemma FieldsAddUp(fs: seq<bytes>, dead: seq<HandshakeFrame>, dead': seq<HandshakeFrame>)
    requires FieldsFit(fs) && AllFit(dead) && AllFit(dead') && EncodeAll(dead) == EncodeFields(fs) + EncodeAll(dead')
    ensures |fs| == 2 * |dead| - 2 * |dead'|
  {
    hide EncodeAll, SplitFields, EncodeFields, Flatten, AllFit, FieldsFit;
    TranscriptIsFields(dead);
    TranscriptIsFields(dead');
    EncodeFieldsAppends(fs, Flatten(dead'));
    FitAppends(fs, Flatten(dead'));
    SplitFieldsInverts(Flatten(dead));
    SplitFieldsInverts(fs + Flatten(dead'));
    assert Flatten(dead) == fs + Flatten(dead');
  }

  // ---- How an imitation is made ----

  function Zeros(n: nat): (z: bytes)
    ensures |z| == n
  {
    seq(n, _ => 0)
  }

  function Empties(t: nat): (fs: seq<bytes>)
    ensures |fs| == t && FieldsFit(fs)
  {
    seq(t, _ => [])
  }

  lemma {:induction false} EmptiesSize(t: nat)
    ensures |EncodeFields(Empties(t))| == 2 * t
  {
    if t > 0 {
      EmptiesSize(t - 1);
      assert Empties(t)[1..] == Empties(t - 1);
    }
  }

  lemma EncodeCons(x: bytes, fs: seq<bytes>)
    ensures EncodeFields([x] + fs) == Frame(x) + EncodeFields(fs)
    ensures FieldsFit(fs) && |x| <= MAX_LENGTH ==> FieldsFit([x] + fs)
  {
    assert ([x] + fs)[1..] == fs;
  }

  /** A lone zero byte can be read on as fields, any number of them more, modulo four, than were written after it. */
  lemma CompleteZero(e: nat) returns (ys: seq<bytes>, xs: seq<bytes>)
    requires e < 4
    ensures FieldsFit(ys) && FieldsFit(xs) && (|xs| - |ys|) % 4 == e
    ensures [0] + EncodeFields(ys) == EncodeFields(xs)
  {
    hide EncodeFields, Frame;
    var t := if e == 0 then 4 else e;
    var ts := [Zeros(256 - 2 * t)] + Empties(t - 1);
    EncodeCons(Zeros(256 - 2 * t), Empties(t - 1));
    EmptiesSize(t - 1);
    var y := EncodeFields(ts);
    FrameIs(Zeros(256 - 2 * t));
    FrameIs(y);
    FrameIs([0]);
    ys, xs := [y], [[0]] + ts;
    EncodeTwo(y, []);
    EncodeCons([0], ts);
    assert [0] + (Uint16(256) + y) == Uint16(1) + [0] + y;
  }

  lemma FrameIs(m: bytes)
    ensures Frame(m) == Uint16(|m|) + m
  {
  }

  /** Fields can be written so that, `r` bytes in, the rest reads as fields again, off by any number modulo four. */
  lemma {:induction false} Realign(r: nat, e: nat) returns (u: bytes, ys: seq<bytes>, ws: seq<bytes>)
    requires 1 <= r <= MAX_LENGTH && e < 4
    ensures FieldsFit(ys) && FieldsFit(ws) && |u| == r && (|ws| - |ys|) % 4 == e
    ensures EncodeFields(ys) == u + EncodeFields(ws)
    decreases r
  {
    hide EncodeFields, Frame;
    FrameIs([]);
    if r == 1 {
      var zs;
      zs, ws := CompleteZero((e + 1) % 4);
      u, ys := [0], [[]] + zs;
      EncodeCons([], zs);
      assert Uint16(0) + [] + EncodeFields(zs) == [0] + ([0] + EncodeFields(zs));
    } else if r > MAX_LENGTH - 6 {
      var v, zs;
      v, zs, ws := Realign(r - 2, (e + 1) % 4);
      u, ys := Uint16(0) + v, [[]] + zs;
      EncodeCons([], zs);
      assert Uint16(0) + [] + (v + EncodeFields(ws)) == u + EncodeFields(ws);
    } else {
      var t := (e + 1) % 4;
      ws := Empties(t);
      EmptiesSize(t);
      var y := Zeros(r - 2) + EncodeFields(ws);
      FrameIs(y);
      u, ys := Uint16(|y|) + Zeros(r - 2), [y];
      EncodeTwo(y, []);
      assert Uint16(|y|) + (Zeros(r - 2) + EncodeFields(ws)) == u + EncodeFields(ws);
    }
  }

  /** An incomplete field can be read on as fields, again off by any number modulo four. */
  lemma {:induction false} Complete(p: bytes, e: nat) returns (ys: seq<bytes>, xs: seq<bytes>)
    requires p != [] && Unframe(p).None? && e < 4
    ensures FieldsFit(ys) && FieldsFit(xs) && (|xs| - |ys|) % 4 == e
    ensures p + EncodeFields(ys) == EncodeFields(xs)
    decreases |p| == 1
  {
    hide EncodeFields, Frame;
    if p == [0] {
      ys, xs := CompleteZero(e);
    } else if |p| == 1 {
      var q, zs := p + Uint16(0), [];
      assert q[..2] == [p[0], 0];
      zs, xs := Complete(q, (e + 1) % 4);
      ys := [[]] + zs;
      EncodeCons([], zs);
      FrameIs([]);
      assert p + (Uint16(0) + [] + EncodeFields(zs)) == q + EncodeFields(zs);
    } else {
      var n := FromUint16(p[..2]);
      Uint16Inverse(p[..2]);
      var u, ws;
      u, ys, ws := Realign(n - (|p| - 2), (e + 3) % 4);
      var x := p[2..] + u;
      xs := [x] + ws;
      EncodeCons(x, ws);
      FrameIs(x);
      assert p == p[..2] + p[2..];
      assert p[..2] + p[2..] + (u + EncodeFields(ws)) == p[..2] + x + EncodeFields(ws);
    }
  }

  /** What is left over after `k` fields, made up to fields that restore the count modulo four. */
  lemma FillUp(left: bytes, k: nat) returns (ys: seq<bytes>, xs: seq<bytes>)
    requires Unframe(left).None? && (left != [] || k % 4 == 0)
    ensures FieldsFit(ys) && FieldsFit(xs) && (k + |xs| - |ys|) % 4 == 0
    ensures left + EncodeFields(ys) == EncodeFields(xs)
  {
    hide EncodeFields, FieldsFit;
    if left != [] {
      ys, xs := Complete(left, (4 - k % 4) % 4);
      Restored(k, |xs| - |ys|);
    } else {
      NoFields();
      ys, xs := [], [];
    }
  }

  lemma Restored(k: nat, x: int)
    requires x % 4 == (4 - k % 4) % 4
    ensures (k + x) % 4 == 0
  {
  }

  /** Bytes that are not complete fields, or a multiple of four of them, can be made up to fields in step with others. */
  lemma FieldsImitate(d: bytes) returns (long: seq<bytes>, short: seq<bytes>)
    requires SplitFields(d).1 != [] || |SplitFields(d).0| % 4 == 0
    ensures FieldsFit(long) && FieldsFit(short) && |long| % 2 == |short| % 2 == 0 && |long| % 4 == |short| % 4
    ensures d + EncodeFields(short) == EncodeFields(long)
  {
    hide *;
    var (fs, left) := SplitFields(d);
    SplitFieldsJoins(d);
    var ys, xs := FillUp(left, |fs|);
    var q := Parity(|fs|, |xs|, |ys|);
    var pad := Empties(q);
    long, short := fs + xs + pad, ys + pad;
    assert |long| == |fs| + |xs| + q && |short| == |ys| + q;
    FitAppends(fs, xs);
    FitAppends(fs + xs, pad);
    FitAppends(ys, pad);
    EncodeFieldsAppends(fs + xs, pad);
    EncodeFieldsAppends(fs, xs);
    EncodeFieldsAppends(ys, pad);
    Reassociate(EncodeFields(fs), left, EncodeFields(ys), EncodeFields(pad));
  }

  /** So the condition is exact: where it fails there are two histories in the same bytes. */
  lemma ImitationExists(a: bytes, b: bytes) returns (dead: seq<HandshakeFrame>, dead': seq<HandshakeFrame>)
    requires Imitable(a, b) && a <= b
    ensures SameBytes(a, dead, b, dead') && dead != dead'
  {
    hide EncodeFields, SplitFields, EncodeAll, AllFit, Pair;
    var d := b[|a|..];
    var long, short := FieldsImitate(d);
    dead, dead' := Pair(long), Pair(short);
    PairsAreFields(long);
    PairsAreFields(short);
    assert b == a + d;
    assert a + (d + EncodeAll(dead')) == b + EncodeAll(dead');
    assert |EncodeAll(dead)| == |d| + |EncodeAll(dead')|;
  }

  lemma NoFields()
    ensures EncodeFields([]) == [] && FieldsFit([])
  {
  }

  lemma Parity(k: nat, x: nat, y: nat) returns (q: nat)
    requires (k + x - y) % 4 == 0
    ensures (y + q) % 2 == 0 && (k + x + q) % 2 == 0 && (k + x + q) % 4 == (y + q) % 4
  {
    q := y % 2;
  }

  lemma Reassociate(a: bytes, b: bytes, c: bytes, d: bytes)
    ensures a + (b + c) + d == (a + b) + (c + d)
  {
  }

  /**
   * When the history is bound: two sides of equal parity and equal bytes have the same application prologue
   * and the same history, for all histories, if and only if neither application prologue can imitate the other.
   */
  lemma HistoryIsBoundIff(a: bytes, b: bytes)
    ensures (forall dead: seq<HandshakeFrame>, dead': seq<HandshakeFrame> | SameBytes(a, dead, b, dead') :: a == b && dead == dead')
            <==> !Imitable(a, b)
  {
    hide SameBytes;
    if Imitable(a, b) {
      if a <= b {
        var dead, dead' := ImitationExists(a, b);
        assert SameBytes(a, dead, b, dead');
      } else {
        ImitableIsSymmetric(a, b);
        var dead', dead := ImitationExists(b, a);
        SameBytesIsSymmetric(b, dead', a, dead);
        assert SameBytes(a, dead, b, dead');
      }
    } else {
      forall dead: seq<HandshakeFrame>, dead': seq<HandshakeFrame> | SameBytes(a, dead, b, dead') ensures a == b && dead == dead' {
        SameBytesSameHistory(a, dead, b, dead');
      }
    }
  }

  lemma ImitableIsSymmetric(a: bytes, b: bytes)
    ensures Imitable(a, b) == Imitable(b, a)
    ensures Imitable(a, b) && !(a <= b) ==> b <= a
  {
    hide SplitFields;
    if a <= b && b <= a {
      assert a == b;
    }
    assert a <= b || b <= a || Surplus(a, b) == [];
  }

  lemma SameBytesIsSymmetric(a: bytes, dead: seq<HandshakeFrame>, b: bytes, dead': seq<HandshakeFrame>)
    requires SameBytes(a, dead, b, dead')
    ensures SameBytes(b, dead', a, dead)
  {
  }

  /** Equal lengths, in particular equal application prologues, leave no room. */
  lemma EqualLengthsAreNotImitable(a: bytes, b: bytes)
    requires |a| == |b|
    ensures !Imitable(a, b)
  {
  }

  /**
   * A prologue binds everything: equal prologues come from the same opening negotiation_data, and, between
   * equal application prologues or between ends of equal parity of which neither can imitate the other,
   * from the same application prologue and the same dead frames.
   */
  lemma PrologueIsInjective(neg: bytes, app: bytes, dead: seq<HandshakeFrame>, neg': bytes, app': bytes, dead': seq<HandshakeFrame>)
    requires |neg| <= MAX_LENGTH && |neg'| <= MAX_LENGTH && AllFit(dead) && AllFit(dead')
    requires PrologueWith(neg, app, dead) == PrologueWith(neg', app', dead')
    ensures neg == neg'
    ensures app == app' || (|dead| % 2 == |dead'| % 2 && !Imitable(app, app')) ==> app == app' && dead == dead'
  {
    hide EncodeAll, PrologueWith, Imitable;
    PrologueBindsOpening(neg, app, dead, neg', app', dead');
    if app == app' {
      SplitEqual(app, EncodeAll(dead), app', EncodeAll(dead'));
      TranscriptIsInjective(dead, dead');
    } else if |dead| % 2 == |dead'| % 2 && !Imitable(app, app') {
      SameBytesSameHistory(app, dead, app', dead');
    }
  }
}
