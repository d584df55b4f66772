/** The certificate chain a real WhatsApp server sends in its ServerHello payload. */
module WhatsAppCert {
  import opened Bytes
  import opened WhatsAppProto

  const TWO_32: nat := 0x1_0000_0000
  const TWO_62: nat := 0x4000_0000_0000_0000
  const TWO_63: nat := 0x8000_0000_0000_0000
  const SIGNATURE_SIZE: nat := 64
  const ISSUER_SERIAL: nat := 0

  const CERT_LEAF: nat := 1
  const CERT_INTERMEDIATE: nat := 2
  const CERT_DETAILS: nat := 1
  const CERT_SIGNATURE: nat := 2
  const DETAILS_SERIAL: nat := 1
  const DETAILS_ISSUER_SERIAL: nat := 2
  const DETAILS_KEY: nat := 3
  const DETAILS_NOT_BEFORE: nat := 4
  const DETAILS_NOT_AFTER: nat := 5

  /** XEdDSA verification under a 32-byte key, and the clock in nanoseconds since the Unix epoch. */
  datatype Context = Context(verifies: (Key, bytes, bytes) -> bool, now: int)

  datatype Details = Details(serial: nat, issuerSerial: nat, key: bytes, notBefore: nat, notAfter: nat)

  const NO_DETAILS := Details(0, 0, [], 0, 0)

  /** The switch goes by field number alone: a field of the wrong wire type sets the zero value. */
  function ApplyField(d: Details, f: Field): Details {
    if f.num == DETAILS_SERIAL then d.(serial := f.val % TWO_32)
    else if f.num == DETAILS_ISSUER_SERIAL then d.(issuerSerial := f.val % TWO_32)
    else if f.num == DETAILS_KEY then d.(key := f.data)
    else if f.num == DETAILS_NOT_BEFORE then d.(notBefore := f.val)
    else if f.num == DETAILS_NOT_AFTER then d.(notAfter := f.val)
    else d
  }

  /** The last field of a number wins. */
  function ApplyFields(fields: seq<Field>): Details {
    if fields == [] then NO_DETAILS else ApplyField(ApplyFields(fields[..|fields| - 1]), fields[|fields| - 1])
  }

  function DetailsOf(b: bytes): Result<Details> {
    match Parse(b)
    case Err(e) => Err(e)
    case Ok(fields) => Ok(ApplyFields(fields))
  }

  method ParseDetails(b: bytes) returns (r: Result<Details>)
    ensures r == DetailsOf(b)
  {
    var parsed := PbParse(b);
    if parsed.Err? {
      return Err(parsed.error);
    }
    var fields, d := parsed.value, NO_DETAILS;
    for i := 0 to |fields|
      invariant d == ApplyFields(fields[..i])
    {
      assert fields[..i + 1][..i] == fields[..i];
      d := ApplyField(d, fields[i]);
    }
    assert fields[..|fields|] == fields;
    r := Ok(d);
  }

  /** Index `k` is the last with field number `num`; there is none when it is -1. */
  ghost predicate IsLast(fields: seq<Field>, num: nat, k: int) {
    && -1 <= k < |fields| && (k >= 0 ==> fields[k].num == num)
    && forall j | k < j < |fields| :: fields[j].num != num
  }

  /** Of several fields with one number the last one counts, and a number that does not occur leaves the zero value. */
  lemma {:induction false} LastFieldWins(fields: seq<Field>, k1: int, k2: int, k3: int, k4: int, k5: int)
    requires IsLast(fields, 1, k1) && IsLast(fields, 2, k2) && IsLast(fields, 3, k3) && IsLast(fields, 4, k4) && IsLast(fields, 5, k5)
    ensures ApplyFields(fields)
            == Details(if k1 < 0 then 0 else fields[k1].val % 0x1_0000_0000, if k2 < 0 then 0 else fields[k2].val % 0x1_0000_0000,
                       if k3 < 0 then [] else fields[k3].data,
                       if k4 < 0 then 0 else fields[k4].val, if k5 < 0 then 0 else fields[k5].val)
    decreases |fields|
  {
    if fields != [] {
      var n := |fields| - 1;
      var init := fields[..n];
      var j1, j2, j3 := LastBefore(fields, 1, k1), LastBefore(fields, 2, k2), LastBefore(fields, 3, k3);
      var j4, j5 := LastBefore(fields, 4, k4), LastBefore(fields, 5, k5);
      LastFieldWins(init, j1, j2, j3, j4, j5);
    }
  }

  ghost function LastBefore(fields: seq<Field>, num: nat, k: int): (j: int)
    requires fields != [] && IsLast(fields, num, k)
    ensures IsLast(fields[..|fields| - 1], num, j) && (k < |fields| - 1 ==> j == k)
  {
    if k < |fields| - 1 then k else LastExistsAt(fields[..|fields| - 1], num)
  }

  ghost function LastExistsAt(fields: seq<Field>, num: nat): (k: int)
    ensures IsLast(fields, num, k)
    decreases |fields|
  {
    if fields == [] then -1
    else if fields[|fields| - 1].num == num then |fields| - 1
    else LastExistsAt(fields[..|fields| - 1], num)
  }

  /** A time with the top bit set is read as a negative one: a certificate that ends then has ended before the epoch. */
  lemma HugeTimesAreNegative(c: Context, d: Details)
    requires InWindow(c, d) && TWO_63 <= d.notAfter < TWO_64
    ensures c.now < 0
  {
  }

  /** Details bytes (the signed message) and signature of one certificate. */
  function ParseCert(b: bytes): Result<(Option<bytes>, Option<bytes>)> {
    match Parse(b)
    case Err(e) => Err(e)
    case Ok(fields) => Ok((Nested(fields, CERT_DETAILS), Nested(fields, CERT_SIGNATURE)))
  }

  function ToInt64(x: nat): int {
    if x < TWO_63 then x else x - TWO_64
  }

  predicate InWindow(c: Context, d: Details) {
    ToInt64(d.notBefore) * 1_000_000_000 <= c.now <= ToInt64(d.notAfter) * 1_000_000_000
  }

  datatype Verdict =
    | Accepted | Malformed | MissingCertificate | MissingParts
    | IntermediateSignatureLength | LeafSignatureLength
    | IntermediateSignature | IntermediateIssuer | IntermediateKeyLength
    | LeafSignature | IntermediateWindow | LeafIssuer | KeyMismatch | LeafWindow

  /** The checks on two certificates whose four parts are present, in the order they are made. */
  function CheckChain(c: Context, root: Key, serverStatic: bytes, leafDetails: bytes, leafSig: bytes,
                      intDetails: bytes, intSig: bytes): Verdict
  {
    if |intSig| != SIGNATURE_SIZE then IntermediateSignatureLength
    else if |leafSig| != SIGNATURE_SIZE then LeafSignatureLength
    else if !c.verifies(root, intDetails, intSig) then IntermediateSignature
    else
      match DetailsOf(intDetails)
      case Err(_) => Malformed
      case Ok(inter) =>
        if inter.issuerSerial != ISSUER_SERIAL then IntermediateIssuer
        else if |inter.key| != 32 then IntermediateKeyLength
        else if !c.verifies(inter.key, leafDetails, leafSig) then LeafSignature
        else if !InWindow(c, inter) then IntermediateWindow
        else
          match DetailsOf(leafDetails)
          case Err(_) => Malformed
          case Ok(leaf) =>
            if leaf.issuerSerial != inter.serial then LeafIssuer
            else if leaf.key != serverStatic then KeyMismatch
            else if !InWindow(c, leaf) then LeafWindow
            else Accepted
  }

  function VerifyServerCert(c: Context, root: Key, cert: bytes, serverStatic: bytes): Verdict {
    match Parse(cert)
    case Err(_) => Malformed
    case Ok(top) =>
      match (Nested(top, CERT_LEAF), Nested(top, CERT_INTERMEDIATE))
      case (Some(leafBytes), Some(intBytes)) =>
        (match (ParseCert(leafBytes), ParseCert(intBytes))
         case (Ok((Some(ld), Some(ls))), Ok((Some(id), Some(sig)))) =>
           CheckChain(c, root, serverStatic, ld, ls, id, sig)
         case (Ok(_), Ok(_)) => MissingParts
         case _ => Malformed)
      case _ => MissingCertificate
  }

  // ---- The field encoders ----

  function EncodeDetails(d: Details): bytes {
    VarintField(DETAILS_SERIAL, d.serial) + VarintField(DETAILS_ISSUER_SERIAL, d.issuerSerial)
    + BytesField(DETAILS_KEY, d.key)
    + VarintField(DETAILS_NOT_BEFORE, d.notBefore) + VarintField(DETAILS_NOT_AFTER, d.notAfter)
  }

  function EncodeCert(details: bytes, signature: bytes): bytes {
    BytesField(CERT_DETAILS, details) + BytesField(CERT_SIGNATURE, signature)
  }

  function EncodeChain(leaf: bytes, intermediate: bytes): bytes {
    BytesField(CERT_LEAF, leaf) + BytesField(CERT_INTERMEDIATE, intermediate)
  }

  lemma {:induction false} EncodeSnoc(items: seq<Item>, last: Item)
    ensures EncodeAll(items + [last]) == EncodeAll(items) + last.Encode()
    ensures RecordedAll(items + [last]) == RecordedAll(items) + last.Recorded()
  {
    hide Item.Encode, Item.Recorded;
    if items == [] {
      assert [] + [last] == [last] && [last][1..] == [];
    } else {
      assert (items + [last])[1..] == items[1..] + [last];
      EncodeSnoc(items[1..], last);
    }
  }

  lemma EncodeOne(a: Item)
    ensures EncodeAll([a]) == a.Encode() && RecordedAll([a]) == a.Recorded()
  {
    assert [a][1..] == [];
    assert a.Encode() + [] == a.Encode() && a.Recorded() + [] == a.Recorded();
  }

  lemma EncodeFive(a: Item, b: Item, c: Item, d: Item, e: Item)
    ensures EncodeAll([a, b, c, d, e]) == a.Encode() + b.Encode() + c.Encode() + d.Encode() + e.Encode()
    ensures RecordedAll([a, b, c, d, e]) == a.Recorded() + b.Recorded() + c.Recorded() + d.Recorded() + e.Recorded()
  {
    hide *;
    EncodeOne(a);
    EncodeSnoc([a], b);
    EncodeSnoc([a, b], c);
    EncodeSnoc([a, b, c], d);
    EncodeSnoc([a, b, c, d], e);
    assert [a] + [b] == [a, b] && [a, b] + [c] == [a, b, c];
    assert [a, b, c] + [d] == [a, b, c, d] && [a, b, c, d] + [e] == [a, b, c, d, e];
  }

  /** The fields of encoded details, applied in order, give the details back. */
  lemma ApplyFive(d: Details)
    requires d.serial < TWO_32 && d.issuerSerial < TWO_32
    ensures ApplyFields([Field(DETAILS_SERIAL, 0, [], d.serial), Field(DETAILS_ISSUER_SERIAL, 0, [], d.issuerSerial),
                         Field(DETAILS_KEY, 2, d.key, 0),
                         Field(DETAILS_NOT_BEFORE, 0, [], d.notBefore), Field(DETAILS_NOT_AFTER, 0, [], d.notAfter)]) == d
  {
    var f1, f2 := Field(DETAILS_SERIAL, 0, [], d.serial), Field(DETAILS_ISSUER_SERIAL, 0, [], d.issuerSerial);
    var f3 := Field(DETAILS_KEY, 2, d.key, 0);
    var f4, f5 := Field(DETAILS_NOT_BEFORE, 0, [], d.notBefore), Field(DETAILS_NOT_AFTER, 0, [], d.notAfter);
    assert [f1, f2, f3, f4, f5][..4] == [f1, f2, f3, f4] && [f1, f2, f3, f4][..3] == [f1, f2, f3];
    assert [f1, f2, f3][..2] == [f1, f2] && [f1, f2][..1] == [f1] && [f1][..0] == [];
    assert ApplyFields([f1]) == NO_DETAILS.(serial := d.serial);
    assert ApplyFields([f1, f2]) == ApplyFields([f1]).(issuerSerial := d.issuerSerial);
    assert ApplyFields([f1, f2, f3]) == ApplyFields([f1, f2]).(key := d.key);
    assert ApplyFields([f1, f2, f3, f4]) == ApplyFields([f1, f2, f3]).(notBefore := d.notBefore);
  }

  /** Serials below 2^32 and times below 2^64 come back unchanged. */
  lemma DetailsRoundTrip(d: Details)
    requires d.serial < TWO_32 && d.issuerSerial < TWO_32 && |d.key| < MAX_SIZE
    requires d.notBefore < TWO_64 && d.notAfter < TWO_64
    ensures DetailsOf(EncodeDetails(d)) == Ok(d)
  {
    hide Varint, Parse, ApplyFields, EncodeAll, RecordedAll;
    var a, b, k := VarintItem(DETAILS_SERIAL, d.serial), VarintItem(DETAILS_ISSUER_SERIAL, d.issuerSerial), BytesItem(DETAILS_KEY, d.key);
    var s, t := VarintItem(DETAILS_NOT_BEFORE, d.notBefore), VarintItem(DETAILS_NOT_AFTER, d.notAfter);
    EncodeFive(a, b, k, s, t);
    FieldLimit([a, b, k, s, t]);
    ApplyFive(d);
    assert RecordedAll([a, b, k, s, t])
        == [a.Recorded()[0], b.Recorded()[0], k.Recorded()[0], s.Recorded()[0], t.Recorded()[0]];
  }

  /** Two length-delimited fields numbered 1 and 2, as certificates and chains are. */
  lemma PairRoundTrip(x: bytes, y: bytes)
    requires |x| < TWO_64 && |y| < TWO_64
    ensures Parse(BytesField(1, x) + BytesField(2, y)).Ok?
    ensures var fields := Parse(BytesField(1, x) + BytesField(2, y)).value;
            Nested(fields, 1) == Some(x) && Nested(fields, 2) == Some(y)
  {
    hide Varint, Parse;
    var a, b := BytesItem(1, x), BytesItem(2, y);
    EncodeOne(a);
    EncodeSnoc([a], b);
    assert [a] + [b] == [a, b];
    FieldLimit([a, b]);
    var f, g := Field(1, 2, x, 0), Field(2, 2, y, 0);
    assert RecordedAll([a, b]) == [f, g] && [f, g][1..] == [g];
    assert Nested([g], 2) == Some(y);
  }

  ghost predicate Encodable(d: Details) {
    d.serial < TWO_32 && d.issuerSerial < TWO_32 && |d.key| < TWO_32 && d.notBefore < TWO_62 && d.notAfter < TWO_62
  }

  lemma DetailsSize(d: Details)
    requires Encodable(d)
    ensures |EncodeDetails(d)| < 2 * |d.key| + 200
  {
    CapacityIs64Bits();
    VarintLength(d.serial, 0);
    VarintLength(d.issuerSerial, 0);
    VarintLength(d.notBefore, 0);
    VarintLength(d.notAfter, 0);
    BytesFieldSize(DETAILS_KEY, d.key);
  }

  lemma {:induction false} VarintLength(v: nat, i: nat)
    requires i <= 9 && v < Capacity(i)
    ensures |Varint(v)| <= 10 - i
    decreases v
  {
    if v >= 0x80 {
      VarintLength(v / 128, i + 1);
    }
  }

  /**
   * A chain made by the encoders is accepted exactly when both signatures are 64 bytes and hold, the
   * intermediate names the root as its issuer and has a key of 32 bytes, the leaf names the intermediate,
   * the leaf's key is the key of the handshake, and both windows contain now.
   */
  lemma ChainAcceptedIff(c: Context, root: Key, leaf: Details, leafSig: bytes, inter: Details, intSig: bytes, serverStatic: bytes)
    requires Encodable(leaf) && Encodable(inter)
    requires |leafSig| < TWO_32 && |intSig| < TWO_32
    ensures VerifyServerCert(c, root, EncodeChain(EncodeCert(EncodeDetails(leaf), leafSig), EncodeCert(EncodeDetails(inter), intSig)),
                             serverStatic).Accepted?
            <==>
            && |leafSig| == |intSig| == 64
            && c.verifies(root, EncodeDetails(inter), intSig)
            && |inter.key| == 32 && c.verifies(inter.key, EncodeDetails(leaf), leafSig)
            && inter.issuerSerial == 0
            && leaf.issuerSerial == inter.serial
            && leaf.key == serverStatic
            && inter.notBefore * 1_000_000_000 <= c.now <= inter.notAfter * 1_000_000_000
            && leaf.notBefore * 1_000_000_000 <= c.now <= leaf.notAfter * 1_000_000_000
  {
    hide Varint, Parse, EncodeDetails;
    var ld, id := EncodeDetails(leaf), EncodeDetails(inter);
    DetailsSize(leaf);
    DetailsSize(inter);
    DetailsRoundTrip(leaf);
    DetailsRoundTrip(inter);
    PairRoundTrip(ld, leafSig);
    PairRoundTrip(id, intSig);
    BytesFieldSize(CERT_DETAILS, ld);
    BytesFieldSize(CERT_DETAILS, id);
    BytesFieldSize(CERT_SIGNATURE, leafSig);
    BytesFieldSize(CERT_SIGNATURE, intSig);
    PairRoundTrip(EncodeCert(ld, leafSig), EncodeCert(id, intSig));
  }

  /** `chain` holds, in its first field `num`, a certificate with these details and this signature. */
  predicate Holds(chain: bytes, num: nat, details: bytes, signature: bytes) {
    && Parse(chain).Ok? && Nested(Parse(chain).value, num).Some?
    && var fields := Parse(Nested(Parse(chain).value, num).value);
       && fields.Ok? && Nested(fields.value, 1) == Some(details) && Nested(fields.value, 2) == Some(signature)
  }

  /** The root vouches for the intermediate, the intermediate for the leaf, and the leaf for the handshake key, now. */
  predicate Vouches(c: Context, root: Key, serverStatic: bytes, leafDetails: bytes, leafSig: bytes, intDetails: bytes, intSig: bytes) {
    && |intSig| == |leafSig| == 64
    && DetailsOf(intDetails).Ok? && DetailsOf(leafDetails).Ok?
    && var inter, leaf := DetailsOf(intDetails).value, DetailsOf(leafDetails).value;
       && c.verifies(root, intDetails, intSig) && inter.issuerSerial == 0
       && |inter.key| == 32 && c.verifies(inter.key, leafDetails, leafSig)
       && leaf.key == serverStatic && leaf.issuerSerial == inter.serial
       && InWindow(c, inter) && InWindow(c, leaf)
  }

  /**
   * Whatever bytes arrive, acceptance means exactly a signed path from the root to the handshake key, made of
   * the details and signatures that stand in the chain.
   */
  lemma AcceptedIff(c: Context, root: Key, cert: bytes, serverStatic: bytes)
    ensures VerifyServerCert(c, root, cert, serverStatic).Accepted?
            <==> exists leafDetails: bytes, leafSig: bytes, intDetails: bytes, intSig: bytes ::
                   && Holds(cert, 1, leafDetails, leafSig) && Holds(cert, 2, intDetails, intSig)
                   && Vouches(c, root, serverStatic, leafDetails, leafSig, intDetails, intSig)
  {
    hide Parse, DetailsOf, InWindow;
    if VerifyServerCert(c, root, cert, serverStatic).Accepted? {
      var top := Parse(cert).value;
      var (ld, ls) := ParseCert(Nested(top, CERT_LEAF).value).value;
      var (id, sig) := ParseCert(Nested(top, CERT_INTERMEDIATE).value).value;
      assert Holds(cert, 1, ld.value, ls.value) && Holds(cert, 2, id.value, sig.value);
      assert Vouches(c, root, serverStatic, ld.value, ls.value, id.value, sig.value);
    }
  }
}
