/** The protobuf codec of the WhatsApp handshake: varints, a flat field parser, three messages. */
module WhatsAppProto {
  import opened Bytes

  const TWO_64: nat := 0x1_0000_0000_0000_0000
  const TWO_61: nat := 0x2000_0000_0000_0000
  const MAX_FIELDS: nat := 64

  // ---- Base-128 varints ----

  function Varint(v: nat): (r: bytes)
    ensures |r| > 0
  {
    if v >= 0x80 then [v % 128 + 128] + Varint(v / 128) else [v]
  }

  method AppendVarint(b: bytes, v: nat) returns (r: bytes)
    requires v < TWO_64
    ensures r == b + Varint(v)
  {
    var x := v;
    r := b;
    while x >= 0x80
      invariant r + Varint(x) == b + Varint(v)
    {
      var low: byte := x % 128 + 128;
      assert r + Varint(x) == (r + [low]) + Varint(x / 128);
      r := r + [low];
      x := x / 128;
    }
    r := r + [x];
  }

  /** `binary.Uvarint` from byte `i` of a varint on: value and length, or nothing if cut off or over 64 bits. */
  function UvarintFrom(buf: bytes, i: nat): (r: Option<(nat, nat)>)
    ensures r.Some? ==> 1 <= r.value.1 <= |buf|
    decreases |buf|
  {
    if buf == [] || i >= 10 then None
    else if buf[0] < 0x80 then
      if i == 9 && buf[0] > 1 then None else Some((buf[0], 1))
    else
      match UvarintFrom(buf[1..], i + 1)
      case None => None
      case Some((v, n)) => Some((buf[0] - 128 + 128 * v, n + 1))
  }

  function Uvarint(buf: bytes): (r: Option<(nat, nat)>)
    ensures r.Some? ==> 1 <= r.value.1 <= |buf|
  {
    UvarintFrom(buf, 0)
  }

  /** One more than the largest value that bytes `i` to 9 of a varint can hold. */
  function Capacity(i: nat): (r: nat)
    ensures r >= 2
    decreases 10 - i
  {
    if i >= 9 then 2 else 128 * Capacity(i + 1)
  }

  lemma CapacityIs64Bits()
    ensures Capacity(0) == TWO_64
  {
    assert Capacity(8) == 0x100;
    assert Capacity(6) == 0x40_0000;
    assert Capacity(4) == 0x10_0000_0000;
    assert Capacity(2) == 0x4_0000_0000_0000;
  }

  lemma {:induction false} UvarintBounded(buf: bytes, i: nat)
    requires i <= 9
    ensures UvarintFrom(buf, i).Some? ==> UvarintFrom(buf, i).value.0 < Capacity(i)
    decreases |buf|
  {
    if buf != [] && buf[0] >= 0x80 && i < 9 {
      UvarintBounded(buf[1..], i + 1);
    } else if buf != [] && buf[0] >= 0x80 {
      assert UvarintFrom(buf[1..], 10).None?;
    }
  }

  lemma {:induction false} UvarintInvertsVarintFrom(v: nat, i: nat, rest: bytes)
    requires i <= 9 && v < Capacity(i)
    ensures UvarintFrom(Varint(v) + rest, i) == Some((v, |Varint(v)|))
    decreases v
  {
    var buf := Varint(v) + rest;
    if v >= 0x80 {
      assert buf[1..] == Varint(v / 128) + rest;
      UvarintInvertsVarintFrom(v / 128, i + 1, rest);
    }
  }

  /** Decoding inverts encoding on every uint64, whatever follows, and never yields more than 64 bits. */
  lemma VarintRoundTrip(v: nat, rest: bytes)
    ensures Uvarint(Varint(v) + rest) == Some((v, |Varint(v)|)) <==> v < TWO_64
  {
    CapacityIs64Bits();
    if v < TWO_64 {
      UvarintInvertsVarintFrom(v, 0, rest);
    } else {
      UvarintBounded(Varint(v) + rest, 0);
    }
  }

  // ---- Fields ----

  datatype Error =
    | TooManyFields | MalformedTag | MalformedVarint | MalformedLength | LengthExceedsBuffer
    | Truncated32 | Truncated64 | UnsupportedWireType | MissingField | WrongLength

  datatype Result<+T> = Ok(value: T) | Err(error: Error)

  // `data` is filled for wire type 2, `val` for wire type 0.
  datatype Field = Field(num: nat, wire: nat, data: bytes, val: nat)

  function BytesField(num: nat, data: bytes): bytes {
    Varint(num * 8 + 2) + Varint(|data|) + data
  }

  function VarintField(num: nat, v: nat): bytes {
    Varint(num * 8) + Varint(v)
  }

  /** A field whose tag named `num` and `wire`: what is recorded of it and its length after the tag. */
  function ParseBody(num: nat, wire: nat, body: bytes): (r: Result<(seq<Field>, nat)>)
    ensures r.Ok? ==> r.value.1 <= |body| && |r.value.0| <= 1
  {
    if wire == 0 then
      match Uvarint(body)
      case None => Err(MalformedVarint)
      case Some((v, m)) => Ok(([Field(num, 0, [], v)], m))
    else if wire == 2 then
      match Uvarint(body)
      case None => Err(MalformedLength)
      case Some((l, m)) =>
        if l > |body| - m then Err(LengthExceedsBuffer)
        else Ok(([Field(num, 2, body[m..m + l], 0)], m + l))
    else if wire == 5 then
      if |body| < 4 then Err(Truncated32) else Ok(([], 4))
    else if wire == 1 then
      if |body| < 8 then Err(Truncated64) else Ok(([], 8))
    else
      Err(UnsupportedWireType)
  }

  /** The field at the front of `b`: what is recorded of it (nothing for fixed widths) and its length. */
  function ParseOne(b: bytes): (r: Result<(seq<Field>, nat)>)
    ensures r.Ok? ==> 1 <= r.value.1 <= |b| && |r.value.0| <= 1
  {
    match Uvarint(b)
    case None => Err(MalformedTag)
    case Some((tag, n)) =>
      match ParseBody(tag / 8, tag % 8, b[n..])
      case Err(e) => Err(e)
      case Ok((fields, m)) => Ok((fields, n + m))
  }

  /** The fields of `b`, when `recorded` fields were already found before it. */
  function ParseFrom(b: bytes, recorded: nat): Result<seq<Field>>
    decreases |b|
  {
    if b == [] then Ok([])
    else if recorded >= MAX_FIELDS then Err(TooManyFields)
    else
      match ParseOne(b)
      case Err(e) => Err(e)
      case Ok((fields, n)) =>
        match ParseFrom(b[n..], recorded + |fields|)
        case Err(e) => Err(e)
        case Ok(more) => Ok(fields + more)
  }

  function Parse(b: bytes): Result<seq<Field>> {
    ParseFrom(b, 0)
  }

  ghost predicate ParsingOnCourse(b: bytes, i: nat, out: seq<Field>)
    requires i <= |b|
  {
    Parse(b) == match ParseFrom(b[i..], |out|)
                case Err(e) => Err(e)
                case Ok(more) => Ok(out + more)
  }

  lemma ParsingStarts(b: bytes)
    ensures ParsingOnCourse(b, 0, [])
  {
    assert b[0..] == b;
    match ParseFrom(b, 0) {
      case Err(_) =>
      case Ok(more) => assert [] + more == more;
    }
  }

  lemma ParsingContinues(b: bytes, i: nat, out: seq<Field>)
    requires i < |b| && ParsingOnCourse(b, i, out) && |out| < MAX_FIELDS
    ensures match ParseOne(b[i..])
            case Err(e) => Parse(b) == Err(e)
            case Ok((fields, n)) => ParsingOnCourse(b, i + n, out + fields)
  {
    hide ParseOne;
    match ParseOne(b[i..]) {
      case Err(_) =>
      case Ok((fields, n)) =>
        assert b[i..][n..] == b[i + n..];
        match ParseFrom(b[i + n..], |out + fields|) {
          case Err(_) =>
          case Ok(more) => assert out + (fields + more) == (out + fields) + more;
        }
    }
  }

  lemma ParsingStops(b: bytes, i: nat, out: seq<Field>)
    requires i <= |b| && ParsingOnCourse(b, i, out)
    ensures i == |b| ==> Parse(b) == Ok(out)
    ensures i < |b| && |out| >= MAX_FIELDS ==> Parse(b) == Err(TooManyFields)
  {
    assert out + [] == out;
  }

  /** Total: on every byte string it stops within bounds with the fields or the first error. */
  method PbParse(b: bytes) returns (r: Result<seq<Field>>)
    ensures r == Parse(b)
    ensures r.Ok? ==> |r.value| <= MAX_FIELDS
  {
    var out: seq<Field>, i := [], 0;
    ParsingStarts(b);
    hide ParseOne, ParsingOnCourse, Parse;
    while i < |b|
      invariant i <= |b| && |out| <= MAX_FIELDS && ParsingOnCourse(b, i, out)
      decreases |b| - i
    {
      ParsingStops(b, i, out);
      if |out| >= MAX_FIELDS {
        return Err(TooManyFields);
      }
      ParsingContinues(b, i, out);
      match ParseOne(b[i..]) {
        case Err(e) =>
          return Err(e);
        case Ok((fields, n)) =>
          out := out + fields;
          i := i + n;
      }
    }
    ParsingStops(b, |b|, out);
    r := Ok(out);
  }

  // ---- Encoded messages ----

  datatype Item =
    | VarintItem(num: nat, val: nat)
    | BytesItem(num: nat, data: bytes)
    | Fixed32(num: nat, raw: bytes)
    | Fixed64(num: nat, raw: bytes)
  {
    /** Fits the widths of the format: 61-bit field numbers, 64-bit values and lengths. */
    predicate WellFormed() {
      && num < TWO_61
      && match this
         case VarintItem(_, v) => v < TWO_64
         case BytesItem(_, data) => |data| < TWO_64
         case Fixed32(_, raw) => |raw| == 4
         case Fixed64(_, raw) => |raw| == 8
    }

    function Encode(): bytes {
      match this
      case VarintItem(num, v) => VarintField(num, v)
      case BytesItem(num, data) => BytesField(num, data)
      case Fixed32(num, raw) => Varint(num * 8 + 5) + raw
      case Fixed64(num, raw) => Varint(num * 8 + 1) + raw
    }

    function Recorded(): (r: seq<Field>)
      ensures |r| <= 1
    {
      match this
      case VarintItem(num, v) => [Field(num, 0, [], v)]
      case BytesItem(num, data) => [Field(num, 2, data, 0)]
      case _ => []
    }
  }

  function EncodeAll(items: seq<Item>): bytes {
    if items == [] then [] else items[0].Encode() + EncodeAll(items[1..])
  }

  function RecordedAll(items: seq<Item>): seq<Field> {
    if items == [] then [] else items[0].Recorded() + RecordedAll(items[1..])
  }

  ghost predicate AllWellFormed(items: seq<Item>) {
    forall k | 0 <= k < |items| :: items[k].WellFormed()
  }

  lemma ParseTag(num: nat, wire: nat, body: bytes)
    requires num < TWO_61 && wire < 8
    ensures var tag := Varint(num * 8 + wire);
            ParseOne(tag + body) == match ParseBody(num, wire, body)
                                    case Err(e) => Err(e)
                                    case Ok((fields, m)) => Ok((fields, |tag| + m))
  {
    hide Uvarint, ParseBody;
    var tag := Varint(num * 8 + wire);
    VarintRoundTrip(num * 8 + wire, body);
    assert (tag + body)[|tag|..] == body;
  }

  lemma ParseOneInvertsEncode(item: Item, rest: bytes)
    requires item.WellFormed()
    ensures ParseOne(item.Encode() + rest) == Ok((item.Recorded(), |item.Encode()|))
  {
    hide Varint, Uvarint, ParseOne;
    match item {
      case VarintItem(num, v) =>
        assert item.Encode() + rest == Varint(num * 8) + (Varint(v) + rest);
        ParseTag(num, 0, Varint(v) + rest);
        VarintRoundTrip(v, rest);
      case BytesItem(num, data) =>
        var size := Varint(|data|);
        assert item.Encode() + rest == Varint(num * 8 + 2) + (size + (data + rest));
        ParseTag(num, 2, size + (data + rest));
        VarintRoundTrip(|data|, data + rest);
        assert (size + (data + rest))[|size|..|size| + |data|] == data;
      case Fixed32(num, raw) =>
        assert item.Encode() + rest == Varint(num * 8 + 5) + (raw + rest);
        ParseTag(num, 5, raw + rest);
      case Fixed64(num, raw) =>
        assert item.Encode() + rest == Varint(num * 8 + 1) + (raw + rest);
        ParseTag(num, 1, raw + rest);
    }
  }

  /** No item starts once 64 fields are recorded. */
  predicate Fits(items: seq<Item>, recorded: nat)
    decreases |items|
  {
    items == [] || (recorded < MAX_FIELDS && Fits(items[1..], recorded + |items[0].Recorded()|))
  }

  /** Exactness: the parser returns precisely the recorded fields, and refuses only for their number. */
  lemma {:induction false} ParseInvertsEncode(items: seq<Item>, recorded: nat)
    requires AllWellFormed(items)
    ensures ParseFrom(EncodeAll(items), recorded)
            == if Fits(items, recorded) then Ok(RecordedAll(items)) else Err(TooManyFields)
    decreases |items|
  {
    hide Item.Encode, ParseOne;
    if items != [] {
      var first, rest := items[0].Encode(), EncodeAll(items[1..]);
      ParseOneInvertsEncode(items[0], rest);
      ParseOneInvertsEncode(items[0], []);
      assert first + [] == first;
      assert (first + rest)[|first|..] == rest;
      ParseInvertsEncode(items[1..], recorded + |items[0].Recorded()|);
    }
  }

  lemma {:induction false} FitsMeans(items: seq<Item>, recorded: nat)
    ensures Fits(items, recorded)
            <==> items == [] || recorded + |RecordedAll(items[..|items| - 1])| < MAX_FIELDS
    decreases |items|
  {
    if items != [] {
      var last := |items| - 1;
      FitsMeans(items[1..], recorded + |items[0].Recorded()|);
      if last > 0 {
        assert items[..last][0] == items[0] && items[..last][1..] == items[1..][..last - 1];
      }
    }
  }

  ghost predicate NoFixed(items: seq<Item>) {
    forall k | 0 <= k < |items| :: items[k].VarintItem? || items[k].BytesItem?
  }

  lemma {:induction false} EveryItemRecorded(items: seq<Item>)
    requires NoFixed(items)
    ensures |RecordedAll(items)| == |items|
  {
    if items != [] {
      EveryItemRecorded(items[1..]);
    }
  }

  /** n varint and length-delimited fields are read back exactly when n is at most 64. */
  lemma FieldLimit(items: seq<Item>)
    requires AllWellFormed(items) && NoFixed(items)
    ensures Parse(EncodeAll(items)) == Ok(RecordedAll(items)) <==> |items| <= 64
    ensures |items| > 64 ==> Parse(EncodeAll(items)) == Err(TooManyFields)
  {
    ParseInvertsEncode(items, 0);
    FitsMeans(items, 0);
    if items != [] {
      EveryItemRecorded(items[..|items| - 1]);
    }
  }

  function WithoutFixed(items: seq<Item>): seq<Item> {
    if items == [] then []
    else (if items[0].VarintItem? || items[0].BytesItem? then [items[0]] else []) + WithoutFixed(items[1..])
  }

  lemma {:induction false} WithoutFixedKeeps(items: seq<Item>, recorded: nat)
    requires AllWellFormed(items)
    ensures AllWellFormed(WithoutFixed(items)) && RecordedAll(WithoutFixed(items)) == RecordedAll(items)
    ensures Fits(items, recorded) ==> Fits(WithoutFixed(items), recorded)
    decreases |items|
  {
    if items != [] {
      WithoutFixedKeeps(items[1..], recorded + |items[0].Recorded()|);
      var rest := WithoutFixed(items[1..]);
      assert ([items[0]] + rest)[1..] == rest && [] + rest == rest;
      assert [] + RecordedAll(items[1..]) == RecordedAll(items[1..]);
    }
  }

  /** 32- and 64-bit fields change nothing wherever they stand, provided none starts after field 64. */
  lemma FixedFieldsAreInvisible(items: seq<Item>)
    requires AllWellFormed(items)
    ensures Parse(EncodeAll(items)) == Parse(EncodeAll(WithoutFixed(items)))
            <==> Fits(items, 0) || !Fits(WithoutFixed(items), 0)
  {
    WithoutFixedKeeps(items, 0);
    ParseInvertsEncode(items, 0);
    ParseInvertsEncode(WithoutFixed(items), 0);
  }

  /** The proviso is needed: after 64 fields even a skipped field is refused. */
  lemma TrailingFixedFieldIsRefused(fields: seq<Item>, fixed: Item)
    requires AllWellFormed(fields) && NoFixed(fields) && |fields| == MAX_FIELDS
    requires fixed.WellFormed() && (fixed.Fixed32? || fixed.Fixed64?)
    ensures Parse(EncodeAll(fields)) == Ok(RecordedAll(fields))
    ensures Parse(EncodeAll(fields + [fixed])) == Err(TooManyFields)
  {
    FieldLimit(fields);
    var items := fields + [fixed];
    ParseInvertsEncode(items, 0);
    FitsMeans(items, 0);
    assert items[..|items| - 1] == fields;
    EveryItemRecorded(fields);
  }

  // ---- What is refused ----

  /** The part of an encoded item after its tag. */
  function Body(item: Item): bytes {
    match item
    case VarintItem(_, v) => Varint(v)
    case BytesItem(_, data) => Varint(|data|) + data
    case Fixed32(_, raw) => raw
    case Fixed64(_, raw) => raw
  }

  function WireType(item: Item): nat {
    match item case VarintItem(_, _) => 0 case BytesItem(_, _) => 2 case Fixed32(_, _) => 5 case Fixed64(_, _) => 1
  }

  lemma TagAndBody(item: Item)
    ensures item.Encode() == Varint(item.num * 8 + WireType(item)) + Body(item)
  {
    hide Varint;
  }

  lemma {:induction false} CutVarint(v: nat, i: nat, n: nat)
    requires n < |Varint(v)|
    ensures UvarintFrom(Varint(v)[..n], i) == None
    decreases v
  {
    if v >= 0x80 && n > 0 {
      CutVarint(v / 128, i + 1, n - 1);
      assert Varint(v)[..n][1..] == Varint(v / 128)[..n - 1];
    }
  }

  lemma CutBody(item: Item, n: nat)
    requires item.WellFormed() && n < |Body(item)|
    ensures ParseBody(item.num, WireType(item), Body(item)[..n]).Err?
  {
    hide Varint, UvarintFrom;
    match item {
      case VarintItem(_, v) => CutVarint(v, 0, n);
      case BytesItem(_, data) =>
        var size := Varint(|data|);
        if n < |size| {
          CutVarint(|data|, 0, n);
          assert Body(item)[..n] == size[..n];
        } else {
          assert Body(item)[..n] == size + data[..n - |size|];
          VarintRoundTrip(|data|, data[..n - |size|]);
        }
      case _ =>
    }
  }

  lemma CutItem(item: Item, n: nat)
    requires item.WellFormed() && 0 < n < |item.Encode()|
    ensures ParseOne(item.Encode()[..n]).Err?
  {
    hide Varint, UvarintFrom, ParseBody, Body, Item.Encode;
    TagAndBody(item);
    var tag := Varint(item.num * 8 + WireType(item));
    var cut := item.Encode()[..n];
    if n < |tag| {
      CutVarint(item.num * 8 + WireType(item), 0, n);
      assert cut == tag[..n];
    } else {
      assert cut == tag + Body(item)[..n - |tag|];
      ParseTag(item.num, WireType(item), Body(item)[..n - |tag|]);
      CutBody(item, n - |tag|);
    }
  }

  /** A message that ends inside a field is refused, wherever in the tag, the length or the value that is. */
  lemma {:induction false} CutMessageIsRefused(items: seq<Item>, last: Item, n: nat, recorded: nat)
    requires AllWellFormed(items) && last.WellFormed() && 0 < n < |last.Encode()|
    ensures ParseFrom(EncodeAll(items) + last.Encode()[..n], recorded).Err?
    decreases |items|
  {
    hide Item.Encode, ParseOne;
    var cut := last.Encode()[..n];
    if items == [] {
      assert EncodeAll(items) + cut == cut;
      CutItem(last, n);
    } else {
      var first, rest := items[0].Encode(), EncodeAll(items[1..]) + cut;
      assert EncodeAll(items) + cut == first + rest;
      ParseOneInvertsEncode(items[0], rest);
      ParseOneInvertsEncode(items[0], []);
      assert first + [] == first && (first + rest)[|first|..] == rest;
      CutMessageIsRefused(items[1..], last, n, recorded + |items[0].Recorded()|);
    }
  }

  /** Groups and reserved wire types are refused, whatever follows the tag. */
  lemma OtherWireTypesAreRefused(num: nat, wire: nat, rest: bytes)
    requires num < TWO_61 && wire < 8
    ensures ParseOne(Varint(num * 8 + wire) + rest) == Err(UnsupportedWireType) <==> wire in {3, 4, 6, 7}
  {
    hide Varint, UvarintFrom;
    ParseTag(num, wire, rest);
  }

  // ---- The three handshake messages ----

  const HM_CLIENT_HELLO: nat := 2
  const HM_SERVER_HELLO: nat := 3
  const HM_CLIENT_FINISH: nat := 4
  const HELLO_EPHEMERAL: nat := 1
  const HELLO_STATIC: nat := 2
  const HELLO_PAYLOAD: nat := 3
  const FINISH_STATIC: nat := 1
  const FINISH_PAYLOAD: nat := 2

  /** The data of the first length-delimited field with this number. */
  function Nested(fields: seq<Field>, num: nat): Option<bytes> {
    if fields == [] then None
    else if fields[0].num == num && fields[0].wire == 2 then Some(fields[0].data)
    else Nested(fields[1..], num)
  }

  ghost predicate IsFirst(fields: seq<Field>, num: nat, k: int) {
    && 0 <= k < |fields| && fields[k].num == num && fields[k].wire == 2
    && forall j | 0 <= j < k :: !(fields[j].num == num && fields[j].wire == 2)
  }

  method NestedBytes(fields: seq<Field>, num: nat) returns (r: Option<bytes>)
    ensures r == Nested(fields, num)
    ensures match r
            case None => forall k | 0 <= k < |fields| :: !(fields[k].num == num && fields[k].wire == 2)
            case Some(data) => exists k :: IsFirst(fields, num, k) && fields[k].data == data
  {
    for i := 0 to |fields|
      invariant Nested(fields, num) == Nested(fields[i..], num)
      invariant forall k | 0 <= k < i :: !(fields[k].num == num && fields[k].wire == 2)
    {
      assert fields[i..][1..] == fields[i + 1..];
      if fields[i].num == num && fields[i].wire == 2 {
        assert IsFirst(fields, num, i);
        return Some(fields[i].data);
      }
    }
    r := None;
  }

  function MarshalClientHello(ephemeral: bytes): bytes {
    BytesField(HM_CLIENT_HELLO, BytesField(HELLO_EPHEMERAL, ephemeral))
  }

  function MarshalServerHello(ephemeral: bytes, encStatic: bytes, payload: bytes): bytes {
    BytesField(HM_SERVER_HELLO,
               BytesField(HELLO_EPHEMERAL, ephemeral) + BytesField(HELLO_STATIC, encStatic) + BytesField(HELLO_PAYLOAD, payload))
  }

  function MarshalClientFinish(encStatic: bytes, payload: bytes): bytes {
    BytesField(HM_CLIENT_FINISH, BytesField(FINISH_STATIC, encStatic) + BytesField(FINISH_PAYLOAD, payload))
  }

  /** The fields inside the one nested message a handshake message must carry. */
  function Unwrap(b: bytes, num: nat): Result<seq<Field>> {
    match Parse(b)
    case Err(e) => Err(e)
    case Ok(top) =>
      match Nested(top, num)
      case None => Err(MissingField)
      case Some(inner) => Parse(inner)
  }

  function UnmarshalClientHello(b: bytes): (r: Result<bytes>)
    ensures r.Ok? ==> |r.value| == 32
  {
    match Unwrap(b, HM_CLIENT_HELLO)
    case Err(e) => Err(e)
    case Ok(fields) =>
      match Nested(fields, HELLO_EPHEMERAL)
      case None => Err(WrongLength)
      case Some(eph) => if |eph| == 32 then Ok(eph) else Err(WrongLength)
  }

  // A missing payload reads as the empty payload here, as it does for the caller.
  function UnmarshalClientFinish(b: bytes): Result<(bytes, bytes)> {
    match Unwrap(b, HM_CLIENT_FINISH)
    case Err(e) => Err(e)
    case Ok(fields) =>
      match Nested(fields, FINISH_STATIC)
      case None => Err(MissingField)
      case Some(encStatic) =>
        Ok((encStatic, match Nested(fields, FINISH_PAYLOAD) case None => [] case Some(p) => p))
  }

  datatype ServerHello = ServerHello(ephemeral: bytes, encStatic: bytes, payload: bytes)

  function UnmarshalServerHello(b: bytes): (r: Result<ServerHello>)
    ensures r.Ok? ==> |r.value.ephemeral| == 32
  {
    match Unwrap(b, HM_SERVER_HELLO)
    case Err(e) => Err(e)
    case Ok(fields) =>
      match (Nested(fields, HELLO_EPHEMERAL), Nested(fields, HELLO_STATIC), Nested(fields, HELLO_PAYLOAD))
      case (Some(eph), Some(st), Some(pay)) => if |eph| == 32 then Ok(ServerHello(eph, st, pay)) else Err(MissingField)
      case _ => Err(MissingField)
  }

  /** Parsing one or several length-delimited fields gives them back. */
  lemma ParseBytesFields(items: seq<Item>)
    requires AllWellFormed(items) && NoFixed(items) && |items| <= 3
    ensures Parse(EncodeAll(items)) == Ok(RecordedAll(items))
  {
    FieldLimit(items);
  }

  lemma VarintIsShort(v: nat)
    ensures |Varint(v)| <= 1 + v
  {
  }

  /** Lengths of what Go can hold in memory are far below the limits of the format. */
  const MAX_SIZE: nat := 0x1000_0000_0000_0000

  lemma BytesFieldSize(num: nat, data: bytes)
    requires num < 16
    ensures |BytesField(num, data)| <= 2 * |data| + 2
  {
    VarintIsShort(|data|);
    assert |Varint(num * 8 + 2)| <= 2;
  }

  lemma ClientHelloRoundTrip(ephemeral: bytes)
    requires |ephemeral| < MAX_SIZE
    ensures MarshalClientHello(ephemeral) == BytesField(2, BytesField(1, ephemeral))
    ensures UnmarshalClientHello(MarshalClientHello(ephemeral))
            == if |ephemeral| == 32 then Ok(ephemeral) else Err(WrongLength)
  {
    hide Varint, Parse;
    var inner := [BytesItem(HELLO_EPHEMERAL, ephemeral)];
    assert EncodeAll(inner) == BytesField(HELLO_EPHEMERAL, ephemeral);
    BytesFieldSize(HELLO_EPHEMERAL, ephemeral);
    var outer := [BytesItem(HM_CLIENT_HELLO, EncodeAll(inner))];
    assert EncodeAll(outer) == MarshalClientHello(ephemeral);
    ParseBytesFields(inner);
    ParseBytesFields(outer);
  }

  lemma ClientFinishRoundTrip(encStatic: bytes, payload: bytes)
    requires |encStatic| < MAX_SIZE && |payload| < MAX_SIZE
    ensures MarshalClientFinish(encStatic, payload) == BytesField(4, BytesField(1, encStatic) + BytesField(2, payload))
    ensures UnmarshalClientFinish(MarshalClientFinish(encStatic, payload)) == Ok((encStatic, payload))
  {
    hide Varint, Parse;
    var a, b := BytesItem(FINISH_STATIC, encStatic), BytesItem(FINISH_PAYLOAD, payload);
    assert EncodeAll([b]) == b.Encode() && [a, b][1..] == [b];
    assert EncodeAll([a, b]) == a.Encode() + b.Encode();
    BytesFieldSize(FINISH_STATIC, encStatic);
    BytesFieldSize(FINISH_PAYLOAD, payload);
    var outer := [BytesItem(HM_CLIENT_FINISH, EncodeAll([a, b]))];
    assert EncodeAll(outer) == MarshalClientFinish(encStatic, payload);
    ParseBytesFields([a, b]);
    ParseBytesFields(outer);
    assert RecordedAll([a, b]) == a.Recorded() + RecordedAll([b]);
    var first, second := Field(FINISH_STATIC, 2, encStatic, 0), Field(FINISH_PAYLOAD, 2, payload, 0);
    assert RecordedAll([a, b]) == [first, second];
    assert [first, second][1..] == [second];
    assert Nested([second], FINISH_PAYLOAD) == Some(payload);
  }

  /** A ClientFinish without a payload reads as one with the empty payload; without a static key it is refused. */
  lemma FinishPayloadIsOptional(encStatic: bytes)
    requires |encStatic| < MAX_SIZE
    ensures UnmarshalClientFinish(BytesField(4, BytesField(1, encStatic))) == Ok((encStatic, []))
    ensures UnmarshalClientFinish(BytesField(4, BytesField(2, encStatic))) == Err(MissingField)
  {
    hide Varint, Parse;
    BytesFieldSize(1, encStatic);
    BytesFieldSize(2, encStatic);
    var a, b := [BytesItem(1, encStatic)], [BytesItem(2, encStatic)];
    var c, d := [BytesItem(4, EncodeAll(a))], [BytesItem(4, EncodeAll(b))];
    assert EncodeAll(a) == BytesField(1, encStatic) && EncodeAll(b) == BytesField(2, encStatic);
    assert EncodeAll(c) == BytesField(4, EncodeAll(a)) && EncodeAll(d) == BytesField(4, EncodeAll(b));
    ParseBytesFields(a);
    ParseBytesFields(b);
    ParseBytesFields(c);
    ParseBytesFields(d);
    assert RecordedAll(a) == [Field(1, 2, encStatic, 0)] && RecordedAll(b) == [Field(2, 2, encStatic, 0)];
    assert Nested(RecordedAll(c), HM_CLIENT_FINISH) == Some(EncodeAll(a)) && Nested(RecordedAll(d), HM_CLIENT_FINISH) == Some(EncodeAll(b));
    assert Nested(RecordedAll(a), FINISH_PAYLOAD) == Nested(RecordedAll(b), FINISH_STATIC) == None;
  }

  lemma ServerHelloRoundTrip(ephemeral: bytes, encStatic: bytes, payload: bytes)
    requires |ephemeral| < MAX_SIZE && |encStatic| < MAX_SIZE && |payload| < MAX_SIZE
    ensures MarshalServerHello(ephemeral, encStatic, payload)
            == BytesField(3, BytesField(1, ephemeral) + BytesField(2, encStatic) + BytesField(3, payload))
    ensures UnmarshalServerHello(MarshalServerHello(ephemeral, encStatic, payload))
            == if |ephemeral| == 32 then Ok(ServerHello(ephemeral, encStatic, payload)) else Err(MissingField)
  {
    hide Varint, Parse;
    var a, b, c := BytesItem(HELLO_EPHEMERAL, ephemeral), BytesItem(HELLO_STATIC, encStatic), BytesItem(HELLO_PAYLOAD, payload);
    assert EncodeAll([c]) == c.Encode() && [b, c][1..] == [c] && [a, b, c][1..] == [b, c];
    assert EncodeAll([a, b, c]) == a.Encode() + (b.Encode() + c.Encode());
    BytesFieldSize(HELLO_EPHEMERAL, ephemeral);
    BytesFieldSize(HELLO_STATIC, encStatic);
    BytesFieldSize(HELLO_PAYLOAD, payload);
    assert EncodeAll([a, b, c]) == a.Encode() + b.Encode() + c.Encode();
    var outer := [BytesItem(HM_SERVER_HELLO, EncodeAll([a, b, c]))];
    assert EncodeAll(outer) == MarshalServerHello(ephemeral, encStatic, payload);
    ParseBytesFields([a, b, c]);
    ParseBytesFields(outer);
    assert RecordedAll([b, c]) == b.Recorded() + RecordedAll([c]);
    assert RecordedAll([a, b, c]) == a.Recorded() + RecordedAll([b, c]);
    var first, second, third := Field(HELLO_EPHEMERAL, 2, ephemeral, 0), Field(HELLO_STATIC, 2, encStatic, 0),
                                Field(HELLO_PAYLOAD, 2, payload, 0);
    assert RecordedAll([a, b, c]) == [first, second, third];
    assert [first, second, third][1..] == [second, third] && [second, third][1..] == [third];
    assert Nested([second, third], HELLO_STATIC) == Some(encStatic);
    assert Nested([second, third], HELLO_PAYLOAD) == Nested([third], HELLO_PAYLOAD) == Some(payload);
  }
}
