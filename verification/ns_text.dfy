/** The noisecat v1 negotiation text: semicolon-separated `key=value` fields. */
module NegotiationText {
  import opened Bytes
  import Base64

  const SEMICOLON: byte := ';' as int
  const EQUALS: byte := '=' as int

  datatype Action = Proposal | Reject | Retry | Switch

  /** The value of the action field; a proposal has none. */
  function ActionName(a: Action): bytes {
    match a
    case Proposal => []
    case Reject => Ascii("reject")
    case Retry => Ascii("retry")
    case Switch => Ascii("switch")
  }

  function ActionNamed(v: bytes): (r: Option<Action>)
    ensures r.Some? ==> r.value != Proposal && v == ActionName(r.value)
  {
    if v == Ascii("reject") then Some(Reject)
    else if v == Ascii("retry") then Some(Retry)
    else if v == Ascii("switch") then Some(Switch)
    else None
  }

  datatype NegMsg = NegMsg(action: Action, proto: bytes, reason: bytes, data: bytes)

  datatype Error =
    | Empty | MalformedField | UnsupportedVersion | UnknownAction | InvalidData
    | MissingVersion | ProposalMissingProto | ActionMissingProto

  datatype Result<+T> = Ok(value: T) | Err(error: Error)

  // ---- Encoders ----

  function EncodeProposal(proto: bytes, appData: bytes): bytes {
    Ascii("ns=1;proto=") + proto + (if appData == [] then [] else Ascii(";data=") + Base64.Encode(appData))
  }

  function EncodeResponse(action: Action, proto: bytes, reason: bytes): bytes {
    Ascii("ns=1;action=") + ActionName(action)
    + (if proto == [] then [] else Ascii(";proto=") + proto)
    + (if reason == [] then [] else Ascii(";reason=") + reason)
  }

  // ---- Parser ----

  /** `strings.Split(s, ";")`: one piece more than there are semicolons. */
  function Split(s: bytes): (r: seq<bytes>)
    ensures r != []
  {
    if s == [] then [[]]
    else
      var rest := Split(s[1..]);
      if s[0] == SEMICOLON then [[]] + rest else [[s[0]] + rest[0]] + rest[1..]
  }

  /** `strings.Cut(s, "=")`: before and after the first equals sign. */
  function Cut(s: bytes): Option<(bytes, bytes)> {
    if s == [] then None
    else if s[0] == EQUALS then Some(([], s[1..]))
    else
      match Cut(s[1..])
      case None => None
      case Some((k, v)) => Some(([s[0]] + k, v))
  }

  // The message so far, and whether a version field has been seen.
  datatype Parsing = Parsing(m: NegMsg, seenVersion: bool)

  const START := Parsing(NegMsg(Proposal, [], [], []), false)

  function ApplyField(p: Parsing, field: bytes): Result<Parsing> {
    if field == [] then Ok(p) else
    match Cut(field)
    case None => Err(MalformedField)
    case Some((k, v)) =>
      if k == Ascii("ns") then
        if v != Ascii("1") then Err(UnsupportedVersion) else Ok(p.(seenVersion := true))
      else if k == Ascii("action") then
        match ActionNamed(v)
        case None => Err(UnknownAction)
        case Some(a) => Ok(p.(m := p.m.(action := a)))
      else if k == Ascii("proto") then Ok(p.(m := p.m.(proto := v)))
      else if k == Ascii("reason") then Ok(p.(m := p.m.(reason := v)))
      else if k == Ascii("data") then
        match Base64.Decode(v)
        case None => Err(InvalidData)
        case Some(d) => Ok(p.(m := p.m.(data := d)))
      else Ok(p)
  }

  function ApplyFields(p: Parsing, fields: seq<bytes>): Result<Parsing>
    decreases |fields|
  {
    if fields == [] then Ok(p) else
    match ApplyField(p, fields[0])
    case Err(e) => Err(e)
    case Ok(next) => ApplyFields(next, fields[1..])
  }

  function Finish(p: Parsing): Result<NegMsg> {
    if !p.seenVersion then Err(MissingVersion)
    else if p.m.action == Proposal && p.m.proto == [] then Err(ProposalMissingProto)
    else if (p.m.action == Retry || p.m.action == Switch) && p.m.proto == [] then Err(ActionMissingProto)
    else Ok(p.m)
  }

  function Parse(raw: bytes): Result<NegMsg> {
    if raw == [] then Err(Empty) else
    match ApplyFields(START, Split(raw))
    case Err(e) => Err(e)
    case Ok(p) => Finish(p)
  }

  method ParseNeg(raw: bytes) returns (r: Result<NegMsg>)
    ensures r == Parse(raw)
    ensures r.Ok? ==> r.value.action != Reject ==> r.value.proto != []
  {
    if |raw| == 0 {
      return Err(Empty);
    }
    var p, fields := START, Split(raw);
    for i := 0 to |fields|
      invariant ApplyFields(START, fields) == ApplyFields(p, fields[i..])
    {
      assert fields[i..][0] == fields[i] && fields[i..][1..] == fields[i + 1..];
      var next := ApplyField(p, fields[i]);
      if next.Err? {
        return Err(next.error);
      }
      p := next.value;
    }
    r := Finish(p);
  }

  // ---- What a payload means ----

  predicate Has(field: bytes, key: bytes) {
    field != [] && Cut(field).Some? && Cut(field).value.0 == key
  }

  /** An empty piece, or a key and a value: version 1 only, a known action, data in base64, anything under other keys. */
  predicate Acceptable(field: bytes) {
    field == [] ||
    (Cut(field).Some?
     && var (k, v) := Cut(field).value;
        && (k == Ascii("ns") ==> v == Ascii("1"))
        && (k == Ascii("action") ==> v == Ascii("reject") || v == Ascii("retry") || v == Ascii("switch"))
        && (k == Ascii("data") ==> Base64.Decode(v).Some?))
  }

  /** Index `k` is the last piece with this key; there is none when it is -1. */
  ghost predicate IsLast(fields: seq<bytes>, key: bytes, k: int) {
    && -1 <= k < |fields| && (k >= 0 ==> Has(fields[k], key))
    && forall j | k < j < |fields| :: !Has(fields[j], key)
  }

  function ValueAt(fields: seq<bytes>, k: int): bytes
    requires 0 <= k < |fields| && Cut(fields[k]).Some?
  {
    Cut(fields[k]).value.1
  }

  /** The indices of the last piece with each key. */
  datatype Last = Last(ns: int, action: int, proto: int, reason: int, data: int)

  ghost predicate AreLast(fields: seq<bytes>, l: Last) {
    && IsLast(fields, Ascii("ns"), l.ns) && IsLast(fields, Ascii("action"), l.action) && IsLast(fields, Ascii("proto"), l.proto)
    && IsLast(fields, Ascii("reason"), l.reason) && IsLast(fields, Ascii("data"), l.data)
  }

  /** The message those pieces spell; every payload has such last pieces (LastPieces). */
  ghost function Spelled(fields: seq<bytes>, l: Last): NegMsg
    requires AreLast(fields, l)
  {
    NegMsg(if l.action < 0 then Proposal
           else if ValueAt(fields, l.action) == Ascii("reject") then Reject
           else if ValueAt(fields, l.action) == Ascii("retry") then Retry
           else Switch,
           if l.proto < 0 then [] else ValueAt(fields, l.proto),
           if l.reason < 0 then [] else ValueAt(fields, l.reason),
           if l.data < 0 || Base64.Decode(ValueAt(fields, l.data)).None? then [] else Base64.Decode(ValueAt(fields, l.data)).value)
  }

  ghost predicate AllAcceptable(fields: seq<bytes>) {
    forall k | 0 <= k < |fields| :: Acceptable(fields[k])
  }

  lemma {:induction false} ApplySnoc(p: Parsing, fields: seq<bytes>, last: bytes)
    ensures ApplyFields(p, fields + [last])
            == match ApplyFields(p, fields) case Err(e) => Err(e) case Ok(q) => ApplyField(q, last)
    decreases |fields|
  {
    hide ApplyField;
    if fields == [] {
      assert ([] + [last])[1..] == [];
    } else {
      assert (fields + [last])[1..] == fields[1..] + [last];
      match ApplyField(p, fields[0]) {
        case Err(_) =>
        case Ok(next) => ApplySnoc(next, fields[1..], last);
      }
    }
  }

  ghost function LastAt(fields: seq<bytes>, key: bytes): (k: int)
    ensures IsLast(fields, key, k)
    decreases |fields|
  {
    if fields == [] then -1
    else if Has(fields[|fields| - 1], key) then |fields| - 1
    else LastAt(fields[..|fields| - 1], key)
  }

  lemma KeysDiffer()
    ensures Ascii("ns") != Ascii("action") && Ascii("ns") != Ascii("proto") && Ascii("ns") != Ascii("reason") && Ascii("ns") != Ascii("data")
    ensures Ascii("action") != Ascii("proto") && Ascii("action") != Ascii("reason") && Ascii("action") != Ascii("data")
    ensures Ascii("proto") != Ascii("reason") && Ascii("proto") != Ascii("data") && Ascii("reason") != Ascii("data")
  {
    assert Ascii("action")[0] == 'a' as int && Ascii("reason")[0] == 'r' as int;
    assert |Ascii("proto")| == 5 && |Ascii("data")| == 4;
  }

  lemma WordsDiffer()
    ensures Ascii("reject") != Ascii("retry") && Ascii("reject") != Ascii("switch") && Ascii("retry") != Ascii("switch")
  {
    assert Ascii("reject")[0] == 'r' as int && Ascii("switch")[0] == 's' as int && |Ascii("retry")| == 5;
  }

  /** One more piece. */
  lemma OneFieldMeans(p: Parsing, field: bytes)
    ensures ApplyField(p, field).Ok? <==> Acceptable(field)
    ensures Acceptable(field) && Has(field, Ascii("data")) ==> Base64.Decode(Cut(field).value.1).Some?
    ensures Acceptable(field) ==>
              var q := ApplyField(p, field).value;
              && q.seenVersion == (p.seenVersion || Has(field, Ascii("ns")))
              && q.m.proto == (if Has(field, Ascii("proto")) then Cut(field).value.1 else p.m.proto)
              && q.m.reason == (if Has(field, Ascii("reason")) then Cut(field).value.1 else p.m.reason)
              && q.m.data == (if Has(field, Ascii("data")) then Base64.Decode(Cut(field).value.1).value else p.m.data)
              && q.m.action == (if !Has(field, Ascii("action")) then p.m.action
                                else if Cut(field).value.1 == Ascii("reject") then Reject
                                else if Cut(field).value.1 == Ascii("retry") then Retry
                                else Switch)
  {
    hide Ascii, Cut, Base64.Decode;
    KeysDiffer();
    WordsDiffer();
  }

  /** The last piece with a key, after one more piece. */
  lemma LastSnoc(init: seq<bytes>, last: bytes, key: bytes, k: int, j: int)
    requires IsLast(init + [last], key, k) && IsLast(init, key, j)
    ensures k == if Has(last, key) then |init| else j
  {
    hide Has;
    var fields := init + [last];
    assert fields[|init|] == last && forall i | 0 <= i < |init| :: fields[i] == init[i];
    if j >= 0 {
      assert Has(fields[j], key);
    }
  }

  lemma ValueSnoc(init: seq<bytes>, last: bytes, l: Last, before: Last)
    requires AreLast(init + [last], l) && AreLast(init, before)
    ensures l.ns >= 0 <==> before.ns >= 0 || Has(last, Ascii("ns"))
    ensures Spelled(init + [last], l).proto == if Has(last, Ascii("proto")) then Cut(last).value.1 else Spelled(init, before).proto
    ensures Spelled(init + [last], l).reason == if Has(last, Ascii("reason")) then Cut(last).value.1 else Spelled(init, before).reason
    ensures Spelled(init + [last], l).data == if !Has(last, Ascii("data")) then Spelled(init, before).data
                                              else if Base64.Decode(Cut(last).value.1).None? then []
                                              else Base64.Decode(Cut(last).value.1).value
    ensures Spelled(init + [last], l).action == if !Has(last, Ascii("action")) then Spelled(init, before).action
                                                else if Cut(last).value.1 == Ascii("reject") then Reject
                                                else if Cut(last).value.1 == Ascii("retry") then Retry
                                                else Switch
  {
    hide Ascii, Cut, Base64.Decode;
    LastSnoc(init, last, Ascii("ns"), l.ns, before.ns);
    LastSnoc(init, last, Ascii("action"), l.action, before.action);
    LastSnoc(init, last, Ascii("proto"), l.proto, before.proto);
    LastSnoc(init, last, Ascii("reason"), l.reason, before.reason);
    LastSnoc(init, last, Ascii("data"), l.data, before.data);
  }

  lemma {:induction false} FieldsMean(fields: seq<bytes>, l: Last)
    requires AreLast(fields, l)
    ensures ApplyFields(START, fields).Ok? <==> AllAcceptable(fields)
    ensures AllAcceptable(fields) ==> ApplyFields(START, fields) == Ok(Parsing(Spelled(fields, l), l.ns >= 0))
    decreases |fields|
  {
    hide ApplyField, Ascii, Cut, Base64.Decode, Acceptable, Has;
    if fields != [] {
      hide ApplyFields, AllAcceptable, Spelled, IsLast;
      var n := |fields| - 1;
      var init, last := fields[..n], fields[n];
      assert fields == init + [last];
      var before := LastPieces(init);
      FieldsMean(init, before);
      ApplySnoc(START, init, last);
      AcceptableSnoc(init, last);
      ValueSnoc(init, last, l, before);
      if AllAcceptable(init) {
        OneFieldMeans(ApplyFields(START, init).value, last);
      }
    }
  }

  lemma AcceptableSnoc(init: seq<bytes>, last: bytes)
    ensures AllAcceptable(init + [last]) <==> AllAcceptable(init) && Acceptable(last)
  {
    hide Acceptable;
    assert AllAcceptable(init + [last]) ==> Acceptable((init + [last])[|init|]);
    assert forall k | 0 <= k < |init| :: (init + [last])[k] == init[k];
  }

  ghost function LastPieces(fields: seq<bytes>): (l: Last)
    ensures AreLast(fields, l)
  {
    Last(LastAt(fields, Ascii("ns")), LastAt(fields, Ascii("action")), LastAt(fields, Ascii("proto")),
         LastAt(fields, Ascii("reason")), LastAt(fields, Ascii("data")))
  }

  /**
   * The parser, exactly: a payload is accepted when every piece between semicolons is, one of them is the version, and a
   * name is there where one is needed; and it means what the last piece of each key says.
   */
  lemma ParseMeans(raw: bytes, l: Last)
    requires AreLast(Split(raw), l)
    ensures var m := Spelled(Split(raw), l);
            Parse(raw).Ok? <==> raw != [] && AllAcceptable(Split(raw)) && l.ns >= 0 && (m.action == Reject || m.proto != [])
    ensures Parse(raw).Ok? ==> Parse(raw) == Ok(Spelled(Split(raw), l))
  {
    hide ApplyFields, Spelled, AllAcceptable, AreLast, Split;
    FieldsMean(Split(raw), l);
  }

  // ---- Round trips ----

  lemma {:induction false} SplitAt(a: bytes, b: bytes)
    requires SEMICOLON !in a
    ensures Split(a + [SEMICOLON] + b) == [a] + Split(b)
    ensures Split(a) == [a]
  {
    if a != [] {
      assert a[0] in a && SEMICOLON !in a[1..];
      SplitAt(a[1..], b);
      assert (a + [SEMICOLON] + b)[1..] == a[1..] + [SEMICOLON] + b;
      assert [a[0]] + a[1..] == a;
    } else {
      assert ([] + [SEMICOLON] + b)[1..] == b;
    }
  }

  lemma {:induction false} CutAt(k: bytes, v: bytes)
    requires EQUALS !in k
    ensures Cut(k + [EQUALS] + v) == Some((k, v))
  {
    var s := k + [EQUALS] + v;
    if k != [] {
      assert k[0] in k;
      CutAt(k[1..], v);
      assert s[1..] == k[1..] + [EQUALS] + v && [k[0]] + k[1..] == k;
    } else {
      assert s[1..] == v;
    }
  }

  lemma {:induction false} PiecesHaveNoSemicolon(s: bytes)
    ensures forall k | 0 <= k < |Split(s)| :: SEMICOLON !in Split(s)[k]
  {
    if s != [] {
      PiecesHaveNoSemicolon(s[1..]);
    }
  }

  lemma {:induction false} CutKeepsBytes(s: bytes)
    ensures Cut(s).Some? ==> forall c | c in Cut(s).value.1 :: c in s
  {
    if s != [] && s[0] != EQUALS {
      CutKeepsBytes(s[1..]);
    }
  }

  ghost predicate Separable(p: Parsing) {
    SEMICOLON !in p.m.proto && SEMICOLON !in p.m.reason
  }

  lemma {:induction false} FieldsStaySeparable(p: Parsing, fields: seq<bytes>)
    requires Separable(p) && forall k | 0 <= k < |fields| :: SEMICOLON !in fields[k]
    ensures ApplyFields(p, fields).Ok? ==> Separable(ApplyFields(p, fields).value)
    decreases |fields|
  {
    if fields != [] {
      CutKeepsBytes(fields[0]);
      match ApplyField(p, fields[0]) {
        case Err(_) =>
        case Ok(next) => FieldsStaySeparable(next, fields[1..]);
      }
    }
  }

  /** Whatever arrives, a parsed name or reason contains no separator. */
  lemma ParsedNamesAreSeparable(raw: bytes)
    requires Parse(raw).Ok?
    ensures SEMICOLON !in Parse(raw).value.proto && SEMICOLON !in Parse(raw).value.reason
  {
    PiecesHaveNoSemicolon(raw);
    FieldsStaySeparable(START, Split(raw));
  }

  function Field(key: bytes, value: bytes): bytes {
    key + [EQUALS] + value
  }

  /** What one field with a known key does to the message. */
  lemma KnownField(p: Parsing, key: bytes, v: bytes)
    requires key in {Ascii("action"), Ascii("proto"), Ascii("reason"), Ascii("data")}
    ensures key == Ascii("proto") ==> ApplyField(p, Field(key, v)) == Ok(p.(m := p.m.(proto := v)))
    ensures key == Ascii("reason") ==> ApplyField(p, Field(key, v)) == Ok(p.(m := p.m.(reason := v)))
    ensures key == Ascii("data") && Base64.Decode(v).Some? ==>
              ApplyField(p, Field(key, v)) == Ok(p.(m := p.m.(data := Base64.Decode(v).value)))
    ensures key == Ascii("action") && ActionNamed(v).Some? ==>
              ApplyField(p, Field(key, v)) == Ok(p.(m := p.m.(action := ActionNamed(v).value)))
  {
    CutAt(key, v);
  }

  lemma VersionField(p: Parsing)
    ensures ApplyField(p, Ascii("ns=1")) == Ok(p.(seenVersion := true))
  {
    CutAt(Ascii("ns"), Ascii("1"));
    assert Ascii("ns=1") == Ascii("ns") + [EQUALS] + Ascii("1");
  }

  lemma FieldIsSeparable(key: bytes, v: bytes)
    requires key in {Ascii("action"), Ascii("proto"), Ascii("reason"), Ascii("data")} && SEMICOLON !in v
    ensures SEMICOLON !in Field(key, v)
  {
  }

  lemma ActionNames(a: Action)
    requires a != Proposal
    ensures ActionNamed(ActionName(a)) == Some(a) && SEMICOLON !in ActionName(a)
  {
    assert Ascii("switch")[0] != Ascii("reject")[0] && |Ascii("retry")| == 5;
  }

  // An optional field and the separator in front of it.
  function Tail(key: bytes, v: bytes): bytes {
    if v == [] then [] else [SEMICOLON] + Field(key, v)
  }

  lemma Literals()
    ensures Ascii("ns=1;proto=") == Ascii("ns=1") + [SEMICOLON] + (Ascii("proto") + [EQUALS])
    ensures Ascii("ns=1;action=") == Ascii("ns=1") + [SEMICOLON] + (Ascii("action") + [EQUALS])
    ensures Ascii(";data=") == [SEMICOLON] + (Ascii("data") + [EQUALS])
    ensures Ascii(";proto=") == [SEMICOLON] + (Ascii("proto") + [EQUALS])
    ensures Ascii(";reason=") == [SEMICOLON] + (Ascii("reason") + [EQUALS])
  {
  }

  lemma Regroup(a: bytes, b: bytes, c: bytes, d: bytes, e: bytes, f: bytes)
    ensures (a + b + c) + d + e + f == a + b + ((c + d) + (e + f))
  {
    assert (a + b + c) + d + e + f == (a + b) + (c + d + e + f);
    assert c + d + e + f == (c + d) + (e + f);
  }

  lemma TailText(key: bytes, v: bytes)
    ensures Tail(key, v) == if v == [] then [] else [SEMICOLON] + (key + [EQUALS]) + v
  {
    assert [SEMICOLON] + (key + [EQUALS]) + v == [SEMICOLON] + (key + [EQUALS] + v);
  }

  lemma ProposalLayout(proto: bytes, appData: bytes)
    requires Base64.Encode(appData) == [] <==> appData == []
    ensures EncodeProposal(proto, appData)
            == Ascii("ns=1") + [SEMICOLON] + (Field(Ascii("proto"), proto) + Tail(Ascii("data"), Base64.Encode(appData)))
  {
    hide Ascii, Base64.Encode, Tail;
    Literals();
    var data := Base64.Encode(appData);
    TailText(Ascii("data"), data);
    Regroup(Ascii("ns=1"), [SEMICOLON], Ascii("proto") + [EQUALS], proto, Tail(Ascii("data"), data), []);
    assert Tail(Ascii("data"), data) + [] == Tail(Ascii("data"), data);
  }

  lemma ResponseLayout(a: Action, proto: bytes, reason: bytes)
    ensures EncodeResponse(a, proto, reason)
            == Ascii("ns=1") + [SEMICOLON] + (Field(Ascii("action"), ActionName(a))
                                              + (Tail(Ascii("proto"), proto) + Tail(Ascii("reason"), reason)))
  {
    hide Ascii, ActionName, Tail;
    Literals();
    TailText(Ascii("proto"), proto);
    TailText(Ascii("reason"), reason);
    Regroup(Ascii("ns=1"), [SEMICOLON], Ascii("action") + [EQUALS], ActionName(a),
            Tail(Ascii("proto"), proto), Tail(Ascii("reason"), reason));
  }

  /** Applying the pieces of `first` followed by an optional field. */
  lemma ApplyTail(p: Parsing, first: bytes, rest: bytes)
    requires SEMICOLON !in first && ApplyField(p, first).Ok?
    requires rest == [] || rest[0] == SEMICOLON
    ensures ApplyFields(p, Split(first + rest))
            == if rest == [] then ApplyField(p, first)
               else ApplyFields(ApplyField(p, first).value, Split(rest[1..]))
  {
    if rest == [] {
      assert first + rest == first;
      SplitAt(first, []);
      assert [first][1..] == [];
    } else {
      assert first + rest == first + [SEMICOLON] + rest[1..];
      SplitAt(first, rest[1..]);
      assert ([first] + Split(rest[1..]))[1..] == Split(rest[1..]);
    }
  }

  lemma VersionIsSeparable()
    ensures SEMICOLON !in Ascii("ns=1") && Ascii("ns=1") != []
  {
  }

  /** Parsing a payload that starts with the version field. */
  lemma ParseAfterVersion(body: bytes)
    ensures Parse(Ascii("ns=1") + [SEMICOLON] + body)
            == match ApplyFields(START.(seenVersion := true), Split(body))
               case Err(e) => Err(e)
               case Ok(p) => Finish(p)
  {
    hide Ascii, Finish;
    VersionIsSeparable();
    VersionField(START);
    var raw := Ascii("ns=1") + [SEMICOLON] + body;
    assert raw == Ascii("ns=1") + ([SEMICOLON] + body) && ([SEMICOLON] + body)[1..] == body;
    ApplyTail(START, Ascii("ns=1"), [SEMICOLON] + body);
  }

  /** Parsing one more optional field at the end. */
  lemma ApplyLastTail(p: Parsing, first: bytes, key: bytes, v: bytes)
    requires SEMICOLON !in first && ApplyField(p, first).Ok?
    requires key in {Ascii("action"), Ascii("proto"), Ascii("reason"), Ascii("data")} && SEMICOLON !in v
    ensures ApplyFields(p, Split(first + Tail(key, v)))
            == if v == [] then ApplyField(p, first) else ApplyField(ApplyField(p, first).value, Field(key, v))
  {
    hide Ascii, ApplyField;
    ApplyTail(p, first, Tail(key, v));
    if v != [] {
      var field: bytes := Field(key, v);
      assert ([SEMICOLON] + field)[1..] == field;
      FieldIsSeparable(key, v);
      SplitAt(field, []);
      assert [field][1..] == [];
    }
  }

  /** A proposal comes back exactly when its name is not empty and contains no semicolon. */
  lemma ProposalRoundTrip(proto: bytes, appData: bytes)
    ensures Parse(EncodeProposal(proto, appData)) == Ok(NegMsg(Proposal, proto, [], appData))
            <==> proto != [] && SEMICOLON !in proto
  {
    var raw := EncodeProposal(proto, appData);
    if proto != [] && SEMICOLON !in proto {
      ProposalComesBack(proto, appData);
    } else if Parse(raw).Ok? {
      ParsedNamesAreSeparable(raw);
    }
  }

  lemma ProposalComesBack(proto: bytes, appData: bytes)
    requires proto != [] && SEMICOLON !in proto
    ensures Parse(EncodeProposal(proto, appData)) == Ok(NegMsg(Proposal, proto, [], appData))
  {
    hide Ascii, ApplyField, Field, Tail, Base64.Encode, Base64.Decode, EncodeProposal, Parse;
    var p := START.(seenVersion := true);
    var data := Base64.Encode(appData);
    EmptyEncodesEmpty(appData);
    ProposalLayout(proto, appData);
    ParseAfterVersion(Field(Ascii("proto"), proto) + Tail(Ascii("data"), data));
    KnownField(p, Ascii("proto"), proto);
    FieldIsSeparable(Ascii("proto"), proto);
    Base64.RoundTrip(appData);
    ApplyLastTail(p, Field(Ascii("proto"), proto), Ascii("data"), data);
    KnownField(p.(m := p.m.(proto := proto)), Ascii("data"), data);
  }

  lemma EmptyEncodesEmpty(b: bytes)
    ensures Base64.Encode(b) == [] <==> b == []
  {
  }

  /**
   * A response comes back exactly when neither part contains a semicolon and a retry or switch names
   * a protocol. In particular the action survives, so no proposal is taken for a response.
   */
  lemma ResponseRoundTrip(a: Action, proto: bytes, reason: bytes)
    requires a != Proposal
    ensures Parse(EncodeResponse(a, proto, reason)) == Ok(NegMsg(a, proto, reason, []))
            <==> SEMICOLON !in proto && SEMICOLON !in reason && (a != Reject ==> proto != [])
  {
    var raw := EncodeResponse(a, proto, reason);
    if SEMICOLON !in proto && SEMICOLON !in reason {
      ResponseParses(a, proto, reason);
    } else if Parse(raw).Ok? {
      ParsedNamesAreSeparable(raw);
    }
  }

  lemma ResponseParses(a: Action, proto: bytes, reason: bytes)
    requires a != Proposal && SEMICOLON !in proto && SEMICOLON !in reason
    ensures Parse(EncodeResponse(a, proto, reason)) == Finish(Parsing(NegMsg(a, proto, reason, []), true))
  {
    hide Ascii, ApplyField, Field, Tail, EncodeResponse, Parse, ActionName, ActionNamed, Finish;
    var p := START.(seenVersion := true);
    var first := Field(Ascii("action"), ActionName(a));
    var t, u := Tail(Ascii("proto"), proto), Tail(Ascii("reason"), reason);
    ResponseLayout(a, proto, reason);
    ParseAfterVersion(first + (t + u));
    ActionNames(a);
    KnownField(p, Ascii("action"), ActionName(a));
    FieldIsSeparable(Ascii("action"), ActionName(a));
    var q := p.(m := p.m.(action := a));
    if proto == [] {
      EmptyTail(Ascii("proto"));
      assert t + u == u;
      ApplyLastTail(p, first, Ascii("reason"), reason);
      KnownField(q, Ascii("reason"), reason);
    } else {
      var second := Field(Ascii("proto"), proto);
      TailIs(Ascii("proto"), proto);
      assert (t + u)[0] == SEMICOLON && (t + u)[1..] == second + u;
      ApplyTail(p, first, t + u);
      KnownField(q, Ascii("proto"), proto);
      FieldIsSeparable(Ascii("proto"), proto);
      ApplyLastTail(q, second, Ascii("reason"), reason);
      KnownField(q.(m := q.m.(proto := proto)), Ascii("reason"), reason);
    }
  }

  lemma EmptyTail(key: bytes)
    ensures Tail(key, []) == []
  {
  }

  lemma TailIs(key: bytes, v: bytes)
    requires v != []
    ensures Tail(key, v) == [SEMICOLON] + Field(key, v)
  {
  }
}
