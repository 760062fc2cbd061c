/** The cross-SDK job envelope: `wrap` prints it, `unwrap` parses and validates it. */
module Envelope {
  import opened Common
  import opened Json
  import opened JsonText
  import Utf8
  import opened JsonBytes

  const ENVELOPE_VERSION := 1

  datatype Envelope = Envelope(version: int, tenantId: string, requestId: string, payload: seq<Field>)

  /** `NotText` is the UnicodeDecodeError that bytes raise when they are no text; it is not caught. */
  datatype Error = InvalidEnvelope | NotText

  /** The library calls `Envelope` leans on: does `uuid.UUID(v)` accept `v`; which integer does pydantic read
      from a string given for an int field; and which object, if any, does `json.loads` read from text with
      lone surrogates, which no string of this model can hold. */
  datatype Env = Env(isUuid: string -> bool, intFromText: string -> Option<int>,
                     loadsOdd: seq<Utf8.CodePoint> -> Option<seq<Field>>)

  /** The three field validators. */
  predicate Valid(env: Env, e: Envelope) {
    e.version == ENVELOPE_VERSION && env.isUuid(e.tenantId) && e.payload != []
  }

  function Body(e: Envelope): Json {
    var head := [Field("version", Num(e.version)), Field("tenant_id", Str(e.tenantId))];
    var rid := if e.requestId == "" then [] else [Field("request_id", Str(e.requestId))];
    Obj(head + rid + [Field("payload", Obj(e.payload))])
  }

  /** `wrap` */
  function Wrap(env: Env, tenantId: string, payload: seq<Field>, requestId: string): Result<string, Error> {
    var e := Envelope(ENVELOPE_VERSION, tenantId, requestId, payload);
    if Valid(env, e) then Ok(Print(Body(e), COMPACT)) else Err(InvalidEnvelope)
  }

  function Lookup(fields: seq<Field>, k: string): Option<Json> {
    if fields == [] then None
    else if fields[0].key == k then Some(fields[0].val)
    else Lookup(fields[1..], k)
  }

  /** pydantic's lax reading of a value for an int field. */
  function ReadInt(env: Env, v: Json): Option<int> {
    match v
    case Num(n) => Some(n)
    case Bool(b) => Some(if b then 1 else 0)
    case Str(s) => env.intFromText(s)
    case _ => None
  }

  const FIELD_NAMES := {"version", "tenant_id", "request_id", "payload"}

  /** `Envelope.model_validate` on a dict, with `extra="forbid"`. */
  function Validate(env: Env, fields: seq<Field>): Result<Envelope, Error> {
    if exists i | 0 <= i < |fields| :: fields[i].key !in FIELD_NAMES then Err(InvalidEnvelope)
    else
      var rid := match Lookup(fields, "request_id") case None => Some(Str("")) case other => other;
      match (Lookup(fields, "version"), Lookup(fields, "tenant_id"), rid, Lookup(fields, "payload"))
      case (Some(ver), Some(Str(t)), Some(Str(r)), Some(Obj(p))) =>
        (match ReadInt(env, ver)
         case None => Err(InvalidEnvelope)
         case Some(n) =>
           var e := Envelope(n, t, r, p);
           if Valid(env, e) then Ok(e) else Err(InvalidEnvelope))
      case _ => Err(InvalidEnvelope)
  }

  /** `unwrap` on text. */
  function Unwrap(env: Env, data: string): Result<Envelope, Error> {
    match Loads(data)
    case Some(Obj(fields)) => Validate(env, fields)
    case _ => Err(InvalidEnvelope)
  }

  lemma {:induction false} LookupAt(fields: seq<Field>, i: nat)
    requires i < |fields| && DistinctKeys(fields)
    ensures Lookup(fields, fields[i].key) == Some(fields[i].val)
  {
    if i > 0 {
      assert fields[1..][i - 1] == fields[i];
      LookupAt(fields[1..], i - 1);
    }
  }

  lemma {:induction false} LookupMissing(fields: seq<Field>, k: string)
    requires forall i | 0 <= i < |fields| :: fields[i].key != k
    ensures Lookup(fields, k) == None
  {
    if fields != [] { LookupMissing(fields[1..], k); }
  }

  lemma {:induction false} WfFromDistinct(fields: seq<Field>)
    requires DistinctKeys(fields) && forall i | 0 <= i < |fields| :: Wf(fields[i].val)
    ensures WfFields(fields)
  {
    if fields != [] { WfFromDistinct(fields[1..]); }
  }

  /** The validators see in the printed object exactly the envelope it was built from. */
  lemma BodyValidates(env: Env, e: Envelope)
    requires WfFields(e.payload)
    ensures Wf(Body(e))
    ensures Validate(env, Body(e).fields) == if Valid(env, e) then Ok(e) else Err(InvalidEnvelope)
  {
    var fs := Body(e).fields;
    var n := |fs|;
    assert "version"[0] != "payload"[0];
    assert fs[0].key == "version" && fs[1].key == "tenant_id" && fs[n - 1].key == "payload";
    assert n == 3 || (n == 4 && fs[2].key == "request_id");
    assert DistinctKeys(fs);
    WfFromDistinct(fs);
    LookupAt(fs, 0);
    LookupAt(fs, 1);
    LookupAt(fs, n - 1);
    if n == 4 { LookupAt(fs, 2); } else { LookupMissing(fs, "request_id"); }
  }

  /** Every accepted envelope comes back from its own bytes exactly: version 1, the same tenant, the same
      request id (the omitted empty one included) and the same payload, in the same entry order; and
      `wrap` refuses exactly the envelopes a worker's `unwrap` would dead-letter. */
  lemma RoundTrip(env: Env, tenantId: string, payload: seq<Field>, requestId: string)
    requires WfFields(payload)
    ensures (var e := Envelope(1, tenantId, requestId, payload);
             Unwrap(env, Print(Body(e), COMPACT))
             == if Wrap(env, tenantId, payload, requestId).Ok? then Ok(e) else Err(InvalidEnvelope))
  {
    var e := Envelope(ENVELOPE_VERSION, tenantId, requestId, payload);
    BodyValidates(env, e);
    LoadsDumps(Body(e), COMPACT);
  }

  /** Whatever the bytes, an envelope that `unwrap` hands to a worker passed every validator, and carries
      no key beyond the four it knows. */
  lemma UnwrapSound(env: Env, data: string)
    requires Unwrap(env, data).Ok?
    ensures Valid(env, Unwrap(env, data).value)
    ensures Loads(data).Some? && Loads(data).value.Obj?
    ensures forall i | 0 <= i < |Loads(data).value.fields| :: Loads(data).value.fields[i].key in FIELD_NAMES
    ensures Lookup(Loads(data).value.fields, "tenant_id") == Some(Str(Unwrap(env, data).value.tenantId))
    ensures Lookup(Loads(data).value.fields, "payload") == Some(Obj(Unwrap(env, data).value.payload))
  {}

  /** A name in quotes. */
  function Quoted(name: string): string { "\"" + name + "\"" }

  /** What `wrap` writes, field for field: it accepts a UUID tenant with a payload that is not empty, and omits an
      empty request id. */
  lemma WireText(env: Env, tenantId: string, payload: seq<Field>, requestId: string)
    ensures (Wrap(env, tenantId, payload, requestId)
             == if env.isUuid(tenantId) && payload != []
                then Ok("{" + (Quoted("version") + ":" + "1")
                        + "," + (Quoted("tenant_id") + ":" + Quote(tenantId))
                        + (if requestId == "" then "" else "," + (Quoted("request_id") + ":" + Quote(requestId)))
                        + "," + (Quoted("payload") + ":" + Print(Obj(payload), COMPACT)) + "}")
                else Err(InvalidEnvelope))
  {
    hide Quote, PrintField, Quoted, Print, Body;
    BodyText(Envelope(1, tenantId, requestId, payload));
    VersionField();
    PlainField("tenant_id", Str(tenantId));
    PlainField("request_id", Str(requestId));
    PlainField("payload", Obj(payload));
    StringsPrint(tenantId);
    StringsPrint(requestId);
  }

  lemma StringsPrint(s: string)
    ensures Print(Str(s), COMPACT) == Quote(s)
  {}

  lemma BodyText(e: Envelope)
    ensures Print(Body(e), COMPACT)
         == "{" + PrintField(Field("version", Num(e.version)), COMPACT)
            + "," + PrintField(Field("tenant_id", Str(e.tenantId)), COMPACT)
            + (if e.requestId == "" then "" else "," + PrintField(Field("request_id", Str(e.requestId)), COMPACT))
            + "," + PrintField(Field("payload", Obj(e.payload)), COMPACT) + "}"
  {
    hide PrintField, PrintFields, Escape;
    var a, b := Field("version", Num(e.version)), Field("tenant_id", Str(e.tenantId));
    var r, p := Field("request_id", Str(e.requestId)), Field("payload", Obj(e.payload));
    BodyFields(e, a, b, r, p);
    ThreeFields(a, b, p);
    FourFields(a, b, r, p);
    Joined(PrintField(a, COMPACT), PrintField(b, COMPACT), PrintField(r, COMPACT), PrintField(p, COMPACT));
  }

  lemma BodyFields(e: Envelope, a: Field, b: Field, r: Field, p: Field)
    requires a == Field("version", Num(e.version)) && b == Field("tenant_id", Str(e.tenantId))
    requires r == Field("request_id", Str(e.requestId)) && p == Field("payload", Obj(e.payload))
    ensures Body(e) == Obj(if e.requestId == "" then [a] + [b] + [p] else [a] + [b] + [r] + [p])
  {
    assert [a, b] == [a] + [b];
    assert e.requestId == "" ==> [a, b] + [] == [a] + [b];
  }

  lemma VersionField()
    ensures PrintField(Field("version", Num(1)), COMPACT) == Quoted("version") + ":" + "1"
  {
    PlainField("version", Num(1));
    assert Digits(1) == "1";
  }

  /** Field names need no escapes. */
  lemma PlainField(name: string, v: Json)
    requires name in ["version", "tenant_id", "request_id", "payload"]
    ensures PrintField(Field(name, v), COMPACT) == Quoted(name) + ":" + Print(v, COMPACT)
  {
    hide Print, Escape;
    NameEscape(name);
  }

  lemma NameEscape(name: string)
    requires name in ["version", "tenant_id", "request_id", "payload"]
    ensures Escape(name) == name
  {
    forall i | 0 <= i < |name| ensures Plain(name[i]) {}
    PlainEscape(name);
  }

  predicate Plain(c: char) { c == '_' || 'a' <= c <= 'z' }

  lemma {:induction false} PlainEscape(s: string)
    requires forall i | 0 <= i < |s| :: Plain(s[i])
    ensures Escape(s) == s
  {
    if s != [] {
      assert EscapeChar(s[0]) == [s[0]];
      PlainEscape(s[1..]);
    }
  }

  lemma ThreeFields(a: Field, b: Field, c: Field)
    ensures PrintFields([a] + [b] + [c], COMPACT)
         == PrintField(a, COMPACT) + "," + (PrintField(b, COMPACT) + "," + PrintField(c, COMPACT))
  {
    hide PrintField;
    assert ([a] + [b] + [c])[1..] == [b] + [c];
    TwoFields(b, c);
    hide PrintFields;
    Assoc(PrintField(a, COMPACT), ",", PrintField(b, COMPACT) + "," + PrintField(c, COMPACT));
    Assoc(PrintField(b, COMPACT), ",", PrintField(c, COMPACT));
  }

  lemma TwoFields(a: Field, b: Field)
    ensures PrintFields([a] + [b], COMPACT) == PrintField(a, COMPACT) + "," + PrintField(b, COMPACT)
  {
    hide PrintField;
    assert ([a] + [b])[1..] == [b];
    assert PrintFields([b], COMPACT) == PrintField(b, COMPACT);
  }

  /** Both ways of writing the same text. */
  lemma Joined(a: string, b: string, r: string, p: string)
    ensures "{" + (a + "," + (b + "," + p)) + "}" == "{" + a + "," + b + "" + "," + p + "}"
    ensures "{" + (a + "," + (b + "," + (r + "," + p))) + "}" == "{" + a + "," + b + ("," + r) + "," + p + "}"
  {}

  lemma FourFields(a: Field, b: Field, c: Field, d: Field)
    ensures PrintFields([a] + [b] + [c] + [d], COMPACT)
         == PrintField(a, COMPACT) + ","
           + (PrintField(b, COMPACT) + "," + (PrintField(c, COMPACT) + "," + PrintField(d, COMPACT)))
  {
    hide PrintField;
    assert ([a] + [b] + [c] + [d])[1..] == [b] + [c] + [d];
    ThreeFields(b, c, d);
  }

  /** Which objects a worker accepts, and as what: the four known fields and no other; a version of 1, given as the
      number, as `true` or as a text that reads as 1; a UUID tenant; a text or no request id; a payload that is an
      object with something in it. */
  ghost predicate Acceptable(env: Env, fields: seq<Field>, e: Envelope) {
    && (forall i | 0 <= i < |fields| :: fields[i].key in ["version", "tenant_id", "request_id", "payload"])
    && (match Lookup(fields, "version")
        case Some(Num(n)) => n == 1
        case Some(Bool(b)) => b
        case Some(Str(s)) => env.intFromText(s) == Some(1)
        case _ => false)
    && Lookup(fields, "tenant_id") == Some(Str(e.tenantId)) && env.isUuid(e.tenantId)
    && (Lookup(fields, "request_id") == Some(Str(e.requestId))
        || (Lookup(fields, "request_id") == None && e.requestId == ""))
    && Lookup(fields, "payload") == Some(Obj(e.payload)) && e.payload != []
    && e.version == 1
  }

  /** `unwrap` gives a worker an envelope exactly for the text of such an object. */
  lemma UnwrapExactly(env: Env, data: string, e: Envelope)
    ensures (Unwrap(env, data) == Ok(e)
             <==> Loads(data).Some? && Loads(data).value.Obj? && Acceptable(env, Loads(data).value.fields, e))
    ensures Unwrap(env, data).Ok? || Unwrap(env, data) == Err(InvalidEnvelope)
  {
    hide Loads, Validate, Acceptable;
    if Loads(data).Some? && Loads(data).value.Obj? { ValidateExactly(env, Loads(data).value.fields, e); }
  }

  lemma ValidateExactly(env: Env, fields: seq<Field>, e: Envelope)
    ensures Validate(env, fields) == Ok(e) <==> Acceptable(env, fields, e)
    ensures Validate(env, fields).Ok? || Validate(env, fields) == Err(InvalidEnvelope)
  {
    hide Lookup;
    KnownNames(fields);
    if Acceptable(env, fields, e) { AcceptableValidates(env, fields, e); }
  }

  lemma KnownNames(fields: seq<Field>)
    ensures (forall i | 0 <= i < |fields| :: fields[i].key in FIELD_NAMES)
       <==> forall i | 0 <= i < |fields| :: fields[i].key in ["version", "tenant_id", "request_id", "payload"]
  {
    forall k: string ensures k in FIELD_NAMES <==> k in ["version", "tenant_id", "request_id", "payload"] {}
  }

  lemma AcceptableValidates(env: Env, fields: seq<Field>, e: Envelope)
    requires Acceptable(env, fields, e)
    ensures Validate(env, fields) == Ok(e)
  {
    KnownNames(fields);
    hide Lookup;
  }

  /** Anything but white space after the object is refused. */
  lemma TrailingText(env: Env, tenantId: string, payload: seq<Field>, requestId: string, rest: string)
    requires WfFields(payload) && Wrap(env, tenantId, payload, requestId).Ok?
    ensures (Unwrap(env, Wrap(env, tenantId, payload, requestId).value + rest)
             == if (forall i | 0 <= i < |rest| :: IsWs(rest[i])) then Ok(Envelope(1, tenantId, requestId, payload))
                else Err(InvalidEnvelope))
  {
    var e := Envelope(1, tenantId, requestId, payload);
    BodyValidates(env, e);
    ObjRoundTrip(Body(e).fields, COMPACT, rest);
    Blank(rest);
    hide ParseValue, PrintFields, Validate;
    assert Wrap(env, tenantId, payload, requestId).value == "{" + PrintFields(Body(e).fields, COMPACT) + "}";
  }

  lemma {:induction false} Blank(s: string)
    ensures SkipWs(s) == [] <==> forall i | 0 <= i < |s| :: IsWs(s[i])
  {
    if s != [] { Blank(s[1..]); }
  }

  /** No two different jobs share bytes: tenant, request id and payload can all be read back. */
  lemma WrapInjective(env: Env, t1: string, p1: seq<Field>, r1: string, t2: string, p2: seq<Field>, r2: string)
    requires WfFields(p1) && WfFields(p2)
    requires Wrap(env, t1, p1, r1).Ok? && Wrap(env, t1, p1, r1) == Wrap(env, t2, p2, r2)
    ensures t1 == t2 && p1 == p2 && r1 == r2
  {
    RoundTrip(env, t1, p1, r1);
    RoundTrip(env, t2, p2, r2);
  }

  // ---- on the wire -----------------------------------------------------------------

  function WrapBytes(env: Env, tenantId: string, payload: seq<Field>, requestId: string): Result<bytes, Error> {
    match Wrap(env, tenantId, payload, requestId)
    case Ok(text) => Ok(Utf8.Encode(text))
    case Err(e) => Err(e)
  }

  predicate Scalar(ps: seq<Utf8.CodePoint>) { forall i | 0 <= i < |ps| :: !Utf8.Surrogate(ps[i]) }

  function StringOf(ps: seq<Utf8.CodePoint>): string
    requires Scalar(ps)
  {
    seq(|ps|, i requires 0 <= i < |ps| => ps[i] as char)
  }

  /** `unwrap` on bytes. */
  function UnwrapBytes(env: Env, data: bytes): Result<Envelope, Error> {
    match TextOf(data)
    case None => Err(NotText)
    case Some(ps) =>
      if Scalar(ps) then Unwrap(env, StringOf(ps))
      else match env.loadsOdd(ps)
        case None => Err(InvalidEnvelope)
        case Some(fields) => Validate(env, fields)
  }

  /** UnicodeDecodeError escapes `unwrap` on exactly the bytes that are no text in the encoding guessed for them;
      every other failure is an InvalidEnvelopeError. */
  lemma EscapesExactly(env: Env, data: bytes)
    ensures UnwrapBytes(env, data) == Err(NotText) <==> !IsText(data)
    ensures IsText(data) ==> UnwrapBytes(env, data).Ok? || UnwrapBytes(env, data) == Err(InvalidEnvelope)
  {
    DecodesExactly(data);
    hide TextOf, IsText, StringOf;
    if TextOf(data).Some? && Scalar(TextOf(data).value) { UnwrapErrs(env, StringOf(TextOf(data).value)); }
  }

  lemma UnwrapErrs(env: Env, data: string)
    ensures Unwrap(env, data).Ok? || Unwrap(env, data) == Err(InvalidEnvelope)
  {
    hide Loads;
  }

  /** Which bytes a worker accepts, and as what: those whose text, in the encoding guessed for them, it accepts, and
      those whose text holds lone surrogates but is read as an acceptable object. */
  lemma UnwrapBytesExactly(env: Env, data: bytes, e: Envelope)
    ensures (UnwrapBytes(env, data) == Ok(e)
             <==> TextOf(data).Some? &&
                  var ps := TextOf(data).value;
                  if Scalar(ps) then Unwrap(env, StringOf(ps)) == Ok(e)
                  else env.loadsOdd(ps).Some? && Acceptable(env, env.loadsOdd(ps).value, e))
  {
    hide TextOf, Unwrap, Validate, Acceptable, StringOf, Scalar;
    if TextOf(data).Some? {
      var ps := TextOf(data).value;
      if !Scalar(ps) && env.loadsOdd(ps).Some? { ValidateExactly(env, env.loadsOdd(ps).value, e); }
    }
  }

  /** A text whose first two characters are ASCII, and not NUL, is unwrapped like its UTF-8 bytes. */
  lemma BytesAsText(env: Env, s: string)
    requires |s| >= 2 && 0 < s[0] as int < 0x80 && 0 < s[1] as int < 0x80
    ensures UnwrapBytes(env, Utf8.Encode(s)) == Unwrap(env, s)
  {
    hide Unwrap, TextOf, Utf8.Encode, Utf8.Codes, Scalar, StringOf, Validate;
    TextOfUtf8(s);
    CodesBack(s);
  }

  lemma CodesBack(s: string)
    ensures Scalar(Utf8.Codes(s)) && StringOf(Utf8.Codes(s)) == s
  {
    assert forall i | 0 <= i < |s| :: Utf8.Codes(s)[i] == s[i] as int;
  }

  lemma TextOfUtf8(s: string)
    requires |s| >= 2 && 0 < s[0] as int < 0x80 && 0 < s[1] as int < 0x80
    ensures TextOf(Utf8.Encode(s)) == Some(Utf8.Codes(s))
  {
    hide Utf8.Encode, Utf8.DecodePoints, Utf8.EncodePoints;
    var b := Utf8.Encode(s);
    AsciiStart(s);
    Utf8.EncodeIsPoints(s);
    Utf8.DecodePointsExact(b, Utf8.Codes(s));
    NarrowDetected(b);
    hide Detect;
    assert b[0..] == b;
  }

  lemma NarrowDetected(b: bytes)
    requires |b| >= 2 && 0 < b[0] < 0x80 && b[1] != 0
    ensures Detect(b) == (Wide1, 0)
  {}

  lemma AsciiStart(s: string)
    requires |s| >= 2 && 0 < s[0] as int < 0x80 && 0 < s[1] as int < 0x80
    ensures |Utf8.Encode(s)| >= 2 && Utf8.Encode(s)[0] == s[0] as int && Utf8.Encode(s)[1] == s[1] as int
  {
    assert Utf8.EncodeChar(s[0]) == [s[0] as int] && Utf8.EncodeChar(s[1]) == [s[1] as int];
    assert Utf8.Encode(s) == [s[0] as int] + Utf8.Encode(s[1..]);
    assert Utf8.Encode(s[1..]) == [s[1] as int] + Utf8.Encode(s[1..][1..]);
  }

  /** Such bytes exist: a lone continuation byte escapes. An encoded surrogate, which the strict codec would
      refuse too, does not. */
  lemma OneByteEscapes(env: Env)
    ensures UnwrapBytes(env, [0x80]) == Err(NotText)
    ensures UnwrapBytes(env, [0xED, 0xA0, 0x80]) != Err(NotText)
  {
    SmallestCases();
    EscapesExactly(env, [0x80]);
    EscapesExactly(env, [0xED, 0xA0, 0x80]);
  }

  lemma {:induction false} NarrowIsUtf8(s: string)
    requires Ascii(s)
    ensures EncodeAs(s, Wide1) == Utf8.Encode(s)
  {
    if s != [] { NarrowIsUtf8(s[1..]); }
  }

  /** The bytes `wrap` hands to the queue are printable ASCII, whatever the payload holds; they unwrap to the
      envelope they were made from, and so does the same text in UTF-16 or UTF-32 of either byte order. */
  lemma WireRoundTrip(env: Env, tenantId: string, payload: seq<Field>, requestId: string, f: Form)
    requires WfFields(payload) && WrapBytes(env, tenantId, payload, requestId).Ok?
    ensures (var text := Print(Body(Envelope(1, tenantId, requestId, payload)), COMPACT);
             var b := WrapBytes(env, tenantId, payload, requestId).value;
             && Printable(text) && Ascii(text) && b == EncodeAs(text, Wide1)
             && UnwrapBytes(env, EncodeAs(text, f)) == Ok(Envelope(1, tenantId, requestId, payload)))
  {
    RoundTrip(env, tenantId, payload, requestId);
    var body := Body(Envelope(ENVELOPE_VERSION, tenantId, requestId, payload));
    var text := Print(body, COMPACT);
    PrintPrintable(body, COMPACT);
    assert |text| >= 2;
    hide Print, Unwrap, TextOf, EncodeAs;
    NarrowIsUtf8(text);
    AsciiReadsBack(text, f);
    assert StringOf(Utf8.Codes(text)) == text;
  }
}
