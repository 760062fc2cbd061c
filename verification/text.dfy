/** UTF-8 (section 3 of RFC 3629) as Python's strict codec reads and writes it, and as it is read when surrogates
    are let through. */
module Utf8 {
  import opened Common

  type CodePoint = n: int | 0 <= n < 0x11_0000

  predicate Surrogate(n: int) { 0xD800 <= n < 0xE000 }

  /** The bytes of a code point; a surrogate's are those the `surrogatepass` error handler writes. */
  function EncodePoint(n: CodePoint): (r: bytes)
    ensures 1 <= |r| <= 4
  {
    if n < 0x80 then [n]
    else if n < 0x800 then [0xC0 + n / 0x40, 0x80 + n % 0x40]
    else if n < 0x1_0000 then [0xE0 + n / 0x1000, 0x80 + n / 0x40 % 0x40, 0x80 + n % 0x40]
    else [0xF0 + n / 0x4_0000, 0x80 + n / 0x1000 % 0x40, 0x80 + n / 0x40 % 0x40, 0x80 + n % 0x40]
  }

  function EncodePoints(ps: seq<CodePoint>): bytes {
    if ps == [] then [] else EncodePoint(ps[0]) + EncodePoints(ps[1..])
  }

  function EncodeChar(c: char): (r: bytes)
    ensures 1 <= |r| <= 4
  {
    EncodePoint(c as int)
  }

  function Encode(s: string): bytes {
    if s == [] then [] else EncodeChar(s[0]) + Encode(s[1..])
  }

  predicate Trail(b: byte) { 0x80 <= b < 0xC0 }

  /** The code point at the front of `b`; overlong forms and values past U+10FFFF are refused, surrogates are
      let through. */
  function DecodePoint(b: bytes): (r: Option<CodePoint>)
    requires b != []
  {
    if b[0] < 0x80 then Some(b[0] as int)
    else if b[0] < 0xC2 then None
    else if b[0] < 0xE0 then
      if |b| < 2 || !Trail(b[1]) then None
      else Some((b[0] as int - 0xC0) * 0x40 + (b[1] as int - 0x80))
    else if b[0] < 0xF0 then
      if |b| < 3 || !Trail(b[1]) || !Trail(b[2]) then None
      else
        var n: int := (b[0] as int - 0xE0) * 0x1000 + (b[1] as int - 0x80) * 0x40 + (b[2] as int - 0x80);
        if n < 0x800 then None else Some(n)
    else if b[0] < 0xF5 then
      if |b| < 4 || !Trail(b[1]) || !Trail(b[2]) || !Trail(b[3]) then None
      else
        var n: int := (b[0] as int - 0xF0) * 0x4_0000 + (b[1] as int - 0x80) * 0x1000
          + (b[2] as int - 0x80) * 0x40 + (b[3] as int - 0x80);
        if n < 0x1_0000 || 0x11_0000 <= n then None else Some(n)
    else None
  }

  /** `b.decode("utf-8", "surrogatepass")` */
  function DecodePoints(b: bytes): Option<seq<CodePoint>>
    decreases |b|
  {
    if b == [] then Some([])
    else match DecodePoint(b)
      case None => None
      case Some(n) =>
        if |b| < |EncodePoint(n)| then None
        else match DecodePoints(b[|EncodePoint(n)|..])
          case None => None
          case Some(ps) => Some([n] + ps)
  }

  /** The character at the front of `b`, as the strict codec reads it: no surrogates. */
  function DecodeChar(b: bytes): (r: Option<char>)
    requires b != []
  {
    match DecodePoint(b)
    case None => None
    case Some(n) => if Surrogate(n) then None else Some(n as char)
  }

  function Decode(b: bytes): Option<string>
    decreases |b|
  {
    if b == [] then Some("")
    else match DecodeChar(b)
      case None => None
      case Some(c) =>
        if |b| < |EncodeChar(c)| then None
        else match Decode(b[|EncodeChar(c)|..])
          case None => None
          case Some(s) => Some([c] + s)
  }

  /** Base-64 digits of a number, and the number they spell, determine each other. */
  lemma Digits2(n: int, h: int, l: int)
    requires 0 <= l < 0x40
    ensures n == h * 0x40 + l <==> h == n / 0x40 && l == n % 0x40
  {}

  lemma Digits3(n: int, h: int, m: int, l: int)
    requires 0 <= m < 0x40 && 0 <= l < 0x40
    ensures n == h * 0x1000 + m * 0x40 + l <==> h == n / 0x1000 && m == n / 0x40 % 0x40 && l == n % 0x40
  {
    assert n / 0x1000 == n / 0x40 / 0x40;
    Digits2(n, h * 0x40 + m, l);
    Digits2(n / 0x40, h, m);
  }

  lemma Digits4(n: int, h: int, k: int, m: int, l: int)
    requires 0 <= k < 0x40 && 0 <= m < 0x40 && 0 <= l < 0x40
    ensures n == h * 0x4_0000 + k * 0x1000 + m * 0x40 + l
       <==> h == n / 0x4_0000 && k == n / 0x1000 % 0x40 && m == n / 0x40 % 0x40 && l == n % 0x40
  {
    assert n / 0x4_0000 == n / 0x40 / 0x1000 && n / 0x1000 == n / 0x40 / 0x40;
    Digits2(n, h * 0x1000 + k * 0x40 + m, l);
    Digits3(n / 0x40, h, k, m);
  }

  lemma EncodingDecodes(b: bytes, n: CodePoint)
    requires EncodePoint(n) <= b
    ensures DecodePoint(b) == Some(n)
  {
    var e := EncodePoint(n);
    assert forall i | 0 <= i < |e| :: b[i] == e[i];
    if 0x80 <= n < 0x800 {
      Digits2(n, b[0] as int - 0xC0, b[1] as int - 0x80);
    } else if 0x800 <= n < 0x1_0000 {
      Digits3(n, b[0] as int - 0xE0, b[1] as int - 0x80, b[2] as int - 0x80);
    } else if 0x1_0000 <= n {
      Digits4(n, b[0] as int - 0xF0, b[1] as int - 0x80, b[2] as int - 0x80, b[3] as int - 0x80);
    }
  }

  lemma DecodedReencodes(b: bytes)
    requires b != [] && DecodePoint(b).Some?
    ensures EncodePoint(DecodePoint(b).value) <= b
  {
    var n := DecodePoint(b).value;
    if 0x80 <= b[0] < 0xE0 {
      Digits2(n, b[0] as int - 0xC0, b[1] as int - 0x80);
    } else if 0xE0 <= b[0] < 0xF0 {
      Digits3(n, b[0] as int - 0xE0, b[1] as int - 0x80, b[2] as int - 0x80);
    } else if 0xF0 <= b[0] {
      Digits4(n, b[0] as int - 0xF0, b[1] as int - 0x80, b[2] as int - 0x80, b[3] as int - 0x80);
    }
  }

  /** A decoded code point re-encodes to exactly the bytes it was read from. */
  lemma DecodePointExact(b: bytes, n: CodePoint)
    requires b != []
    ensures DecodePoint(b) == Some(n) <==> EncodePoint(n) <= b
  {
    if EncodePoint(n) <= b { EncodingDecodes(b, n); }
    if DecodePoint(b) == Some(n) { DecodedReencodes(b); }
  }

  lemma DecodeCharExact(b: bytes, c: char)
    requires b != []
    ensures DecodeChar(b) == Some(c) <==> EncodeChar(c) <= b
  {
    DecodePointExact(b, c as int);
    hide DecodePoint, EncodePoint;
  }

  /** With surrogates let through, decoding succeeds on exactly the encodings of code points. */
  lemma {:induction false} DecodePointsExact(b: bytes, ps: seq<CodePoint>)
    ensures DecodePoints(b) == Some(ps) <==> EncodePoints(ps) == b
    decreases |b|
  {
    hide DecodePoint, EncodePoint;
    if b != [] && ps != [] {
      DecodePointExact(b, ps[0]);
      var e := EncodePoint(ps[0]);
      if e <= b {
        assert b == e + b[|e|..];
        DecodePointsExact(b[|e|..], ps[1..]);
        assert ps == [ps[0]] + ps[1..];
        if EncodePoints(ps) == b { SplitAt(e, EncodePoints(ps[1..]), e, b[|e|..]); }
      }
    }
  }

  function Codes(s: string): (ps: seq<CodePoint>)
    ensures |ps| == |s|
  {
    seq(|s|, i requires 0 <= i < |s| => s[i] as int)
  }

  /** A string's bytes are those of its code points. */
  lemma {:induction false} EncodeIsPoints(s: string)
    ensures Encode(s) == EncodePoints(Codes(s))
  {
    if s != [] {
      EncodeIsPoints(s[1..]);
      assert Codes(s)[1..] == Codes(s[1..]);
      hide EncodePoint;
    }
  }

  /** Strict decoding succeeds on exactly the encodings, and gives back what was encoded. */
  lemma {:induction false} DecodeExact(b: bytes, s: string)
    ensures Decode(b) == Some(s) <==> Encode(s) == b
    decreases |b|
  {
    if b == [] {
    } else {
      if s != [] {
        DecodeCharExact(b, s[0]);
        var e := EncodeChar(s[0]);
        if e <= b {
          assert b == e + b[|e|..];
          DecodeExact(b[|e|..], s[1..]);
          assert s == [s[0]] + s[1..];
          if Encode(s) == b { SplitAt(e, Encode(s[1..]), e, b[|e|..]); }
        }
      }
    }
  }

  lemma {:induction false} EncodeAppend(s: string, t: string)
    ensures Encode(s + t) == Encode(s) + Encode(t)
  {
    if s == [] {
      assert s + t == t;
    } else {
      assert (s + t)[0] == s[0] && (s + t)[1..] == s[1..] + t;
      EncodeAppend(s[1..], t);
    }
  }

  lemma EncodeInjective(s: string, t: string)
    requires Encode(s) == Encode(t)
    ensures s == t
  {
    DecodeExact(Encode(s), s);
    DecodeExact(Encode(s), t);
  }

  /** A byte below 0x80 appears in an encoding only as the character of that code. */
  lemma {:induction false} AsciiOnlyAsItself(s: string, a: char)
    requires a as int < 0x80
    ensures a as int in Encode(s) <==> a in s
  {
    if s != [] {
      AsciiOnlyAsItself(s[1..], a);
      assert s == [s[0]] + s[1..];
    }
  }

  /** The encoding of printable ASCII text has the text's own codes. */
  lemma {:induction false} EncodeAscii(s: string)
    requires forall i | 0 <= i < |s| :: s[i] as int < 0x80
    ensures |Encode(s)| == |s|
    ensures forall i | 0 <= i < |s| :: Encode(s)[i] == s[i] as int
  {
    if s != [] {
      EncodeAscii(s[1..]);
    }
  }
}

/** JSON text (RFC 8259) as Python's `json` module prints and reads it, for values whose
    numbers are integers: `json.dumps` with `ensure_ascii`, optional `sort_keys` and a choice of
    separators, and `json.loads`. */
module Json {
  import opened Common

  /** A dict keeps its entries in insertion order. */
  datatype Json =
    | Null
    | Bool(b: bool)
    | Num(n: int)
    | Str(s: string)
    | Arr(items: seq<Json>)
    | Obj(fields: seq<Field>)

  datatype Field = Field(key: string, val: Json)

  /** `separators=(item, colon)` */
  datatype Style = Style(item: string, colon: string)

  const COMPACT := Style(",", ":")
  const SPACED := Style(", ", ": ")

  predicate Known(st: Style) { st == COMPACT || st == SPACED }

  // ---- printing -----------------------------------------------------------

  function HexDigit(d: int): char
    requires 0 <= d < 16
  {
    if d < 10 then ('0' as int + d) as char else ('a' as int + d - 10) as char
  }

  function Hex4(n: int): string
    requires 0 <= n < 0x1_0000
  {
    [HexDigit(n / 0x1000), HexDigit(n / 0x100 % 0x10), HexDigit(n / 0x10 % 0x10), HexDigit(n % 0x10)]
  }

  function EscapeUnit(n: int): string
    requires 0 <= n < 0x1_0000
  {
    "\\u" + Hex4(n)
  }

  function HighSurrogate(n: int): (r: int)
    requires 0x1_0000 <= n < 0x11_0000
    ensures 0xD800 <= r < 0xDC00
  {
    0xD800 + (n - 0x1_0000) / 0x400
  }

  function LowSurrogate(n: int): (r: int)
    requires 0x1_0000 <= n < 0x11_0000
    ensures 0xDC00 <= r < 0xE000
  {
    0xDC00 + (n - 0x1_0000) % 0x400
  }

  const BACKSPACE: char := 8 as char
  const FORM_FEED: char := 12 as char

  function EscapeChar(c: char): (r: string)
    ensures r != []
  {
    var n := c as int;
    if c == '"' then "\\\""
    else if c == '\\' then "\\\\"
    else if c == '\n' then "\\n"
    else if c == '\r' then "\\r"
    else if c == '\t' then "\\t"
    else if c == BACKSPACE then "\\b"
    else if c == FORM_FEED then "\\f"
    else if ' ' <= c <= '~' then [c]
    else if n < 0x1_0000 then EscapeUnit(n)
    else EscapeUnit(HighSurrogate(n)) + EscapeUnit(LowSurrogate(n))
  }

  function Escape(s: string): string {
    if s == [] then "" else EscapeChar(s[0]) + Escape(s[1..])
  }

  function Quote(s: string): string {
    "\"" + Escape(s) + "\""
  }

  function Digits(n: nat): (r: string)
    ensures r != []
  {
    if n < 10 then [('0' as int + n) as char] else Digits(n / 10) + [('0' as int + n % 10) as char]
  }

  function PrintInt(n: int): string {
    if n < 0 then "-" + Digits(-n) else Digits(n)
  }

  function Print(v: Json, st: Style): string
    decreases v
  {
    match v
    case Null => "null"
    case Bool(b) => if b then "true" else "false"
    case Num(n) => PrintInt(n)
    case Str(s) => Quote(s)
    case Arr(items) => "[" + PrintItems(items, st) + "]"
    case Obj(fields) => "{" + PrintFields(fields, st) + "}"
  }

  function PrintItems(items: seq<Json>, st: Style): string
    decreases items
  {
    if items == [] then ""
    else if |items| == 1 then Print(items[0], st)
    else Print(items[0], st) + st.item + PrintItems(items[1..], st)
  }

  function PrintField(f: Field, st: Style): string
    decreases f
  {
    Quote(f.key) + st.colon + Print(f.val, st)
  }

  function PrintFields(fields: seq<Field>, st: Style): string
    decreases fields
  {
    if fields == [] then ""
    else if |fields| == 1 then PrintField(fields[0], st)
    else PrintField(fields[0], st) + st.item + PrintFields(fields[1..], st)
  }

  // ---- parsing ------------------------------------------------------------

  predicate IsWs(c: char) { c == ' ' || c == '\t' || c == '\n' || c == '\r' }

  function SkipWs(s: string): (r: string)
    ensures |r| <= |s|
  {
    if s != [] && IsWs(s[0]) then SkipWs(s[1..]) else s
  }

  function HexValue(c: char): (r: Option<int>)
    ensures r.Some? ==> 0 <= r.value < 0x10
  {
    if '0' <= c <= '9' then Some(c as int - '0' as int)
    else if 'a' <= c <= 'f' then Some(c as int - 'a' as int + 10)
    else if 'A' <= c <= 'F' then Some(c as int - 'A' as int + 10)
    else None
  }

  function HexByte(h: char, l: char): (r: Option<int>)
    ensures r.Some? ==> 0 <= r.value < 0x100
  {
    match (HexValue(h), HexValue(l))
    case (Some(a), Some(b)) => Some(a * 0x10 + b)
    case _ => None
  }

  /** The value of `\uXXXX` at the front of `s`. */
  function UnicodeEscape(s: string): (r: Option<int>)
    ensures r.Some? ==> |s| >= 6 && 0 <= r.value < 0x1_0000
  {
    if |s| < 6 || s[0] != '\\' || s[1] != 'u' then None
    else match (HexByte(s[2], s[3]), HexByte(s[4], s[5]))
      case (Some(hi), Some(lo)) => Some(hi * 0x100 + lo)
      case _ => None
  }

  function NamedChar(c: char): Option<char> {
    match c
    case '"' => Some('"')
    case '\\' => Some('\\')
    case '/' => Some('/')
    case 'n' => Some('\n')
    case 'r' => Some('\r')
    case 't' => Some('\t')
    case 'b' => Some(BACKSPACE)
    case 'f' => Some(FORM_FEED)
    case _ => None
  }

  /** One `\u` escape, or two of them when they form a surrogate pair. */
  function ParseUnicode(s: string): (r: Option<(char, nat)>)
    ensures r.Some? ==> 1 <= r.value.1 <= |s|
  {
    match UnicodeEscape(s)
    case None => None
    case Some(u) =>
      if 0xD800 <= u < 0xDC00 then
        match UnicodeEscape(s[6..])
        case Some(w) =>
          if 0xDC00 <= w < 0xE000
          then Some(((0x1_0000 + (u - 0xD800) * 0x400 + (w - 0xDC00)) as char, 12))
          else None
        case None => None
      else if 0xDC00 <= u < 0xE000 then None
      else Some((u as char, 6))
  }

  /** One character of a string body: the character and how much of `s` it took. */
  function ParseChar(s: string): (r: Option<(char, nat)>)
    requires s != []
    ensures r.Some? ==> 1 <= r.value.1 <= |s|
  {
    if s[0] == '\\' then
      if |s| < 2 then None
      else match NamedChar(s[1])
        case Some(c) => Some((c, 2))
        case None => ParseUnicode(s)
    else if s[0] < ' ' then None
    else Some((s[0], 1))
  }

  /** A string body up to and including its closing quote. */
  function ParseString(s: string): (r: Option<(string, string)>)
    ensures r.Some? ==> |r.value.1| < |s|
    decreases |s|
  {
    if s == [] then None
    else if s[0] == '"' then Some(("", s[1..]))
    else match ParseChar(s)
      case None => None
      case Some((c, k)) => match ParseString(s[k..])
        case None => None
        case Some((t, rest)) => Some(([c] + t, rest))
  }

  predicate IsDigit(c: char) { '0' <= c <= '9' }

  function ParseNat(s: string, acc: nat): (r: (nat, string))
    ensures |r.1| <= |s|
  {
    if s != [] && IsDigit(s[0]) then ParseNat(s[1..], acc * 10 + (s[0] as int - '0' as int)) else (acc, s)
  }

  /** Unsigned integer: no leading zero, and no fraction or exponent after it. */
  function ParseUnsigned(s: string): (r: Option<(nat, string)>)
    ensures r.Some? ==> |r.value.1| < |s|
  {
    if s == [] || !IsDigit(s[0]) then None
    else
      var (n, rest) := if s[0] == '0' then (0, s[1..]) else ParseNat(s[1..], s[0] as int - '0' as int);
      if rest != [] && rest[0] in {'.', 'e', 'E'} then None else Some((n, rest))
  }

  function FieldKey(f: Field): string { f.key }

  function DictOf(d: seq<Field>, pairs: seq<Field>): seq<Field>
    decreases pairs
  {
    if pairs == [] then d else DictOf(Put(d, pairs[0], FieldKey), pairs[1..])
  }

  function ParseValue(s0: string): (r: Option<(Json, string)>)
    ensures r.Some? ==> |r.value.1| < |s0|
    decreases |s0|, 1
  {
    var s := SkipWs(s0);
    if s == [] then None
    else if s[0] == '"' then
      match ParseString(s[1..])
      case None => None
      case Some((t, rest)) => Some((Str(t), rest))
    else if s[0] == '[' then
      var u := SkipWs(s[1..]);
      if u != [] && u[0] == ']' then Some((Arr([]), u[1..]))
      else match ParseItems(u)
        case None => None
        case Some((vs, rest)) => Some((Arr(vs), rest))
    else if s[0] == '{' then
      var u := SkipWs(s[1..]);
      if u != [] && u[0] == '}' then Some((Obj([]), u[1..]))
      else match ParseFields(u)
        case None => None
        case Some((fs, rest)) => Some((Obj(DictOf([], fs)), rest))
    else if s[0] == '-' then
      match ParseUnsigned(s[1..])
      case None => None
      case Some((n, rest)) => Some((Num(0 - n), rest))
    else if IsDigit(s[0]) then
      match ParseUnsigned(s)
      case None => None
      case Some((n, rest)) => Some((Num(n), rest))
    else if "null" <= s then Some((Null, s[4..]))
    else if "true" <= s then Some((Bool(true), s[4..]))
    else if "false" <= s then Some((Bool(false), s[5..]))
    else None
  }

  /** Array members up to and including the closing bracket. */
  function ParseItems(s: string): (r: Option<(seq<Json>, string)>)
    ensures r.Some? ==> |r.value.1| < |s|
    decreases |s|, 2
  {
    match ParseValue(s)
    case None => None
    case Some((v, r1)) =>
      var u := SkipWs(r1);
      if u == [] then None
      else if u[0] == ']' then Some(([v], u[1..]))
      else if u[0] != ',' then None
      else match ParseItems(u[1..])
        case None => None
        case Some((vs, rest)) => Some(([v] + vs, rest))
  }

  /** An object key up to and including the colon after it. */
  function ParseKey(s0: string): (r: Option<(string, string)>)
    ensures r.Some? ==> |r.value.1| < |s0|
  {
    var s := SkipWs(s0);
    if s == [] || s[0] != '"' then None
    else match ParseString(s[1..])
      case None => None
      case Some((k, r1)) =>
        var t := SkipWs(r1);
        if t == [] || t[0] != ':' then None else Some((k, t[1..]))
  }

  /** Object members up to and including the closing brace. */
  function ParseFields(s: string): (r: Option<(seq<Field>, string)>)
    ensures r.Some? ==> |r.value.1| < |s|
    decreases |s|, 2
  {
    match ParseKey(s)
    case None => None
    case Some((k, r1)) => match ParseValue(r1)
      case None => None
      case Some((v, r2)) =>
        var u := SkipWs(r2);
        if u == [] then None
        else if u[0] == '}' then Some(([Field(k, v)], u[1..]))
        else if u[0] != ',' then None
        else match ParseFields(u[1..])
          case None => None
          case Some((fs, rest)) => Some(([Field(k, v)] + fs, rest))
  }

  /** `json.loads`: one value, then nothing but white space. */
  function Loads(s: string): Option<Json> {
    match ParseValue(s)
    case None => None
    case Some((v, rest)) => if SkipWs(rest) == [] then Some(v) else None
  }

  // ---- well-formed values -------------------------------------------------

  predicate HasKey(fields: seq<Field>, k: string) { exists i | 0 <= i < |fields| :: fields[i].key == k }

  predicate DistinctKeys(fields: seq<Field>) {
    forall i, j | 0 <= i < j < |fields| :: fields[i].key != fields[j].key
  }

  /** What a Python dict guarantees at every nesting level: no key occurs twice. */
  predicate Wf(v: Json)
    decreases v
  {
    match v
    case Arr(items) => WfItems(items)
    case Obj(fields) => WfFields(fields)
    case _ => true
  }

  predicate WfItems(items: seq<Json>)
    decreases items
  {
    items == [] || (Wf(items[0]) && WfItems(items[1..]))
  }

  predicate WfFields(fields: seq<Field>)
    decreases fields
  {
    fields == [] || (!HasKey(fields[1..], fields[0].key) && Wf(fields[0].val) && WfFields(fields[1..]))
  }

  // ---- the printer is inverted by the parser ------------------------------

  /** What may follow a printed value without being swallowed by it. */
  predicate Delimited(rest: string) {
    rest == [] || !(IsDigit(rest[0]) || rest[0] in {'.', 'e', 'E'})
  }

  lemma HexRoundTrip(d: int)
    requires 0 <= d < 16
    ensures HexValue(HexDigit(d)) == Some(d)
  {}

  lemma HexDigitsOf(n: int)
    requires 0 <= n < 0x1_0000
    ensures n == n / 0x1000 * 0x1000 + n / 0x100 % 0x10 * 0x100 + n / 0x10 % 0x10 * 0x10 + n % 0x10
    ensures 0 <= n / 0x1000 < 0x10
  {
    assert n / 0x100 == n / 0x10 / 0x10 && n / 0x1000 == n / 0x10 / 0x10 / 0x10;
  }

  lemma UnitRoundTrip(n: int, rest: string)
    requires 0 <= n < 0x1_0000
    ensures UnicodeEscape(EscapeUnit(n) + rest) == Some(n)
    ensures (EscapeUnit(n) + rest)[..2] == "\\u" && (EscapeUnit(n) + rest)[6..] == rest
  {
    HexDigitsOf(n);
    HexRoundTrip(n / 0x1000);
    HexRoundTrip(n / 0x100 % 0x10);
    HexRoundTrip(n / 0x10 % 0x10);
    HexRoundTrip(n % 0x10);
    var h := Hex4(n);
    var s := EscapeUnit(n) + rest;
    assert s[0] == '\\' && s[1] == 'u' && s[2] == h[0] && s[3] == h[1] && s[4] == h[2] && s[5] == h[3];
  }

  /** A basic-plane character is one escape; any other is the pair of its two surrogates. */
  lemma UnicodeRoundTrip(c: char, rest: string)
    ensures c as int < 0x1_0000 ==> ParseUnicode(EscapeUnit(c as int) + rest) == Some((c, 6))
    ensures 0x1_0000 <= c as int ==>
              ParseUnicode(EscapeUnit(HighSurrogate(c as int)) + (EscapeUnit(LowSurrogate(c as int)) + rest))
                == Some((c, 12))
  {
    var n := c as int;
    if n < 0x1_0000 {
      UnitRoundTrip(n, rest);
    } else {
      UnitRoundTrip(HighSurrogate(n), EscapeUnit(LowSurrogate(n)) + rest);
      UnitRoundTrip(LowSurrogate(n), rest);
    }
  }

  predicate NamedEscape(c: char) { c in {'"', '\\', '\n', '\r', '\t', BACKSPACE, FORM_FEED} }

  lemma UnitParses(s: string)
    requires "\\u" <= s
    ensures ParseChar(s) == ParseUnicode(s)
  {
    assert s[0] == '\\' && s[1] == 'u';
  }

  lemma EscapeCharReads(c: char, rest: string)
    ensures ParseChar(EscapeChar(c) + rest) == Some((c, |EscapeChar(c)|))
  {
    if NamedEscape(c) || ' ' <= c <= '~' {
      var e := EscapeChar(c);
      assert (e + rest)[0] == e[0] && (|e| == 2 ==> (e + rest)[1] == e[1]);
    } else {
      EscapedUnits(c, rest);
      UnicodeRoundTrip(c, rest);
      UnitParses(EscapeChar(c) + rest);
    }
  }

  /** A character with no escape of its own is written as one or two units. */
  lemma EscapedUnits(c: char, rest: string)
    requires !NamedEscape(c) && !(' ' <= c <= '~')
    ensures "\\u" <= EscapeChar(c) + rest
    ensures (EscapeChar(c) + rest
             == if c as int < 0x1_0000 then EscapeUnit(c as int) + rest
                else EscapeUnit(HighSurrogate(c as int)) + (EscapeUnit(LowSurrogate(c as int)) + rest))
  {
    var n := c as int;
    if n < 0x1_0000 {
      assert EscapeChar(c) == EscapeUnit(n);
    } else {
      assert EscapeChar(c) == EscapeUnit(HighSurrogate(n)) + EscapeUnit(LowSurrogate(n));
    }
  }

  lemma EscapeCharRoundTrip(c: char, rest: string)
    ensures ParseChar(EscapeChar(c) + rest) == Some((c, |EscapeChar(c)|))
    ensures (EscapeChar(c) + rest)[|EscapeChar(c)|..] == rest
    ensures (EscapeChar(c) + rest)[0] != '"'
  {
    EscapeCharReads(c, rest);
    assert EscapeChar(c)[0] != '"';
  }

  lemma StringStep(s: string, c: char, k: nat, t: string, rest: string)
    requires s != [] && s[0] != '"' && ParseChar(s) == Some((c, k)) && ParseString(s[k..]) == Some((t, rest))
    ensures ParseString(s) == Some(([c] + t, rest))
  {}

  lemma {:induction false} StringRoundTrip(t: string, rest: string)
    ensures ParseString(Escape(t) + "\"" + rest) == Some((t, rest))
  {
    if t == [] {
      assert Escape(t) + "\"" + rest == "\"" + rest;
    } else {
      var e, tail := EscapeChar(t[0]), Escape(t[1..]) + "\"" + rest;
      assert Escape(t) + "\"" + rest == e + tail;
      EscapeCharRoundTrip(t[0], tail);
      StringRoundTrip(t[1..], rest);
      StringStep(e + tail, t[0], |e|, t[1..], rest);
      assert t == [t[0]] + t[1..];
    }
  }

  lemma {:induction false} DigitsRead(n: nat, rest: string)
    ensures ParseNat(Digits(n) + rest, 0) == ParseNat(rest, n)
    ensures IsDigit(Digits(n)[0]) && (n > 0 ==> Digits(n)[0] != '0')
  {
    if n >= 10 {
      var tail := [('0' as int + n % 10) as char] + rest;
      DigitsRead(n / 10, tail);
      assert Digits(n) + rest == Digits(n / 10) + tail;
      assert tail[1..] == rest;
    } else {
      assert (Digits(n) + rest)[1..] == rest;
    }
  }

  lemma UnsignedRoundTrip(n: nat, rest: string)
    requires Delimited(rest)
    ensures ParseUnsigned(Digits(n) + rest) == Some((n, rest))
    ensures IsDigit((Digits(n) + rest)[0])
  {
    DigitsRead(n, rest);
    var s := Digits(n) + rest;
    if n == 0 {
      assert s[1..] == rest;
    } else {
      assert ParseNat(s, 0) == ParseNat(s[1..], s[0] as int - '0' as int);
    }
  }

  lemma {:induction false} DistinctDict(d: seq<Field>, pairs: seq<Field>)
    requires WfFields(pairs)
    requires forall f | f in d :: !HasKey(pairs, f.key)
    ensures DictOf(d, pairs) == d + pairs
    decreases pairs
  {
    if pairs != [] {
      assert pairs[0].key == pairs[0].key && HasKey(pairs, pairs[0].key);
      PutFresh(d, pairs[0]);
      assert forall k :: HasKey(pairs[1..], k) ==> HasKey(pairs, k) by {
        forall k | HasKey(pairs[1..], k) ensures HasKey(pairs, k) {
          var i :| 0 <= i < |pairs[1..]| && pairs[1..][i].key == k;
          assert pairs[i + 1].key == k;
        }
      }
      DistinctDict(d + [pairs[0]], pairs[1..]);
      assert d + [pairs[0]] + pairs[1..] == d + pairs;
    } else {
      assert d + pairs == d;
    }
  }

  lemma {:induction false} PutFresh(d: seq<Field>, f: Field)
    requires forall g | g in d :: g.key != f.key
    ensures Put(d, f, FieldKey) == d + [f]
  {
    if d != [] {
      assert d[0] in d;
      PutFresh(d[1..], f);
      assert d == [d[0]] + d[1..];
    }
  }

  lemma {:induction false} PrintStart(v: Json, st: Style)
    ensures Print(v, st) != [] && !IsWs(Print(v, st)[0]) && Print(v, st)[0] !in {']', '}', ',', ':'}
  {
    if v.Num? {
      DigitsRead(if v.n < 0 then -v.n else v.n, "");
    }
  }

  lemma NumRoundTrip(n: int, rest: string)
    requires Delimited(rest)
    ensures ParseValue(PrintInt(n) + rest) == Some((Num(n), rest))
  {
    if n < 0 {
      UnsignedRoundTrip(-n, rest);
      assert PrintInt(n) + rest == ['-'] + (Digits(-n) + rest);
      hide PrintInt, ParseValue, ParseUnsigned, Digits;
      NegativeValue(Digits(-n) + rest, -n, rest);
    } else {
      UnsignedRoundTrip(n, rest);
      hide ParseValue, ParseUnsigned, Digits;
      NaturalValue(Digits(n) + rest, n, rest);
    }
  }

  lemma NegativeValue(s: string, n: nat, rest: string)
    requires ParseUnsigned(s) == Some((n, rest))
    ensures ParseValue(['-'] + s) == Some((Num(0 - n), rest))
  {
    hide ParseUnsigned, ParseString, ParseItems, ParseFields;
    assert (['-'] + s)[1..] == s && SkipWs(['-'] + s) == ['-'] + s;
  }

  lemma NaturalValue(s: string, n: nat, rest: string)
    requires s != [] && IsDigit(s[0]) && ParseUnsigned(s) == Some((n, rest))
    ensures ParseValue(s) == Some((Num(n), rest))
  {
    hide ParseUnsigned, ParseString, ParseItems, ParseFields;
    assert SkipWs(s) == s;
  }

  lemma LastItem(p: string, v: Json, rest: string)
    requires ParseValue(p) == Some((v, "]" + rest))
    ensures ParseItems(p) == Some(([v], rest))
  {
    hide ParseValue;
    var tail := "]" + rest;
    assert tail[0] == ']' && tail[1..] == rest && SkipWs(tail) == tail;
  }

  lemma MoreItems(p: string, v: Json, tail: string, next: string, vs: seq<Json>, rest: string)
    requires ParseValue(p) == Some((v, tail))
    requires tail != [] && tail[0] == ',' && SkipWs(tail[1..]) == next && ParseItems(next) == Some((vs, rest))
    ensures ParseItems(p) == Some(([v] + vs, rest))
  {
    hide ParseValue;
    ItemsSkipWs(tail[1..]);
    assert SkipWs(tail) == tail;
  }

  lemma PrintItemsUnfold(items: seq<Json>, st: Style, rest: string)
    requires |items| > 1
    ensures (PrintItems(items, st) + "]" + rest
             == Print(items[0], st) + (st.item + (PrintItems(items[1..], st) + "]" + rest)))
  {
    hide Print;
    var a, b, c := Print(items[0], st), st.item, PrintItems(items[1..], st);
    Regroup(a, b, c, "]" + rest);
    assert a + b + c + "]" + rest == a + b + c + ("]" + rest);
    assert c + "]" + rest == c + ("]" + rest);
  }

  lemma ItemsStart(items: seq<Json>, st: Style, rest: string)
    requires items != []
    ensures var p := PrintItems(items, st) + "]" + rest; !IsWs(p[0]) && p[0] != ']'
  {
    PrintStart(items[0], st);
    hide Print;
    assert (PrintItems(items, st) + "]" + rest)[0] == Print(items[0], st)[0];
  }

  lemma AfterItem(st: Style, next: string)
    requires Known(st) && next != [] && !IsWs(next[0])
    ensures (st.item + next)[0] == ',' && SkipWs(st.item + next) == st.item + next
    ensures SkipWs((st.item + next)[1..]) == next
    ensures (st.colon + next)[0] == ':' && SkipWs(st.colon + next) == st.colon + next
    ensures SkipWs((st.colon + next)[1..]) == next
  {
    if st == COMPACT {
      assert (st.item + next)[1..] == next && (st.colon + next)[1..] == next;
    } else {
      assert (st.item + next)[1..] == " " + next && (st.colon + next)[1..] == " " + next;
      assert (" " + next)[1..] == next;
    }
  }

  lemma {:induction false} SkipWsTwice(s: string)
    ensures SkipWs(SkipWs(s)) == SkipWs(s)
  {
    if s != [] && IsWs(s[0]) { SkipWsTwice(s[1..]); }
  }

  /** Leading white space never changes what is parsed. */
  lemma ValueSkipWs(s: string)
    ensures ParseValue(s) == ParseValue(SkipWs(s))
  {
    SkipWsTwice(s);
  }

  lemma ItemsSkipWs(s: string)
    ensures ParseItems(s) == ParseItems(SkipWs(s))
  {
    ValueSkipWs(s);
  }

  lemma FieldsSkipWs(s: string)
    ensures ParseFields(s) == ParseFields(SkipWs(s))
  {
    SkipWsTwice(s);
    assert ParseKey(s) == ParseKey(SkipWs(s));
  }

  lemma KeyRoundTrip(k: string, st: Style, value: string)
    requires Known(st) && value != [] && !IsWs(value[0])
    ensures ParseKey(Quote(k) + st.colon + value).Some?
    ensures ParseKey(Quote(k) + st.colon + value).value.0 == k
    ensures SkipWs(ParseKey(Quote(k) + st.colon + value).value.1) == value
  {
    hide ParseString;
    var p := Quote(k) + st.colon + value;
    assert p[0] == '"' && p[1..] == Escape(k) + "\"" + (st.colon + value);
    StringRoundTrip(k, st.colon + value);
    AfterItem(st, value);
  }

  lemma LastField(p: string, f: Field, r1: string, rest: string)
    requires ParseKey(p) == Some((f.key, r1)) && ParseValue(r1) == Some((f.val, "}" + rest))
    ensures ParseFields(p) == Some(([f], rest))
  {
    hide ParseKey, ParseValue;
    var tail := "}" + rest;
    assert tail[0] == '}' && tail[1..] == rest && SkipWs(tail) == tail;
  }

  lemma MoreFields(p: string, f: Field, r1: string, tail: string, next: string, fs: seq<Field>, rest: string)
    requires ParseKey(p) == Some((f.key, r1)) && ParseValue(r1) == Some((f.val, tail))
    requires tail != [] && tail[0] == ',' && SkipWs(tail[1..]) == next && ParseFields(next) == Some((fs, rest))
    ensures ParseFields(p) == Some(([f] + fs, rest))
  {
    hide ParseKey, ParseValue;
    FieldsSkipWs(tail[1..]);
    assert SkipWs(tail) == tail;
  }

  lemma Regroup(a: string, b: string, c: string, d: string)
    ensures a + b + c + d == a + (b + (c + d))
  {}

  lemma PrintFieldsUnfold(fields: seq<Field>, st: Style, rest: string)
    requires |fields| > 1
    ensures (PrintFields(fields, st) + "}" + rest
             == PrintField(fields[0], st) + (st.item + (PrintFields(fields[1..], st) + "}" + rest)))
  {
    var a, b, c := PrintField(fields[0], st), st.item, PrintFields(fields[1..], st);
    Regroup(a, b, c, "}" + rest);
    assert a + b + c + "}" + rest == a + b + c + ("}" + rest);
    assert c + "}" + rest == c + ("}" + rest);
  }

  lemma FieldsStart(fields: seq<Field>, st: Style, rest: string)
    requires fields != []
    ensures (PrintFields(fields, st) + "}" + rest)[0] == '"'
  {
    assert PrintField(fields[0], st)[0] == '"';
  }

  // ---- printed text is printable ASCII ------------------------------------

  predicate Printable(s: string) { forall i | 0 <= i < |s| :: ' ' <= s[i] <= '~' }
}
